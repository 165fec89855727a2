/** The syntax tree both strippers walk: one constructor per node kind that
    index.ts handles specially, and `Other` for every kind it leaves to the
    default child-by-child traversal. Sub-trees that the source never visits
    (import/export specifiers, module specifier strings) are plain data. */
module Syntax {
  import opened Wrappers

  datatype Keyword =
    | PublicKeyword | PrivateKeyword | ProtectedKeyword | ReadonlyKeyword
    | OverrideKeyword | AbstractKeyword | DeclareKeyword | AccessorKeyword
    | StaticKeyword | AsyncKeyword | ExportKeyword | DefaultKeyword
    | ConstKeyword | InKeyword | OutKeyword

  /** An element of a modifier list: a keyword or a decorator `@expr`. */
  datatype Modifier = KeywordModifier(keyword: Keyword) | Decorator(expression: Node)

  /** The syntax kind `hasModifier` compares against. */
  datatype ModifierKind = KeywordKind(keyword: Keyword) | DecoratorKind

  function KindOf(m: Modifier): ModifierKind
  {
    match m
    case KeywordModifier(k) => KeywordKind(k)
    case Decorator(_) => DecoratorKind
  }

  /** Kinds without a dedicated constructor. The first six are matched by
      the dispatch; `IndexSignature` matters to class members; everything
      else (blocks, statements, literals, type nodes, ...) is `Unlisted`. */
  datatype OtherKind =
    | InterfaceDeclaration | TypeAliasDeclaration
    | EnumDeclaration | ModuleDeclaration | JsxElement | TypeAssertion
    | IndexSignature
    | Unlisted(tag: nat)

  /** An import or export specifier; only its `type` flag is ever inspected. */
  datatype Specifier = Specifier(isTypeOnly: bool, propertyName: Option<string>, name: string)

  datatype NamedBindings = NamedImports(elements: seq<Specifier>) | NamespaceImport(alias: string)

  datatype ImportClause = ImportClause(isTypeOnly: bool, name: Option<string>, namedBindings: Option<NamedBindings>)

  datatype ExportClause = NamedExports(elements: seq<Specifier>) | NamespaceExport(alias: string)

  datatype AssertionKind = NonNullExpression | AsExpression | SatisfiesExpression

  /** The function-likes other than arrow functions; their body is a block. */
  datatype FunctionKind =
    | FunctionDeclaration | FunctionExpression | Constructor
    | MethodDeclaration | GetAccessor | SetAccessor

  datatype ClassKind = ClassDeclaration | ClassExpression

  datatype HeritageToken = ExtendsKeyword | ImplementsKeyword

  /** The `?` or `!` after a property name. */
  datatype PostfixToken = QuestionToken | ExclamationToken

  /** The name of a parameter or variable: an identifier or a destructuring pattern. */
  datatype BindingName = BindingIdentifier(text: string) | BindingPattern(elements: seq<Node>)

  datatype Parameter = Parameter(
    modifiers: seq<Modifier>,
    dotDotDot: bool,
    name: BindingName,
    questionToken: bool,
    typeAnnotation: Option<Node>,
    initializer: Option<Node>)

  datatype Block = Block(statements: seq<Node>)

  datatype HeritageClause = HeritageClause(token: HeritageToken, types: seq<Node>)

  datatype TemplateSpan = TemplateSpan(expression: Option<Node>, literal: string)

  datatype Template = Template(head: string, spans: seq<TemplateSpan>)

  /** Fields the source rebuilds from `visitor(child)` are `Option`s: a child
      that strips to nothing leaves the field absent. A type-parameter or
      type-argument list that is absent is the empty sequence (the language
      has no empty `<>` list), and so is the argument list of `new C`. */
  datatype Node =
    | Identifier(text: string)
    | Other(kind: OtherKind, children: seq<Node>)
    | ExportDeclaration(modifiers: seq<Modifier>, isTypeOnly: bool, exportClause: Option<ExportClause>, fromSpecifier: Option<string>)
    | ImportDeclaration(modifiers: seq<Modifier>, importClause: Option<ImportClause>, moduleSpecifier: string)
    | VariableStatement(modifiers: seq<Modifier>, declarationList: Option<Node>)
    | VariableDeclaration(binding: BindingName, exclamationToken: bool, typeAnnotation: Option<Node>, initializer: Option<Node>)
    | ExpressionWithTypeArguments(expression: Option<Node>, typeArguments: seq<Node>)
    | Assertion(operator: AssertionKind, expression: Option<Node>, typeAnnotation: Option<Node>)
    | Call(expression: Option<Node>, questionDot: bool, typeArguments: seq<Node>, arguments: seq<Node>)
    | New(expression: Option<Node>, typeArguments: seq<Node>, arguments: seq<Node>)
    | TaggedTemplate(tag: Option<Node>, typeArguments: seq<Node>, template: Template)
    | TemplateExpression(template: Template)
    | FunctionLike(
        functionKind: FunctionKind,
        modifiers: seq<Modifier>,
        asterisk: bool,
        name: Option<Node>,
        questionToken: bool,
        typeParameters: seq<Node>,
        parameters: seq<Parameter>,
        typeAnnotation: Option<Node>,
        body: Option<Block>)
    | ArrowFunction(
        modifiers: seq<Modifier>,
        typeParameters: seq<Node>,
        parameters: seq<Parameter>,
        typeAnnotation: Option<Node>,
        conciseBody: Option<Node>)
    | Property(modifiers: seq<Modifier>, name: Option<Node>, postfix: Option<PostfixToken>, typeAnnotation: Option<Node>, initializer: Option<Node>)
    | ClassLike(
        classKind: ClassKind,
        modifiers: seq<Modifier>,
        name: Option<Node>,
        typeParameters: seq<Node>,
        heritageClauses: seq<HeritageClause>,
        members: seq<Node>)

  /** Two nodes of the same syntax kind: the same constructor, and the same
      kind tag where a constructor covers several kinds. */
  predicate SameKind(a: Node, b: Node) {
    match a
    case Identifier(_) => b.Identifier?
    case Other(kind, _) => b.Other? && b.kind == kind
    case ExportDeclaration(_, _, _, _) => b.ExportDeclaration?
    case ImportDeclaration(_, _, _) => b.ImportDeclaration?
    case VariableStatement(_, _) => b.VariableStatement?
    case VariableDeclaration(_, _, _, _) => b.VariableDeclaration?
    case ExpressionWithTypeArguments(_, _) => b.ExpressionWithTypeArguments?
    case Assertion(operator, _, _) => b.Assertion? && b.operator == operator
    case Call(_, _, _, _) => b.Call?
    case New(_, _, _) => b.New?
    case TaggedTemplate(_, _, _) => b.TaggedTemplate?
    case TemplateExpression(_) => b.TemplateExpression?
    case FunctionLike(kind, _, _, _, _, _, _, _, _) => b.FunctionLike? && b.functionKind == kind
    case ArrowFunction(_, _, _, _, _) => b.ArrowFunction?
    case Property(_, _, _, _, _) => b.Property?
    case ClassLike(kind, _, _, _, _, _) => b.ClassLike? && b.classKind == kind
  }

  /** `hasModifier`: some element of the list has one of the searched kinds. */
  function HasModifier(mods: seq<Modifier>, kinds: set<ModifierKind>): (r: bool)
    ensures r <==> exists i :: 0 <= i < |mods| && KindOf(mods[i]) in kinds
  {
    if mods == [] then false
    else KindOf(mods[0]) in kinds || HasModifier(mods[1..], kinds)
  }
}
