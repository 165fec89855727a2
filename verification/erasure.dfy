/** The type-erasing transform of index.ts: the `visitor` dispatch and its
    helpers, as pure functions over the tree of module Syntax. A thrown
    `TypeStripError` is a `Failure`; a node the visitor returns `undefined`
    for is `Success(None)`; `ts.factory.update*` is a record rebuild. */
module Erasure {
  import opened Wrappers
  import opened Seqs
  import opened Syntax
  import Errors

  type Stripped = Result<Option<Node>, Errors.ErrorCode>

  /** Modifiers `visitModifiers` refuses, by precedence: declare, accessor, decorator. */
  const RejectedModifiers: set<ModifierKind> :=
    {KeywordKind(DeclareKeyword), KeywordKind(AccessorKeyword), DecoratorKind}

  /** Modifiers `visitModifiers` removes from every list it accepts. */
  const ErasedModifiers: set<ModifierKind> :=
    {KeywordKind(PublicKeyword), KeywordKind(PrivateKeyword), KeywordKind(ProtectedKeyword),
     KeywordKind(ReadonlyKeyword), KeywordKind(OverrideKeyword), KeywordKind(AbstractKeyword)}

  /** Modifiers that make a parameter a parameter property. */
  const ParameterPropertyModifiers: set<ModifierKind> :=
    {KeywordKind(PublicKeyword), KeywordKind(PrivateKeyword), KeywordKind(ProtectedKeyword),
     KeywordKind(ReadonlyKeyword), KeywordKind(OverrideKeyword)}

  predicate Retained(m: Modifier) {
    KindOf(m) !in ErasedModifiers
  }

  predicate IsValueSpecifier(s: Specifier) {
    !s.isTypeOnly
  }

  predicate IsExtendsClause(h: HeritageClause) {
    h.token != ImplementsKeyword
  }

  predicate IsNotIndexSignature(n: Node) {
    !(n.Other? && n.kind == IndexSignature)
  }

  /** `visitModifiers`: refuse declare, then accessor, then decorators;
      otherwise drop exactly the erased keywords and keep the rest in order. */
  function StripModifiers(mods: seq<Modifier>): (r: Result<seq<Modifier>, Errors.ErrorCode>)
    ensures HasModifier(mods, {KeywordKind(DeclareKeyword)}) ==> r == Failure(Errors.Declare)
    ensures !HasModifier(mods, {KeywordKind(DeclareKeyword)}) && HasModifier(mods, {KeywordKind(AccessorKeyword)}) ==>
                  r == Failure(Errors.AccessorKeyword)
    ensures !HasModifier(mods, {KeywordKind(DeclareKeyword), KeywordKind(AccessorKeyword)}) && HasModifier(mods, {DecoratorKind}) ==>
                  r == Failure(Errors.Decorator)
    ensures r.Success? <==> !HasModifier(mods, RejectedModifiers)
    ensures r.Success? ==> r.value == Filter(Retained, mods)
    ensures r.Success? ==> forall m :: multiset(r.value)[m] == if Retained(m) then multiset(mods)[m] else 0
  {
    if HasModifier(mods, {KeywordKind(DeclareKeyword)}) then Failure(Errors.Declare)
    else if HasModifier(mods, {KeywordKind(AccessorKeyword)}) then Failure(Errors.AccessorKeyword)
    else if HasModifier(mods, {DecoratorKind}) then Failure(Errors.Decorator)
    else
      var kept := Filter(Retained, mods);
      assert forall m :: multiset(kept)[m] == if Retained(m) then multiset(mods)[m] else 0 by {
        forall m {
          FilterCount(Retained, mods, m);
        }
      }
      Success(kept)
  }

  /** `visitExportDeclaration`: never raises; `None` removes the declaration. */
  function StripExportDeclaration(n: Node): (r: Option<Node>)
    requires n.ExportDeclaration?
    ensures r.None? <==>
              || n.isTypeOnly
              || n.exportClause.None?
              || (n.exportClause.value.NamedExports? &&
                  forall i :: 0 <= i < |n.exportClause.value.elements| ==> n.exportClause.value.elements[i].isTypeOnly)
    ensures r.Some? ==>
              && r.value.ExportDeclaration?
              && !r.value.isTypeOnly
              && r.value.modifiers == n.modifiers
              && r.value.fromSpecifier == n.fromSpecifier
              && r.value.exportClause.Some?
              && (n.exportClause.value.NamespaceExport? ==> r.value.exportClause == n.exportClause)
              && (n.exportClause.value.NamedExports? ==>
                    r.value.exportClause == Some(NamedExports(Filter(IsValueSpecifier, n.exportClause.value.elements))))
  {
    if n.isTypeOnly then None
    else match n.exportClause
      case None => None
      case Some(NamespaceExport(_)) => Some(n)
      case Some(NamedExports(elements)) =>
        var kept := Filter(IsValueSpecifier, elements);
        FilterEmpty(IsValueSpecifier, elements);
        if kept == [] then None
        else Some(n.(exportClause := Some(NamedExports(kept))))
  }

  /** `visitImportDeclaration` with `visitImportClause`: never raises; `None`
      removes the declaration. */
  function StripImportDeclaration(n: Node): (r: Option<Node>)
    requires n.ImportDeclaration?
    ensures r.None? <==>
              || n.importClause.None?
              || n.importClause.value.isTypeOnly
              || n.importClause.value.namedBindings.None?
              || (n.importClause.value.namedBindings.value.NamedImports? &&
                  forall i :: 0 <= i < |n.importClause.value.namedBindings.value.elements| ==>
                    n.importClause.value.namedBindings.value.elements[i].isTypeOnly)
    ensures r.Some? ==>
              && r.value.ImportDeclaration?
              && r.value.modifiers == n.modifiers
              && r.value.moduleSpecifier == n.moduleSpecifier
              && r.value.importClause.Some?
              && !r.value.importClause.value.isTypeOnly
              && r.value.importClause.value.name == n.importClause.value.name
              && (n.importClause.value.namedBindings.value.NamespaceImport? ==>
                    r.value.importClause.value.namedBindings == n.importClause.value.namedBindings)
              && (n.importClause.value.namedBindings.value.NamedImports? ==>
                    r.value.importClause.value.namedBindings ==
                    Some(NamedImports(Filter(IsValueSpecifier, n.importClause.value.namedBindings.value.elements))))
  {
    match n.importClause
    case None => None
    case Some(clause) =>
      if clause.isTypeOnly then None
      else match clause.namedBindings
        case None => None
        case Some(NamespaceImport(_)) => Some(n)
        case Some(NamedImports(elements)) =>
          var kept := Filter(IsValueSpecifier, elements);
          FilterEmpty(IsValueSpecifier, elements);
          if kept == [] then None
          else Some(n.(importClause := Some(clause.(namedBindings := Some(NamedImports(kept))))))
  }

  /** `visitor`: the dispatch on the node's kind. */
  function Strip(n: Node): (r: Stripped)
    decreases n, 2
    ensures n.Other? && n.kind == EnumDeclaration ==> r == Failure(Errors.Enum)
    ensures n.Other? && n.kind == ModuleDeclaration ==> r == Failure(Errors.Namespace)
    ensures n.Other? && n.kind == JsxElement ==> r == Failure(Errors.Jsx)
    ensures n.Other? && n.kind == TypeAssertion ==> r == Failure(Errors.TypeAssertionExpression)
    ensures n.Other? && (n.kind == InterfaceDeclaration || n.kind == TypeAliasDeclaration) ==> r == Success(None)
    ensures n.Identifier? ==> r == Success(Some(n))
    // A variable statement reports a rejected modifier before anything in
    // its declaration list, and otherwise keeps its filtered modifiers and
    // its stripped list.
    ensures n.VariableStatement? ==>
              && (r.Success? <==> StripModifiers(n.modifiers).Success? && StripOpt(n.declarationList).Success?)
              && (StripModifiers(n.modifiers).Failure? ==> r == Failure(StripModifiers(n.modifiers).error))
              && (StripModifiers(n.modifiers).Success? && StripOpt(n.declarationList).Failure? ==>
                    r == Failure(StripOpt(n.declarationList).error))
              && (r.Success? ==>
                    r.value == Some(VariableStatement(StripModifiers(n.modifiers).value, StripOpt(n.declarationList).value)))
    // A variable declaration reports its name's error before its
    // initializer's, keeps both stripped, and loses its `!` and its type.
    ensures n.VariableDeclaration? ==>
              && (r.Success? <==> StripBinding(n.binding).Success? && StripOpt(n.initializer).Success?)
              && (StripBinding(n.binding).Failure? ==> r == Failure(StripBinding(n.binding).error))
              && (StripBinding(n.binding).Success? && StripOpt(n.initializer).Failure? ==>
                    r == Failure(StripOpt(n.initializer).error))
              && (r.Success? ==>
                    r.value == Some(VariableDeclaration(StripBinding(n.binding).value, false, None, StripOpt(n.initializer).value)))
    // `as`, `satisfies` and `!` give way to their stripped operand.
    ensures n.Assertion? ==> r == StripOpt(n.expression)
    // Calls and `new` keep their stripped callee and arguments and lose their
    // type arguments; the callee is visited before the arguments.
    ensures n.Call? || n.New? ==>
              && (r.Success? <==> StripOpt(n.expression).Success? && StripAll(n.arguments).Success?)
              && (StripOpt(n.expression).Failure? ==> r == Failure(StripOpt(n.expression).error))
              && (StripOpt(n.expression).Success? && StripAll(n.arguments).Failure? ==>
                    r == Failure(StripAll(n.arguments).error))
              && (n.Call? && r.Success? ==>
                    r.value == Some(Call(StripOpt(n.expression).value, n.questionDot, [], StripAll(n.arguments).value)))
              && (n.New? && r.Success? ==>
                    r.value == Some(New(StripOpt(n.expression).value, [], StripAll(n.arguments).value)))
    // An `extends` entry keeps its stripped expression and loses its type
    // arguments; a tagged template keeps its stripped tag, then its stripped
    // template; a template expression keeps its stripped template.
    ensures n.ExpressionWithTypeArguments? ==>
              && (r.Success? <==> StripOpt(n.expression).Success?)
              && (r.Failure? ==> r.error == StripOpt(n.expression).error)
              && (r.Success? ==> r.value == Some(ExpressionWithTypeArguments(StripOpt(n.expression).value, [])))
    ensures n.TaggedTemplate? ==>
              && (r.Success? <==> StripOpt(n.tag).Success? && StripTemplate(n.template).Success?)
              && (StripOpt(n.tag).Failure? ==> r == Failure(StripOpt(n.tag).error))
              && (StripOpt(n.tag).Success? && StripTemplate(n.template).Failure? ==>
                    r == Failure(StripTemplate(n.template).error))
              && (r.Success? ==> r.value == Some(TaggedTemplate(StripOpt(n.tag).value, [], StripTemplate(n.template).value)))
    ensures n.TemplateExpression? ==>
              && (r.Success? <==> StripTemplate(n.template).Success?)
              && (r.Failure? ==> r.error == StripTemplate(n.template).error)
              && (r.Success? ==> r.value == Some(TemplateExpression(StripTemplate(n.template).value)))
    // Every kind without a rule of its own is rebuilt from its stripped
    // children, and passes up the error of the first child that raises.
    ensures n.Other? && (n.kind.IndexSignature? || n.kind.Unlisted?) ==>
              (r.Success? <==> StripAll(n.children).Success?) &&
              (r.Failure? ==> r.error == StripAll(n.children).error) &&
              (r.Success? ==> r.value == Some(Other(n.kind, StripAll(n.children).value)))
    // Only type-only or emptied import/export declarations, declarations of
    // pure type syntax, assertions around a vanishing operand and abstract
    // methods are removed.
    ensures r == Success(None) ==>
              || n.ExportDeclaration? || n.ImportDeclaration? || n.Assertion?
              || (n.Other? && (n.kind == InterfaceDeclaration || n.kind == TypeAliasDeclaration))
              || (n.FunctionLike? && n.functionKind == MethodDeclaration &&
                  HasModifier(n.modifiers, {KeywordKind(AbstractKeyword)}))
  {
    match n
    case ExportDeclaration(_, _, _, _) => Success(StripExportDeclaration(n))
    case ImportDeclaration(_, _, _) => Success(StripImportDeclaration(n))
    case Other(InterfaceDeclaration, _) => Success(None)
    case Other(TypeAliasDeclaration, _) => Success(None)
    case VariableStatement(mods, list) =>
      var mods' :- StripModifiers(mods);
      var list' :- StripOpt(list);
      Success(Some(VariableStatement(mods', list')))
    case VariableDeclaration(binding, _, _, init) =>
      var binding' :- StripBinding(binding);
      var init' :- StripOpt(init);
      Success(Some(VariableDeclaration(binding', false, None, init')))
    case ExpressionWithTypeArguments(e, _) =>
      var e' :- StripOpt(e);
      Success(Some(ExpressionWithTypeArguments(e', [])))
    case Assertion(_, e, _) => StripOpt(e)
    case Call(e, questionDot, _, args) =>
      var e' :- StripOpt(e);
      var args' :- StripAll(args);
      Success(Some(Call(e', questionDot, [], args')))
    case New(e, _, args) =>
      var e' :- StripOpt(e);
      var args' :- StripAll(args);
      Success(Some(New(e', [], args')))
    case TaggedTemplate(tag, _, t) =>
      var tag' :- StripOpt(tag);
      var t' :- StripTemplate(t);
      Success(Some(TaggedTemplate(tag', [], t')))
    case TemplateExpression(t) =>
      var t' :- StripTemplate(t);
      Success(Some(TemplateExpression(t')))
    case FunctionLike(_, _, _, _, _, _, _, _, _) => StripFunctionLike(n)
    case ArrowFunction(_, _, _, _, _) => StripArrowFunction(n)
    case Property(_, _, _, _, _) => StripProperty(n)
    case ClassLike(_, _, _, _, _, _) => StripClassLike(n)
    case Other(EnumDeclaration, _) => Failure(Errors.Enum)
    case Other(ModuleDeclaration, _) => Failure(Errors.Namespace)
    case Other(JsxElement, _) => Failure(Errors.Jsx)
    case Other(TypeAssertion, _) => Failure(Errors.TypeAssertionExpression)
    case Identifier(_) => Success(Some(n))
    case Other(kind, children) =>
      var children' :- StripAll(children);
      Success(Some(Other(kind, children')))
  }

  /** `visitor` applied to a field that may be `undefined`. */
  function StripOpt(o: Option<Node>): (r: Stripped)
    decreases o, 1
    ensures o.None? ==> r == Success(None)
  {
    match o
    case None => Success(None)
    case Some(n) => Strip(n)
  }

  /** `nodes.map(visitor).filter(isNotUndefined)`, and `ts.visitEachChild`
      over a child list: the first error wins, removed nodes are dropped. */
  function StripAll(s: seq<Node>): (r: Result<seq<Node>, Errors.ErrorCode>)
    decreases s, 1
    ensures r.Success? ==> |r.value| <= |s|
  {
    if s == [] then Success([])
    else
      var head :- Strip(s[0]);
      var tail :- StripAll(s[1..]);
      Success(if head.Some? then [head.value] + tail else tail)
  }

  /** A parameter or variable name: identifiers are unchanged, patterns are
      visited child by child. */
  function StripBinding(b: BindingName): (r: Result<BindingName, Errors.ErrorCode>)
    decreases b, 1
    ensures b.BindingIdentifier? ==> r == Success(b)
    ensures b.BindingPattern? ==> (r.Success? <==> StripAll(b.elements).Success?)
    ensures b.BindingPattern? && r.Failure? ==> r.error == StripAll(b.elements).error
    ensures b.BindingPattern? && r.Success? ==> r.value.BindingPattern? && StripAll(b.elements) == Success(r.value.elements)
  {
    match b
    case BindingIdentifier(_) => Success(b)
    case BindingPattern(elements) =>
      var elements' :- StripAll(elements);
      Success(BindingPattern(elements'))
  }

  /** A function body: the block is visited statement by statement. */
  function StripBlock(b: Block): (r: Result<Block, Errors.ErrorCode>)
    decreases b, 1
    ensures r.Success? <==> StripAll(b.statements).Success?
    ensures r.Failure? ==> r.error == StripAll(b.statements).error
    ensures r.Success? ==> StripAll(b.statements) == Success(r.value.statements)
  {
    var statements :- StripAll(b.statements);
    Success(Block(statements))
  }

  /** `visitTemplateExpression`: the head is copied, every span visited. */
  function StripTemplate(t: Template): (r: Result<Template, Errors.ErrorCode>)
    decreases t, 1
    ensures r.Success? <==> forall i :: 0 <= i < |t.spans| ==> StripOpt(t.spans[i].expression).Success?
    ensures r.Failure? ==> r == Failure(StripSpans(t.spans).error)
    ensures r.Success? ==> r.value.head == t.head && |r.value.spans| == |t.spans|
    ensures r.Success? ==> forall i :: 0 <= i < |t.spans| ==>
              r.value.spans[i].literal == t.spans[i].literal &&
              StripOpt(t.spans[i].expression) == Success(r.value.spans[i].expression)
  {
    var spans :- StripSpans(t.spans);
    Success(Template(t.head, spans))
  }

  function StripSpans(spans: seq<TemplateSpan>): (r: Result<seq<TemplateSpan>, Errors.ErrorCode>)
    decreases spans, 1
    ensures r.Success? <==> forall i :: 0 <= i < |spans| ==> StripOpt(spans[i].expression).Success?
    ensures r.Success? ==> |r.value| == |spans|
    ensures r.Success? ==> forall i :: 0 <= i < |spans| ==> r.value[i].literal == spans[i].literal
    ensures r.Success? ==> forall i :: 0 <= i < |spans| ==> StripOpt(spans[i].expression) == Success(r.value[i].expression)
  {
    if spans == [] then Success([])
    else
      assert forall i :: 0 <= i < |spans[1..]| ==> spans[1..][i] == spans[i + 1];
      var e :- StripOpt(spans[0].expression);
      var tail :- StripSpans(spans[1..]);
      Success([TemplateSpan(e, spans[0].literal)] + tail)
  }

  /** `visitParameter`. */
  function StripParameter(p: Parameter): (r: Result<Option<Parameter>, Errors.ErrorCode>)
    decreases p, 1
    ensures HasModifier(p.modifiers, ParameterPropertyModifiers) ==> r == Failure(Errors.ParameterProperty)
    ensures !HasModifier(p.modifiers, ParameterPropertyModifiers) && p.name == BindingIdentifier("this") ==>
                  r == Success(None)
    ensures r.Success? ==> (r.value.None? <==> p.name == BindingIdentifier("this"))
    // Otherwise the name is visited before the initializer, and both are
    // kept as stripped.
    ensures !HasModifier(p.modifiers, ParameterPropertyModifiers) && p.name != BindingIdentifier("this") ==>
              && (r.Success? <==> StripBinding(p.name).Success? && StripOpt(p.initializer).Success?)
              && (StripBinding(p.name).Failure? ==> r == Failure(StripBinding(p.name).error))
              && (StripBinding(p.name).Success? && StripOpt(p.initializer).Failure? ==>
                    r == Failure(StripOpt(p.initializer).error))
    ensures r.Success? && r.value.Some? ==>
              && r.value.value.modifiers == p.modifiers
              && r.value.value.dotDotDot == p.dotDotDot
              && !r.value.value.questionToken
              && r.value.value.typeAnnotation.None?
              && StripBinding(p.name) == Success(r.value.value.name)
              && StripOpt(p.initializer) == Success(r.value.value.initializer)
  {
    if HasModifier(p.modifiers, ParameterPropertyModifiers) then Failure(Errors.ParameterProperty)
    else if p.name == BindingIdentifier("this") then Success(None)
    else
      var name :- StripBinding(p.name);
      var init :- StripOpt(p.initializer);
      Success(Some(Parameter(p.modifiers, p.dotDotDot, name, false, None, init)))
  }

  /** `node.parameters.map(visitParameter).filter(isNotUndefined)`. */
  function StripParameters(ps: seq<Parameter>): (r: Result<seq<Parameter>, Errors.ErrorCode>)
    decreases ps, 1
    ensures r.Success? ==> |r.value| <= |ps|
  {
    if ps == [] then Success([])
    else
      var head :- StripParameter(ps[0]);
      var tail :- StripParameters(ps[1..]);
      Success(if head.Some? then [head.value] + tail else tail)
  }

  /** `visitFunctionLikeDeclaration` for every kind but arrow functions. */
  function StripFunctionLike(n: Node): (r: Stripped)
    requires n.FunctionLike?
    decreases n, 1
    ensures StripParameters(n.parameters).Failure? ==> r == Failure(StripParameters(n.parameters).error)
    // It succeeds exactly when its parameters strip and, unless it is an
    // abstract method, its modifiers are accepted, a function declaration or
    // method has a body, and the name of a method or accessor and the body strip.
    ensures r.Success? <==>
              && StripParameters(n.parameters).Success?
              && (|| (n.functionKind == MethodDeclaration && HasModifier(n.modifiers, {KeywordKind(AbstractKeyword)}))
                  || (&& StripModifiers(n.modifiers).Success?
                      && (n.functionKind == FunctionDeclaration || n.functionKind == MethodDeclaration ==> n.body.Some?)
                      && (n.functionKind == MethodDeclaration || n.functionKind == GetAccessor || n.functionKind == SetAccessor ==>
                            StripOpt(n.name).Success?)
                      && StripOptBlock(n.body).Success?))
    ensures r == Success(None) <==>
              && n.functionKind == MethodDeclaration
              && StripParameters(n.parameters).Success?
              && HasModifier(n.modifiers, {KeywordKind(AbstractKeyword)})
    ensures n.functionKind == FunctionDeclaration && StripParameters(n.parameters).Success? ==>
              (StripModifiers(n.modifiers).Failure? ==> r == Failure(StripModifiers(n.modifiers).error)) &&
              (StripModifiers(n.modifiers).Success? && n.body.None? ==> r == Failure(Errors.Overload))
    ensures n.functionKind == MethodDeclaration && StripParameters(n.parameters).Success?
              && !HasModifier(n.modifiers, {KeywordKind(AbstractKeyword)}) && n.body.None? ==>
                  r == Failure(Errors.Overload)
    ensures r.Success? && r.value.Some? ==>
              && r.value.value.FunctionLike?
              && r.value.value.functionKind == n.functionKind
              && r.value.value.typeParameters == []
              && r.value.value.typeAnnotation.None?
              && !r.value.value.questionToken
              && r.value.value.parameters == StripParameters(n.parameters).value
              && r.value.value.modifiers == Filter(Retained, n.modifiers)
              && r.value.value.asterisk == n.asterisk
    // After the parameters come the modifiers (a method is first checked for
    // `abstract` and for a missing body), then the name of a method or
    // accessor, then the body; the name of any other kind is kept unvisited.
    ensures StripParameters(n.parameters).Success? && StripModifiers(n.modifiers).Failure?
              && !(n.functionKind == MethodDeclaration &&
                   (HasModifier(n.modifiers, {KeywordKind(AbstractKeyword)}) || n.body.None?)) ==>
                r == Failure(StripModifiers(n.modifiers).error)
    ensures (n.functionKind == MethodDeclaration || n.functionKind == GetAccessor || n.functionKind == SetAccessor)
              && StripParameters(n.parameters).Success? && StripModifiers(n.modifiers).Success?
              && !(n.functionKind == MethodDeclaration &&
                   (HasModifier(n.modifiers, {KeywordKind(AbstractKeyword)}) || n.body.None?))
              && StripOpt(n.name).Failure? ==>
                r == Failure(StripOpt(n.name).error)
    ensures StripParameters(n.parameters).Success? && StripModifiers(n.modifiers).Success?
              && ((n.functionKind == MethodDeclaration || n.functionKind == GetAccessor || n.functionKind == SetAccessor) ==>
                    StripOpt(n.name).Success?)
              && !(n.functionKind == MethodDeclaration && HasModifier(n.modifiers, {KeywordKind(AbstractKeyword)}))
              && StripOptBlock(n.body).Failure? ==>
                r == Failure(StripOptBlock(n.body).error)
    ensures r.Success? && r.value.Some? ==>
              && StripOptBlock(n.body) == Success(r.value.value.body)
              && ((n.functionKind == MethodDeclaration || n.functionKind == GetAccessor || n.functionKind == SetAccessor) ==>
                    StripOpt(n.name) == Success(r.value.value.name))
              && ((n.functionKind == FunctionDeclaration || n.functionKind == FunctionExpression || n.functionKind == Constructor) ==>
                    r.value.value.name == n.name)
  {
    var parameters :- StripParameters(n.parameters);
    match n.functionKind
    case FunctionDeclaration =>
      var modifiers :- StripModifiers(n.modifiers);
      if n.body.None? then Failure(Errors.Overload)
      else
        var body :- StripBlock(n.body.value);
        Success(Some(FunctionLike(FunctionDeclaration, modifiers, n.asterisk, n.name, false, [], parameters, None, Some(body))))
    case MethodDeclaration =>
      if HasModifier(n.modifiers, {KeywordKind(AbstractKeyword)}) then Success(None)
      else if n.body.None? then Failure(Errors.Overload)
      else
        var modifiers :- StripModifiers(n.modifiers);
        var name :- StripOpt(n.name);
        var body :- StripBlock(n.body.value);
        Success(Some(FunctionLike(MethodDeclaration, modifiers, n.asterisk, name, false, [], parameters, None, Some(body))))
    case GetAccessor =>
      var modifiers :- StripModifiers(n.modifiers);
      var name :- StripOpt(n.name);
      var body :- StripOptBlock(n.body);
      Success(Some(FunctionLike(GetAccessor, modifiers, n.asterisk, name, false, [], parameters, None, body)))
    case SetAccessor =>
      var modifiers :- StripModifiers(n.modifiers);
      var name :- StripOpt(n.name);
      var body :- StripOptBlock(n.body);
      Success(Some(FunctionLike(SetAccessor, modifiers, n.asterisk, name, false, [], parameters, None, body)))
    case FunctionExpression =>
      var modifiers :- StripModifiers(n.modifiers);
      var body :- StripOptBlock(n.body);
      Success(Some(FunctionLike(FunctionExpression, modifiers, n.asterisk, n.name, false, [], parameters, None, body)))
    case Constructor =>
      var modifiers :- StripModifiers(n.modifiers);
      var body :- StripOptBlock(n.body);
      Success(Some(FunctionLike(Constructor, modifiers, n.asterisk, n.name, false, [], parameters, None, body)))
  }

  /** `visitor(node.body)` on a body that may be absent. */
  function StripOptBlock(b: Option<Block>): (r: Result<Option<Block>, Errors.ErrorCode>)
    decreases b, 1
    ensures r.Success? ==> (r.value.Some? <==> b.Some?)
    ensures b.None? ==> r == Success(None)
    ensures b.Some? ==> (r.Success? <==> StripBlock(b.value).Success?)
    ensures b.Some? && r.Failure? ==> r.error == StripBlock(b.value).error
    ensures b.Some? && r.Success? ==> StripBlock(b.value) == Success(r.value.value)
  {
    match b
    case None => Success(None)
    case Some(block) =>
      var block' :- StripBlock(block);
      Success(Some(block'))
  }

  /** `visitFunctionLikeDeclaration` for arrow functions. */
  function StripArrowFunction(n: Node): (r: Stripped)
    requires n.ArrowFunction?
    decreases n, 1
    ensures r.Success? <==>
              StripParameters(n.parameters).Success? && StripModifiers(n.modifiers).Success? && StripOpt(n.conciseBody).Success?
    ensures StripParameters(n.parameters).Failure? ==> r == Failure(StripParameters(n.parameters).error)
    ensures r.Success? ==>
              && r.value.Some?
              && r.value.value.ArrowFunction?
              && r.value.value.typeParameters == []
              && r.value.value.typeAnnotation.None?
              && r.value.value.parameters == StripParameters(n.parameters).value
              && r.value.value.modifiers == Filter(Retained, n.modifiers)
              && StripOpt(n.conciseBody) == Success(r.value.value.conciseBody)
    // The modifiers are checked after the parameters, the body last.
    ensures StripParameters(n.parameters).Success? && StripModifiers(n.modifiers).Failure? ==>
              r == Failure(StripModifiers(n.modifiers).error)
    ensures StripParameters(n.parameters).Success? && StripModifiers(n.modifiers).Success?
              && StripOpt(n.conciseBody).Failure? ==>
                r == Failure(StripOpt(n.conciseBody).error)
  {
    var parameters :- StripParameters(n.parameters);
    var modifiers :- StripModifiers(n.modifiers);
    var body :- StripOpt(n.conciseBody);
    Success(Some(ArrowFunction(modifiers, [], parameters, None, body)))
  }

  /** `visitPropertyDeclaration`. */
  function StripProperty(n: Node): (r: Stripped)
    requires n.Property?
    decreases n, 1
    ensures r.Success? <==>
              StripModifiers(n.modifiers).Success? && StripOpt(n.name).Success? && StripOpt(n.initializer).Success?
    ensures StripModifiers(n.modifiers).Failure? ==> r == Failure(StripModifiers(n.modifiers).error)
    ensures r.Success? ==>
              && r.value.Some?
              && r.value.value.Property?
              && r.value.value.modifiers == Filter(Retained, n.modifiers)
              && r.value.value.postfix.None?
              && r.value.value.typeAnnotation.None?
              && StripOpt(n.name) == Success(r.value.value.name)
              && StripOpt(n.initializer) == Success(r.value.value.initializer)
    // The name is visited after the modifiers, the initializer last.
    ensures StripModifiers(n.modifiers).Success? && StripOpt(n.name).Failure? ==>
              r == Failure(StripOpt(n.name).error)
    ensures StripModifiers(n.modifiers).Success? && StripOpt(n.name).Success?
              && StripOpt(n.initializer).Failure? ==>
                r == Failure(StripOpt(n.initializer).error)
  {
    var modifiers :- StripModifiers(n.modifiers);
    var name :- StripOpt(n.name);
    var init :- StripOpt(n.initializer);
    Success(Some(Property(modifiers, name, None, None, init)))
  }

  /** `visitClassLike`: modifiers, then members, then heritage clauses. */
  function StripClassLike(n: Node): (r: Stripped)
    requires n.ClassLike?
    decreases n, 1
    ensures StripModifiers(n.modifiers).Failure? ==> r == Failure(StripModifiers(n.modifiers).error)
    ensures StripModifiers(n.modifiers).Success? && StripMembers(n.members).Failure? ==>
                  r == Failure(StripMembers(n.members).error)
    ensures StripModifiers(n.modifiers).Success? && StripMembers(n.members).Success?
              && StripHeritageClauses(n.heritageClauses).Failure? ==>
                  r == Failure(StripHeritageClauses(n.heritageClauses).error)
    ensures r.Success? <==>
              && StripModifiers(n.modifiers).Success?
              && StripMembers(n.members).Success?
              && StripHeritageClauses(n.heritageClauses).Success?
    ensures r.Success? ==>
              && r.value.Some?
              && r.value.value.ClassLike?
              && r.value.value.classKind == n.classKind
              && r.value.value.name == n.name
              && r.value.value.typeParameters == []
              && r.value.value.modifiers == Filter(Retained, n.modifiers)
              && r.value.value.members == StripMembers(n.members).value
              && StripHeritageClauses(n.heritageClauses).Success?
              && r.value.value.heritageClauses == StripHeritageClauses(n.heritageClauses).value
  {
    var modifiers :- StripModifiers(n.modifiers);
    var members :- StripMembers(n.members);
    var heritage :- StripHeritageClauses(n.heritageClauses);
    Success(Some(ClassLike(n.classKind, modifiers, n.name, [], heritage, members)))
  }

  /** `node.members.map(visitor).filter(m => m && !isIndexSignatureDeclaration(m))`. */
  function StripMembers(members: seq<Node>): (r: Result<seq<Node>, Errors.ErrorCode>)
    decreases members, 2
    ensures r.Success? <==> StripAll(members).Success?
    ensures r.Failure? ==> r.error == StripAll(members).error
    ensures r.Success? ==> |r.value| <= |members|
    ensures r.Success? ==> forall i :: 0 <= i < |r.value| ==> IsNotIndexSignature(r.value[i])
  {
    var stripped :- StripAll(members);
    Success(Filter(IsNotIndexSignature, stripped))
  }

  /** `out` is the clause `h` becomes: same token, stripped types. */
  predicate ClauseStripped(h: HeritageClause, out: HeritageClause)
    decreases h, 0
  {
    out.token == h.token && StripAll(h.types) == Success(out.types)
  }

  /** An `implements` clause is never visited; an `extends` clause strips
      when its types do. */
  predicate ClauseSucceeds(h: HeritageClause)
    decreases h, 0
  {
    IsExtendsClause(h) ==> StripAll(h.types).Success?
  }

  /** `out` holds, in order, one clause per `extends` clause of `src`, each
      the stripped form of the clause it comes from; `implements` clauses
      have no counterpart. */
  predicate StrippedClauses(src: seq<HeritageClause>, out: seq<HeritageClause>)
    decreases src, 0
  {
    if src == [] then out == []
    else if src[0].token == ImplementsKeyword then StrippedClauses(src[1..], out)
    else out != [] && ClauseStripped(src[0], out[0]) && StrippedClauses(src[1..], out[1..])
  }

  /** `visitHeritageClauses`: `implements` clauses are dropped unvisited;
      each `extends` clause keeps its token and has its types visited. */
  function StripHeritageClauses(hs: seq<HeritageClause>): (r: Result<seq<HeritageClause>, Errors.ErrorCode>)
    decreases hs, 1
    ensures r.Success? <==> forall i :: 0 <= i < |hs| ==> ClauseSucceeds(hs[i])
    ensures r.Success? ==> |r.value| == |Filter(IsExtendsClause, hs)|
    ensures r.Success? ==> forall i :: 0 <= i < |r.value| ==> r.value[i].token == ExtendsKeyword
    ensures r.Success? ==> StrippedClauses(hs, r.value)
  {
    if hs == [] then Success([])
    else if hs[0].token == ImplementsKeyword then
      assert Filter(IsExtendsClause, hs) == Filter(IsExtendsClause, hs[1..]);
      StripHeritageClauses(hs[1..])
    else
      var rest := hs[1..];
      assert Filter(IsExtendsClause, hs) == [hs[0]] + Filter(IsExtendsClause, rest);
      var types :- StripAll(hs[0].types);
      var tail :- StripHeritageClauses(rest);
      var kept := [HeritageClause(hs[0].token, types)] + tail;
      assert kept[1..] == tail;
      Success(kept)
  }
}
