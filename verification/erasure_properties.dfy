/** Properties of the index.ts transform that relate several calls: what a
    stripped tree looks like (`Erased`), that stripping is idempotent, that
    child lists keep their order, and which error wins when several apply. */
module ErasureProperties {
  import opened Wrappers
  import opened Seqs
  import opened Syntax
  import opened Erasure
  import Errors

  /** A modifier list `visitModifiers` accepts and leaves unchanged. */
  predicate AcceptedModifiers(mods: seq<Modifier>)
  {
    forall i :: 0 <= i < |mods| ==> KindOf(mods[i]) !in RejectedModifiers && KindOf(mods[i]) !in ErasedModifiers
  }

  /** A non-empty specifier list with no `type` specifier. */
  predicate ValueSpecifiers(elements: seq<Specifier>)
  {
    elements != [] && forall i :: 0 <= i < |elements| ==> !elements[i].isTypeOnly
  }

  /** A tree with nothing left to erase and nothing the stripper rejects, at
      every position the visitor looks at. */
  predicate Erased(n: Node)
    decreases n, 1
  {
    match n
    case Identifier(_) => true
    case Other(kind, children) =>
      && (kind.IndexSignature? || kind.Unlisted?)
      && forall i :: 0 <= i < |children| ==> Erased(children[i])
    case ExportDeclaration(_, isTypeOnly, clause, _) =>
      && !isTypeOnly
      && clause.Some?
      && (clause.value.NamedExports? ==> ValueSpecifiers(clause.value.elements))
    case ImportDeclaration(_, clause, _) =>
      && clause.Some?
      && !clause.value.isTypeOnly
      && clause.value.namedBindings.Some?
      && (clause.value.namedBindings.value.NamedImports? ==> ValueSpecifiers(clause.value.namedBindings.value.elements))
    case VariableStatement(mods, list) =>
      AcceptedModifiers(mods) && ErasedOpt(list)
    case VariableDeclaration(binding, exclamation, annotation, init) =>
      !exclamation && annotation.None? && ErasedBinding(binding) && ErasedOpt(init)
    case ExpressionWithTypeArguments(e, typeArguments) =>
      typeArguments == [] && ErasedOpt(e)
    case Assertion(_, _, _) => false
    case Call(e, _, typeArguments, args) =>
      typeArguments == [] && ErasedOpt(e) && forall i :: 0 <= i < |args| ==> Erased(args[i])
    case New(e, typeArguments, args) =>
      typeArguments == [] && ErasedOpt(e) && forall i :: 0 <= i < |args| ==> Erased(args[i])
    case TaggedTemplate(tag, typeArguments, t) =>
      typeArguments == [] && ErasedOpt(tag) && ErasedTemplate(t)
    case TemplateExpression(t) =>
      ErasedTemplate(t)
    case FunctionLike(kind, mods, _, name, question, typeParameters, ps, annotation, body) =>
      && !question
      && typeParameters == []
      && annotation.None?
      && AcceptedModifiers(mods)
      && (forall i :: 0 <= i < |ps| ==> ErasedParameter(ps[i]))
      && (kind.MethodDeclaration? || kind.GetAccessor? || kind.SetAccessor? ==> ErasedOpt(name))
      && (kind.FunctionDeclaration? || kind.MethodDeclaration? ==> body.Some?)
      && (body.Some? ==> ErasedBlock(body.value))
    case ArrowFunction(mods, typeParameters, ps, annotation, body) =>
      && typeParameters == []
      && annotation.None?
      && AcceptedModifiers(mods)
      && (forall i :: 0 <= i < |ps| ==> ErasedParameter(ps[i]))
      && ErasedOpt(body)
    case Property(mods, name, postfix, annotation, init) =>
      AcceptedModifiers(mods) && postfix.None? && annotation.None? && ErasedOpt(name) && ErasedOpt(init)
    case ClassLike(_, mods, _, typeParameters, clauses, members) =>
      && AcceptedModifiers(mods)
      && typeParameters == []
      && (forall i :: 0 <= i < |clauses| ==> ErasedClause(clauses[i]))
      && (forall i :: 0 <= i < |members| ==> Erased(members[i]) && IsNotIndexSignature(members[i]))
  }

  predicate ErasedOpt(o: Option<Node>)
    decreases o, 2
  {
    o.Some? ==> Erased(o.value)
  }

  predicate ErasedBinding(b: BindingName)
    decreases b, 2
  {
    b.BindingPattern? ==> forall i :: 0 <= i < |b.elements| ==> Erased(b.elements[i])
  }

  predicate ErasedParameter(p: Parameter)
    decreases p, 2
  {
    && !HasModifier(p.modifiers, ParameterPropertyModifiers)
    && p.name != BindingIdentifier("this")
    && !p.questionToken
    && p.typeAnnotation.None?
    && ErasedBinding(p.name)
    && ErasedOpt(p.initializer)
  }

  predicate ErasedBlock(b: Block)
    decreases b, 2
  {
    forall i :: 0 <= i < |b.statements| ==> Erased(b.statements[i])
  }

  predicate ErasedTemplate(t: Template)
    decreases t, 2
  {
    forall i :: 0 <= i < |t.spans| ==> ErasedOpt(t.spans[i].expression)
  }

  predicate ErasedClause(h: HeritageClause)
    decreases h, 2
  {
    h.token == ExtendsKeyword && forall j :: 0 <= j < |h.types| ==> Erased(h.types[j])
  }

  // ---------------------------------------------------------------------------
  // An erased tree is a fixpoint of Strip.
  // ---------------------------------------------------------------------------

  lemma AcceptedModifiersUnchanged(mods: seq<Modifier>)
    requires AcceptedModifiers(mods)
    ensures StripModifiers(mods) == Success(mods)
  {
    FilterKeepsAll(Retained, mods);
  }

  lemma {:induction false} ErasedIsFixpoint(n: Node)
    requires Erased(n)
    ensures Strip(n) == Success(Some(n))
    decreases n, 2
  {
    match n
    case Identifier(_) =>
    case Other(kind, children) =>
      ErasedAllFixpoint(children);
    case ExportDeclaration(_, _, _, _) =>
      ErasedExportDeclarationFixpoint(n);
    case ImportDeclaration(_, _, _) =>
      ErasedImportDeclarationFixpoint(n);
    case VariableStatement(mods, list) =>
      AcceptedModifiersUnchanged(mods);
      ErasedOptFixpoint(list);
    case VariableDeclaration(binding, _, _, init) =>
      ErasedBindingFixpoint(binding);
      ErasedOptFixpoint(init);
    case ExpressionWithTypeArguments(e, _) =>
      ErasedOptFixpoint(e);
    case Call(e, _, _, args) =>
      ErasedOptFixpoint(e);
      ErasedAllFixpoint(args);
    case New(e, _, args) =>
      ErasedOptFixpoint(e);
      ErasedAllFixpoint(args);
    case TaggedTemplate(tag, _, t) =>
      ErasedOptFixpoint(tag);
      ErasedSpansFixpoint(t.spans);
    case TemplateExpression(t) =>
      ErasedSpansFixpoint(t.spans);
    case FunctionLike(_, _, _, _, _, _, _, _, _) =>
      ErasedFunctionLikeFixpoint(n);
    case ArrowFunction(mods, _, ps, _, body) =>
      ErasedParametersFixpoint(ps);
      AcceptedModifiersUnchanged(mods);
      ErasedOptFixpoint(body);
    case Property(mods, name, _, _, init) =>
      AcceptedModifiersUnchanged(mods);
      ErasedOptFixpoint(name);
      ErasedOptFixpoint(init);
    case ClassLike(_, _, _, _, _, _) =>
      ErasedClassLikeFixpoint(n);
  }

  lemma ErasedExportDeclarationFixpoint(n: Node)
    requires n.ExportDeclaration? && Erased(n)
    ensures StripExportDeclaration(n) == Some(n)
  {
    if n.exportClause.value.NamedExports? {
      FilterKeepsAll(IsValueSpecifier, n.exportClause.value.elements);
    }
  }

  lemma ErasedImportDeclarationFixpoint(n: Node)
    requires n.ImportDeclaration? && Erased(n)
    ensures StripImportDeclaration(n) == Some(n)
  {
    if n.importClause.value.namedBindings.value.NamedImports? {
      FilterKeepsAll(IsValueSpecifier, n.importClause.value.namedBindings.value.elements);
    }
  }

  lemma {:induction false} ErasedFunctionLikeFixpoint(n: Node)
    requires n.FunctionLike? && Erased(n)
    ensures StripFunctionLike(n) == Success(Some(n))
    decreases n, 1
  {
    ErasedParametersFixpoint(n.parameters);
    AcceptedModifiersUnchanged(n.modifiers);
    ErasedOptBlockFixpoint(n.body);
    match n.functionKind
    case FunctionDeclaration =>
      assert StripBlock(n.body.value) == Success(n.body.value);
    case MethodDeclaration =>
      assert !HasModifier(n.modifiers, {KeywordKind(AbstractKeyword)});
      ErasedOptFixpoint(n.name);
      assert StripBlock(n.body.value) == Success(n.body.value);
    case GetAccessor =>
      ErasedOptFixpoint(n.name);
    case SetAccessor =>
      ErasedOptFixpoint(n.name);
    case FunctionExpression =>
    case Constructor =>
  }

  lemma {:induction false} ErasedOptBlockFixpoint(b: Option<Block>)
    requires b.Some? ==> ErasedBlock(b.value)
    ensures StripOptBlock(b) == Success(b)
    decreases b, 1
  {
    if b.Some? {
      ErasedAllFixpoint(b.value.statements);
      assert StripBlock(b.value) == Success(b.value);
    }
  }

  lemma {:induction false} ErasedClassLikeFixpoint(n: Node)
    requires n.ClassLike? && Erased(n)
    ensures StripClassLike(n) == Success(Some(n))
    decreases n, 1
  {
    AcceptedModifiersUnchanged(n.modifiers);
    ErasedAllFixpoint(n.members);
    FilterKeepsAll(IsNotIndexSignature, n.members);
    ErasedClausesFixpoint(n.heritageClauses);
  }

  lemma {:induction false} ErasedOptFixpoint(o: Option<Node>)
    requires ErasedOpt(o)
    ensures StripOpt(o) == Success(o)
    decreases o, 1
  {
    if o.Some? {
      ErasedIsFixpoint(o.value);
    }
  }

  lemma {:induction false} ErasedAllFixpoint(s: seq<Node>)
    requires forall i :: 0 <= i < |s| ==> Erased(s[i])
    ensures StripAll(s) == Success(s)
    decreases s, 1
  {
    if s != [] {
      ErasedIsFixpoint(s[0]);
      assert forall i :: 0 <= i < |s[1..]| ==> s[1..][i] == s[i + 1];
      ErasedAllFixpoint(s[1..]);
      StripAllStep(s);
    }
  }

  /** One step of the statement-list walk: a head kept as it is in front of
      an already stripped tail leaves the list unchanged. */
  lemma StripAllStep(s: seq<Node>)
    requires s != [] && Strip(s[0]) == Success(Some(s[0]))
    requires StripAll(s[1..]) == Success(s[1..])
    ensures StripAll(s) == Success(s)
  {
    assert [s[0]] + s[1..] == s;
  }

  lemma {:induction false} ErasedBindingFixpoint(b: BindingName)
    requires ErasedBinding(b)
    ensures StripBinding(b) == Success(b)
    decreases b, 1
  {
    if b.BindingPattern? {
      ErasedAllFixpoint(b.elements);
    }
  }

  lemma {:induction false} ErasedSpansFixpoint(spans: seq<TemplateSpan>)
    requires forall i :: 0 <= i < |spans| ==> ErasedOpt(spans[i].expression)
    ensures StripSpans(spans) == Success(spans)
    decreases spans, 1
  {
    if spans != [] {
      ErasedOptFixpoint(spans[0].expression);
      ErasedSpansFixpoint(spans[1..]);
      assert [spans[0]] + spans[1..] == spans;
    }
  }

  lemma {:induction false} ErasedParametersFixpoint(ps: seq<Parameter>)
    requires forall i :: 0 <= i < |ps| ==> ErasedParameter(ps[i])
    ensures StripParameters(ps) == Success(ps)
    decreases ps, 1
  {
    if ps != [] {
      ErasedBindingFixpoint(ps[0].name);
      ErasedOptFixpoint(ps[0].initializer);
      ErasedParametersFixpoint(ps[1..]);
      assert StripParameter(ps[0]) == Success(Some(ps[0]));
      assert [ps[0]] + ps[1..] == ps;
    }
  }

  lemma {:induction false} ErasedClausesFixpoint(hs: seq<HeritageClause>)
    requires forall i :: 0 <= i < |hs| ==> ErasedClause(hs[i])
    ensures StripHeritageClauses(hs) == Success(hs)
    decreases hs, 1
  {
    if hs != [] {
      var h, rest := hs[0], hs[1..];
      ErasedAllFixpoint(h.types);
      ErasedClausesFixpoint(rest);
      StripClausesCons(h, rest);
      assert hs == [HeritageClause(h.token, h.types)] + rest;
    }
  }

  /** One step of the heritage-clause walk: an `extends` clause in front of
      other clauses is kept, with its own stripped types, ahead of theirs. */
  lemma StripClausesCons(h: HeritageClause, rest: seq<HeritageClause>)
    requires h.token == ExtendsKeyword
    ensures StripAll(h.types).Success? && StripHeritageClauses(rest).Success? ==>
              StripHeritageClauses([h] + rest)
                == Success([HeritageClause(h.token, StripAll(h.types).value)] + StripHeritageClauses(rest).value)
  {
    assert ([h] + rest)[0] == h && ([h] + rest)[1..] == rest;
  }

  // ---------------------------------------------------------------------------
  // Whatever Strip returns is erased.
  // ---------------------------------------------------------------------------

  lemma StripModifiersAccepted(mods: seq<Modifier>)
    requires StripModifiers(mods).Success?
    ensures AcceptedModifiers(StripModifiers(mods).value)
  {
    var kept := StripModifiers(mods).value;
    forall i | 0 <= i < |kept|
      ensures KindOf(kept[i]) !in RejectedModifiers && KindOf(kept[i]) !in ErasedModifiers
    {
      assert kept[i] in mods;
    }
  }

  lemma {:induction false} StripIsErased(n: Node, m: Node)
    requires Strip(n) == Success(Some(m))
    ensures Erased(m)
    decreases n, 2
  {
    match n
    case Identifier(_) =>
    case Other(kind, children) =>
      StripAllIsErased(children);
    case ExportDeclaration(_, _, _, _) =>
      StripExportDeclarationIsErased(n);
    case ImportDeclaration(_, _, _) =>
      StripImportDeclarationIsErased(n);
    case VariableStatement(mods, list) =>
      StripModifiersAccepted(mods);
      StripOptIsErased(list);
    case VariableDeclaration(binding, _, _, init) =>
      StripBindingIsErased(binding);
      StripOptIsErased(init);
    case ExpressionWithTypeArguments(e, _) =>
      StripOptIsErased(e);
    case Assertion(_, e, _) =>
      StripOptIsErased(e);
    case Call(_, _, _, _) =>
      StripExpressionIsErased(n, m);
    case New(_, _, _) =>
      StripExpressionIsErased(n, m);
    case TaggedTemplate(_, _, _) =>
      StripExpressionIsErased(n, m);
    case TemplateExpression(t) =>
      StripSpansIsErased(t.spans);
    case FunctionLike(_, _, _, _, _, _, _, _, _) =>
      StripFunctionLikeIsErased(n, m);
    case ArrowFunction(_, _, _, _, _) =>
      StripArrowFunctionIsErased(n, m);
    case Property(_, _, _, _, _) =>
      StripPropertyIsErased(n, m);
    case ClassLike(_, _, _, _, _, _) =>
      StripClassLikeIsErased(n, m);
  }

  lemma {:induction false} StripExpressionIsErased(n: Node, m: Node)
    requires n.Call? || n.New? || n.TaggedTemplate?
    requires Strip(n) == Success(Some(m))
    ensures Erased(m)
    decreases n, 1
  {
    if n.TaggedTemplate? {
      StripOptIsErased(n.tag);
      StripSpansIsErased(n.template.spans);
    } else {
      StripOptIsErased(n.expression);
      StripAllIsErased(n.arguments);
    }
  }

  lemma StripExportDeclarationIsErased(n: Node)
    requires n.ExportDeclaration? && StripExportDeclaration(n).Some?
    ensures Erased(StripExportDeclaration(n).value)
  {
  }

  lemma StripImportDeclarationIsErased(n: Node)
    requires n.ImportDeclaration? && StripImportDeclaration(n).Some?
    ensures Erased(StripImportDeclaration(n).value)
  {
  }

  lemma {:induction false} StripFunctionLikeIsErased(n: Node, m: Node)
    requires n.FunctionLike? && StripFunctionLike(n) == Success(Some(m))
    ensures Erased(m)
    decreases n, 1
  {
    StripParametersIsErased(n.parameters);
    StripModifiersAccepted(n.modifiers);
    var parameters := StripParameters(n.parameters).value;
    var modifiers := StripModifiers(n.modifiers).value;
    if StripOptBlock(n.body).Success? {
      StripOptBlockIsErased(n.body);
    }
    var body := StripOptBlock(n.body).value;
    match n.functionKind {
      case FunctionDeclaration =>
        assert m == FunctionLike(FunctionDeclaration, modifiers, n.asterisk, n.name, false, [], parameters, None, body);
      case FunctionExpression =>
        assert m == FunctionLike(FunctionExpression, modifiers, n.asterisk, n.name, false, [], parameters, None, body);
      case Constructor =>
        assert m == FunctionLike(Constructor, modifiers, n.asterisk, n.name, false, [], parameters, None, body);
      case MethodDeclaration =>
        StripOptIsErased(n.name);
        assert m == FunctionLike(MethodDeclaration, modifiers, n.asterisk, StripOpt(n.name).value, false, [], parameters, None, body);
      case GetAccessor =>
        StripOptIsErased(n.name);
        assert m == FunctionLike(GetAccessor, modifiers, n.asterisk, StripOpt(n.name).value, false, [], parameters, None, body);
      case SetAccessor =>
        StripOptIsErased(n.name);
        assert m == FunctionLike(SetAccessor, modifiers, n.asterisk, StripOpt(n.name).value, false, [], parameters, None, body);
    }
  }

  lemma {:induction false} StripArrowFunctionIsErased(n: Node, m: Node)
    requires n.ArrowFunction? && StripArrowFunction(n) == Success(Some(m))
    ensures Erased(m)
    decreases n, 1
  {
    StripParametersIsErased(n.parameters);
    StripModifiersAccepted(n.modifiers);
    StripOptIsErased(n.conciseBody);
  }

  lemma {:induction false} StripPropertyIsErased(n: Node, m: Node)
    requires n.Property? && StripProperty(n) == Success(Some(m))
    ensures Erased(m)
    decreases n, 1
  {
    StripModifiersAccepted(n.modifiers);
    StripOptIsErased(n.name);
    StripOptIsErased(n.initializer);
  }

  lemma {:induction false} StripClassLikeIsErased(n: Node, m: Node)
    requires n.ClassLike? && StripClassLike(n) == Success(Some(m))
    ensures Erased(m)
    decreases n, 1
  {
    StripModifiersAccepted(n.modifiers);
    StripAllIsErased(n.members);
    var stripped := StripAll(n.members).value;
    var kept := m.members;
    forall i | 0 <= i < |kept| ensures Erased(kept[i]) {
      assert kept[i] in stripped;
    }
    StripClausesAreErased(n.heritageClauses);
  }

  lemma {:induction false} StripOptIsErased(o: Option<Node>)
    requires StripOpt(o).Success?
    ensures ErasedOpt(StripOpt(o).value)
    decreases o, 1
  {
    if o.Some? && Strip(o.value).value.Some? {
      StripIsErased(o.value, Strip(o.value).value.value);
    }
  }

  lemma {:induction false} StripAllIsErased(s: seq<Node>)
    requires StripAll(s).Success?
    ensures forall i :: 0 <= i < |StripAll(s).value| ==> Erased(StripAll(s).value[i])
    decreases s, 1
  {
    if s != [] {
      var head := Strip(s[0]).value;
      if head.Some? {
        StripIsErased(s[0], head.value);
      }
      StripAllIsErased(s[1..]);
    }
  }

  lemma {:induction false} StripOptBlockIsErased(b: Option<Block>)
    requires StripOptBlock(b).Success?
    ensures StripOptBlock(b).value.Some? ==> ErasedBlock(StripOptBlock(b).value.value)
    decreases b, 1
  {
    if b.Some? {
      StripAllIsErased(b.value.statements);
      assert StripOptBlock(b).value.value.statements == StripAll(b.value.statements).value;
    }
  }

  lemma {:induction false} StripBindingIsErased(b: BindingName)
    requires StripBinding(b).Success?
    ensures ErasedBinding(StripBinding(b).value)
    decreases b, 1
  {
    if b.BindingPattern? {
      StripAllIsErased(b.elements);
    }
  }

  lemma {:induction false} StripSpansIsErased(spans: seq<TemplateSpan>)
    requires StripSpans(spans).Success?
    ensures forall i :: 0 <= i < |spans| ==> ErasedOpt(StripSpans(spans).value[i].expression)
    decreases spans, 1
  {
    if spans != [] {
      StripOptIsErased(spans[0].expression);
      StripSpansIsErased(spans[1..]);
    }
  }

  lemma {:induction false} StripParametersIsErased(ps: seq<Parameter>)
    requires StripParameters(ps).Success?
    ensures forall i :: 0 <= i < |StripParameters(ps).value| ==> ErasedParameter(StripParameters(ps).value[i])
    decreases ps, 1
  {
    if ps != [] {
      var head := StripParameter(ps[0]).value;
      if head.Some? {
        StripBindingIsErased(ps[0].name);
        StripOptIsErased(ps[0].initializer);
        assert ErasedParameter(head.value);
      }
      StripParametersIsErased(ps[1..]);
    }
  }

  lemma {:induction false} StripClausesAreErased(hs: seq<HeritageClause>)
    requires StripHeritageClauses(hs).Success?
    ensures forall i :: 0 <= i < |StripHeritageClauses(hs).value| ==> ErasedClause(StripHeritageClauses(hs).value[i])
    decreases hs, 1
  {
    if hs != [] {
      if hs[0].token != ImplementsKeyword {
        StripAllIsErased(hs[0].types);
      }
      StripClausesAreErased(hs[1..]);
    }
  }

  // ---------------------------------------------------------------------------
  // Consequences.
  // ---------------------------------------------------------------------------

  /** Stripping an already stripped tree changes nothing and raises nothing. */
  lemma StripIdempotent(n: Node, m: Node)
    requires Strip(n) == Success(Some(m))
    ensures Strip(m) == Success(Some(m))
  {
    StripIsErased(n, m);
    ErasedIsFixpoint(m);
  }

  /** The trees Strip leaves untouched are exactly the erased ones. */
  lemma FixpointIffErased(n: Node)
    ensures Strip(n) == Success(Some(n)) <==> Erased(n)
  {
    if Strip(n) == Success(Some(n)) {
      StripIsErased(n, n);
    }
    if Erased(n) {
      ErasedIsFixpoint(n);
    }
  }

  // ---------------------------------------------------------------------------
  // Order of visits and precedence of errors.
  // ---------------------------------------------------------------------------

  /** A child list strips without error exactly when every child does. */
  lemma {:induction false} StripAllSucceedsIffEach(s: seq<Node>)
    ensures StripAll(s).Success? <==> forall i :: 0 <= i < |s| ==> Strip(s[i]).Success?
    decreases s
  {
    if s != [] {
      StripAllSucceedsIffEach(s[1..]);
      assert forall i :: 1 <= i < |s| ==> s[i] == s[1..][i - 1];
    }
  }

  /** Children are visited left to right: the first child that raises decides the error. */
  lemma {:induction false} StripAllFirstFailure(s: seq<Node>, i: nat)
    requires i < |s| && Strip(s[i]).Failure?
    requires forall j :: 0 <= j < i ==> Strip(s[j]).Success?
    ensures StripAll(s) == Failure(Strip(s[i]).error)
    decreases i
  {
    if i > 0 {
      var rest := s[1..];
      assert forall j :: 0 <= j < i - 1 ==> rest[j] == s[j + 1];
      StripAllFirstFailure(rest, i - 1);
      assert rest[i - 1] == s[i] && Strip(s[0]).Success?;
    }
  }

  /** Visiting a list is visiting its parts: the survivors keep their order,
      and an error in the first part hides everything after it. */
  lemma {:induction false} StripAllConcat(a: seq<Node>, b: seq<Node>)
    ensures StripAll(a).Failure? ==> StripAll(a + b) == Failure(StripAll(a).error)
    ensures StripAll(a).Success? ==>
              (StripAll(a + b).Success? <==> StripAll(b).Success?) &&
              (StripAll(b).Success? ==> StripAll(a + b).value == StripAll(a).value + StripAll(b).value)
    decreases a
  {
    if a == [] {
      assert a + b == b;
    } else {
      var ab := a + b;
      assert ab[0] == a[0] && ab[1..] == a[1..] + b;
      StripAllConcat(a[1..], b);
      StripAllCons(a);
      StripAllCons(ab);
      ConsConcat(Strip(a[0]), StripAll(a[1..]), StripAll(a[1..] + b), StripAll(b));
    }
  }

  /** One step of the walk over a child list: the head's result, then the tail's. */
  function ConsResult(head: Stripped, tail: Result<seq<Node>, Errors.ErrorCode>): Result<seq<Node>, Errors.ErrorCode>
  {
    if head.Failure? then Failure(head.error)
    else if tail.Failure? then Failure(tail.error)
    else Success(if head.value.Some? then [head.value.value] + tail.value else tail.value)
  }

  lemma StripAllCons(s: seq<Node>)
    requires s != []
    ensures StripAll(s) == ConsResult(Strip(s[0]), StripAll(s[1..]))
  {
  }

  /** Putting the same head in front of two walks keeps the relation
      between a walk of `a`, a walk of `a + b` and a walk of `b`. */
  lemma ConsConcat(head: Stripped, restA: Result<seq<Node>, Errors.ErrorCode>,
                   restAB: Result<seq<Node>, Errors.ErrorCode>, restB: Result<seq<Node>, Errors.ErrorCode>)
    requires restA.Failure? ==> restAB == Failure(restA.error)
    requires restA.Success? ==>
               (restAB.Success? <==> restB.Success?) &&
               (restB.Success? ==> restAB.value == restA.value + restB.value)
    ensures ConsResult(head, restA).Failure? ==> ConsResult(head, restAB) == Failure(ConsResult(head, restA).error)
    ensures ConsResult(head, restA).Success? ==>
              (ConsResult(head, restAB).Success? <==> restB.Success?) &&
              (restB.Success? ==> ConsResult(head, restAB).value == ConsResult(head, restA).value + restB.value)
  {
    if head.Success? && head.value.Some? && restA.Success? && restB.Success? {
      assert [head.value.value] + (restA.value + restB.value) == ([head.value.value] + restA.value) + restB.value;
    }
  }

  /** Visiting a member list is visiting its parts in turn: an error in the
      first part hides the second, and the surviving members keep their order. */
  lemma StripMembersConcat(a: seq<Node>, b: seq<Node>)
    ensures StripMembers(a).Failure? ==> StripMembers(a + b) == Failure(StripMembers(a).error)
    ensures StripMembers(a).Success? ==> (StripMembers(a + b).Success? <==> StripMembers(b).Success?)
    ensures StripMembers(a).Success? && StripMembers(b).Success? ==>
              StripMembers(a + b).value == StripMembers(a).value + StripMembers(b).value
  {
    StripAllConcat(a, b);
    if StripAll(a).Success? && StripAll(b).Success? {
      FilterConcat(IsNotIndexSignature, StripAll(a).value, StripAll(b).value);
    }
  }

  /** A single member survives exactly when it strips to a node that is not
      an index signature, and then it survives as that node. */
  lemma StripMembersSingle(m: Node)
    ensures Strip(m).Failure? ==> StripMembers([m]) == Failure(Strip(m).error)
    ensures Strip(m).Success? ==>
              StripMembers([m]) ==
              Success(if Strip(m).value.Some? && IsNotIndexSignature(Strip(m).value.value)
                      then [Strip(m).value.value] else [])
  {
    assert [m][0] == m && [m][1..] == [];
    assert StripAll([]) == Success([]);
    if Strip(m).Success? {
      var kept: seq<Node> := if Strip(m).value.Some? then [Strip(m).value.value] else [];
      assert kept + [] == kept;
      assert StripAll([m]) == Success(kept);
      if kept != [] {
        assert kept[1..] == [];
      }
    }
  }

  /** The clauses a successful heritage walk returns are the `extends`
      clauses of its input, in order, each holding its own stripped types. */
  lemma StripHeritageClausesTypes(hs: seq<HeritageClause>)
    requires StripHeritageClauses(hs).Success?
    ensures |StripHeritageClauses(hs).value| == |Filter(IsExtendsClause, hs)|
    ensures forall i :: 0 <= i < |StripHeritageClauses(hs).value| ==>
              && StripHeritageClauses(hs).value[i].token == Filter(IsExtendsClause, hs)[i].token
              && StripAll(Filter(IsExtendsClause, hs)[i].types) == Success(StripHeritageClauses(hs).value[i].types)
  {
    var out := StripHeritageClauses(hs).value;
    forall i | 0 <= i < |out|
      ensures ClauseStripped(Filter(IsExtendsClause, hs)[i], out[i])
    {
      StrippedClauseAt(hs, out, i);
    }
  }

  /** The clause at place `i` of a pairing comes from the `i`-th `extends` clause. */
  lemma {:induction false} StrippedClauseAt(src: seq<HeritageClause>, out: seq<HeritageClause>, i: nat)
    requires StrippedClauses(src, out) && i < |out|
    ensures i < |Filter(IsExtendsClause, src)| && ClauseStripped(Filter(IsExtendsClause, src)[i], out[i])
    decreases src
  {
    var later := Filter(IsExtendsClause, src[1..]);
    if src[0].token == ImplementsKeyword {
      assert Filter(IsExtendsClause, src) == later;
      StrippedClauseAt(src[1..], out, i);
    } else {
      var all := [src[0]] + later;
      assert Filter(IsExtendsClause, src) == all;
      if i == 0 {
        assert all[0] == src[0];
      } else {
        StrippedClauseAt(src[1..], out[1..], i - 1);
        assert all[i] == later[i - 1] && out[1..][i - 1] == out[i];
      }
    }
  }

  /** A parameter list strips without error exactly when every parameter does. */
  lemma {:induction false} StripParametersSucceedsIffEach(ps: seq<Parameter>)
    ensures StripParameters(ps).Success? <==> forall i :: 0 <= i < |ps| ==> StripParameter(ps[i]).Success?
    decreases ps
  {
    if ps != [] {
      StripParametersSucceedsIffEach(ps[1..]);
      assert forall i :: 1 <= i < |ps| ==> ps[i] == ps[1..][i - 1];
    }
  }

  /** Template spans are visited left to right: the first span whose
      expression raises decides the error. */
  lemma {:induction false} StripSpansFirstFailure(spans: seq<TemplateSpan>, i: nat)
    requires i < |spans| && StripOpt(spans[i].expression).Failure?
    requires forall j :: 0 <= j < i ==> StripOpt(spans[j].expression).Success?
    ensures StripSpans(spans) == Failure(StripOpt(spans[i].expression).error)
    decreases i
  {
    if i > 0 {
      var rest := spans[1..];
      assert forall j :: 0 <= j < i - 1 ==> rest[j] == spans[j + 1];
      StripSpansFirstFailure(rest, i - 1);
      assert rest[i - 1] == spans[i] && StripOpt(spans[0].expression).Success?;
    }
  }

  /** Heritage clauses are visited left to right: the first `extends`
      clause whose types raise decides the error; `implements` clauses are
      never visited. */
  lemma {:induction false} StripHeritageClausesFirstFailure(hs: seq<HeritageClause>, i: nat)
    requires i < |hs| && IsExtendsClause(hs[i]) && StripAll(hs[i].types).Failure?
    requires forall j :: 0 <= j < i && IsExtendsClause(hs[j]) ==> StripAll(hs[j].types).Success?
    ensures StripHeritageClauses(hs) == Failure(StripAll(hs[i].types).error)
    decreases i
  {
    if i > 0 {
      var rest := hs[1..];
      assert forall j :: 0 <= j < i - 1 ==> rest[j] == hs[j + 1];
      StripHeritageClausesFirstFailure(rest, i - 1);
      assert rest[i - 1] == hs[i];
      if IsExtendsClause(hs[0]) {
        assert StripAll(hs[0].types).Success?;
      }
    }
  }

  /** Parameters are visited left to right: the first one that raises decides the error. */
  lemma {:induction false} StripParametersFirstFailure(ps: seq<Parameter>, i: nat)
    requires i < |ps| && StripParameter(ps[i]).Failure?
    requires forall j :: 0 <= j < i ==> StripParameter(ps[j]).Success?
    ensures StripParameters(ps) == Failure(StripParameter(ps[i]).error)
    decreases i
  {
    if i > 0 {
      assert forall j :: 0 <= j < i - 1 ==> ps[1..][j] == ps[j + 1];
      StripParametersFirstFailure(ps[1..], i - 1);
    }
  }

  /** A parameter property is reported before anything about the function
      itself: its modifiers (`declare`), a missing body (overload) or its body. */
  lemma ParameterPropertyFirst(n: Node, i: nat)
    requires n.FunctionLike? && i < |n.parameters|
    requires HasModifier(n.parameters[i].modifiers, ParameterPropertyModifiers)
    requires forall j :: 0 <= j < i ==> StripParameter(n.parameters[j]).Success?
    ensures Strip(n) == Failure(Errors.ParameterProperty)
  {
    StripParametersFirstFailure(n.parameters, i);
  }

  /** A class reports a rejected modifier before its members, the first
      member that raises before any later one, and its members before its
      heritage clauses. */
  lemma ClassErrorOrder(n: Node, i: nat)
    requires n.ClassLike? && i < |n.members| && Strip(n.members[i]).Failure?
    requires forall j :: 0 <= j < i ==> Strip(n.members[j]).Success?
    ensures StripModifiers(n.modifiers).Failure? ==> Strip(n) == Failure(StripModifiers(n.modifiers).error)
    ensures StripModifiers(n.modifiers).Success? ==> Strip(n) == Failure(Strip(n.members[i]).error)
  {
    StripAllFirstFailure(n.members, i);
  }
}
