/** Which trees the index.ts transform accepts, described without running
    it: the partner of the transform's reject side. A tree is rejected
    exactly when some position the visitor reaches holds a construct with
    runtime meaning; type annotations, type arguments and type parameters
    are never visited, so they play no part. */
module Acceptance {
  import opened Wrappers
  import opened Syntax
  import opened Erasure
  import opened ErasureProperties
  import Errors

  /** The kinds the dispatch refuses outright. */
  predicate RejectedKind(kind: OtherKind)
  {
    kind == EnumDeclaration || kind == ModuleDeclaration || kind == JsxElement || kind == TypeAssertion
  }

  /** A modifier list `visitModifiers` lets through. */
  predicate AcceptedModifierList(mods: seq<Modifier>)
  {
    !HasModifier(mods, RejectedModifiers)
  }

  /** Nothing the visitor reaches in `n` is refused. */
  predicate Accepted(n: Node)
    decreases n, 1
  {
    match n
    case Identifier(_) => true
    case ExportDeclaration(_, _, _, _) => true
    case ImportDeclaration(_, _, _) => true
    case Other(kind, children) =>
      && !RejectedKind(kind)
      && (kind.IndexSignature? || kind.Unlisted? ==> forall i :: 0 <= i < |children| ==> Accepted(children[i]))
    case VariableStatement(mods, list) =>
      AcceptedModifierList(mods) && AcceptedOpt(list)
    case VariableDeclaration(binding, _, _, init) =>
      AcceptedBinding(binding) && AcceptedOpt(init)
    case ExpressionWithTypeArguments(e, _) =>
      AcceptedOpt(e)
    case Assertion(_, e, _) =>
      AcceptedOpt(e)
    case Call(e, _, _, args) =>
      AcceptedOpt(e) && forall i :: 0 <= i < |args| ==> Accepted(args[i])
    case New(e, _, args) =>
      AcceptedOpt(e) && forall i :: 0 <= i < |args| ==> Accepted(args[i])
    case TaggedTemplate(tag, _, t) =>
      AcceptedOpt(tag) && AcceptedTemplate(t)
    case TemplateExpression(t) =>
      AcceptedTemplate(t)
    case FunctionLike(kind, mods, _, name, _, _, ps, _, body) =>
      // An abstract method is dropped after its parameters are visited;
      // every other function-like must also pass its modifiers, have a body
      // when it is a declaration or a method, and have an accepted name (for
      // methods and accessors) and body.
      && (forall i :: 0 <= i < |ps| ==> AcceptedParameter(ps[i]))
      && (|| (kind == MethodDeclaration && HasModifier(mods, {KeywordKind(AbstractKeyword)}))
          || (&& AcceptedModifierList(mods)
              && (kind == FunctionDeclaration || kind == MethodDeclaration ==> body.Some?)
              && (kind == MethodDeclaration || kind == GetAccessor || kind == SetAccessor ==> AcceptedOpt(name))
              && (body.Some? ==> AcceptedBlock(body.value))))
    case ArrowFunction(mods, _, ps, _, body) =>
      && AcceptedModifierList(mods)
      && (forall i :: 0 <= i < |ps| ==> AcceptedParameter(ps[i]))
      && AcceptedOpt(body)
    case Property(mods, name, _, _, init) =>
      AcceptedModifierList(mods) && AcceptedOpt(name) && AcceptedOpt(init)
    case ClassLike(_, mods, _, _, clauses, members) =>
      && AcceptedModifierList(mods)
      && (forall i :: 0 <= i < |members| ==> Accepted(members[i]))
      && (forall i :: 0 <= i < |clauses| ==> AcceptedClause(clauses[i]))
  }

  predicate AcceptedOpt(o: Option<Node>)
    decreases o, 2
  {
    o.Some? ==> Accepted(o.value)
  }

  predicate AcceptedBinding(b: BindingName)
    decreases b, 2
  {
    b.BindingPattern? ==> forall i :: 0 <= i < |b.elements| ==> Accepted(b.elements[i])
  }

  /** A parameter property is refused; a `this` parameter is dropped unvisited. */
  predicate AcceptedParameter(p: Parameter)
    decreases p, 2
  {
    && !HasModifier(p.modifiers, ParameterPropertyModifiers)
    && (p.name != BindingIdentifier("this") ==> AcceptedBinding(p.name) && AcceptedOpt(p.initializer))
  }

  predicate AcceptedBlock(b: Block)
    decreases b, 2
  {
    forall i :: 0 <= i < |b.statements| ==> Accepted(b.statements[i])
  }

  predicate AcceptedTemplate(t: Template)
    decreases t, 2
  {
    forall i :: 0 <= i < |t.spans| ==> AcceptedOpt(t.spans[i].expression)
  }

  /** `implements` clauses are dropped unvisited. */
  predicate AcceptedClause(h: HeritageClause)
    decreases h, 2
  {
    h.token == ExtendsKeyword ==> forall j :: 0 <= j < |h.types| ==> Accepted(h.types[j])
  }

  // ---------------------------------------------------------------------------
  // The transform succeeds exactly on the accepted trees.
  // ---------------------------------------------------------------------------

  lemma {:induction false} StripSucceedsIffAccepted(n: Node)
    ensures Strip(n).Success? <==> Accepted(n)
    decreases n, 2
  {
    match n
    case Identifier(_) =>
    case ExportDeclaration(_, _, _, _) =>
    case ImportDeclaration(_, _, _) =>
    case Other(kind, children) =>
      if kind.IndexSignature? || kind.Unlisted? {
        StripAllIff(children);
      }
    case VariableStatement(_, _) =>
      StripVariableIff(n);
    case VariableDeclaration(_, _, _, _) =>
      StripVariableIff(n);
    case ExpressionWithTypeArguments(_, _) =>
      StripExpressionIff(n);
    case Assertion(_, _, _) =>
      StripExpressionIff(n);
    case Call(_, _, _, _) =>
      StripCallIff(n);
    case New(_, _, _) =>
      StripCallIff(n);
    case TaggedTemplate(_, _, _) =>
      StripExpressionIff(n);
    case TemplateExpression(_) =>
      StripExpressionIff(n);
    case FunctionLike(_, _, _, _, _, _, _, _, _) =>
      StripFunctionLikeIff(n);
    case ArrowFunction(_, _, _, _, _) =>
      StripArrowFunctionIff(n);
    case Property(_, _, _, _, _) =>
      StripPropertyIff(n);
    case ClassLike(_, _, _, _, _, _) =>
      StripClassLikeIff(n);
  }

  lemma {:induction false} StripVariableIff(n: Node)
    requires n.VariableStatement? || n.VariableDeclaration?
    ensures Strip(n).Success? <==> Accepted(n)
    decreases n, 1
  {
    if n.VariableStatement? {
      StripOptIff(n.declarationList);
    } else {
      StripBindingIff(n.binding);
      StripOptIff(n.initializer);
    }
  }

  lemma {:induction false} StripExpressionIff(n: Node)
    requires n.ExpressionWithTypeArguments? || n.Assertion? || n.TaggedTemplate? || n.TemplateExpression?
    ensures Strip(n).Success? <==> Accepted(n)
    decreases n, 1
  {
    match n
    case ExpressionWithTypeArguments(e, _) =>
      StripOptIff(e);
    case Assertion(_, e, _) =>
      StripOptIff(e);
    case TaggedTemplate(tag, _, t) =>
      StripOptIff(tag);
      StripSpansIff(t.spans);
    case TemplateExpression(t) =>
      StripSpansIff(t.spans);
  }

  lemma {:induction false} StripCallIff(n: Node)
    requires n.Call? || n.New?
    ensures Strip(n).Success? <==> Accepted(n)
    decreases n, 1
  {
    StripOptIff(n.expression);
    StripAllIff(n.arguments);
  }

  lemma {:induction false} StripArrowFunctionIff(n: Node)
    requires n.ArrowFunction?
    ensures Strip(n).Success? <==> Accepted(n)
    decreases n, 1
  {
    StripParametersIff(n.parameters);
    StripOptIff(n.conciseBody);
  }

  lemma {:induction false} StripPropertyIff(n: Node)
    requires n.Property?
    ensures Strip(n).Success? <==> Accepted(n)
    decreases n, 1
  {
    StripOptIff(n.name);
    StripOptIff(n.initializer);
  }

  lemma {:induction false} StripClassLikeIff(n: Node)
    requires n.ClassLike?
    ensures Strip(n).Success? <==> Accepted(n)
    decreases n, 1
  {
    StripClassLikeParts(n);
    AcceptedClassLikeParts(n);
    StripAllIff(n.members);
    StripClausesIff(n.heritageClauses);
  }

  lemma AcceptedClassLikeParts(n: Node)
    requires n.ClassLike?
    ensures Accepted(n) <==>
              && AcceptedModifierList(n.modifiers)
              && (forall i :: 0 <= i < |n.members| ==> Accepted(n.members[i]))
              && (forall i :: 0 <= i < |n.heritageClauses| ==> AcceptedClause(n.heritageClauses[i]))
  {
  }

  /** A class strips exactly when its modifiers, members and clauses do. */
  lemma StripClassLikeParts(n: Node)
    requires n.ClassLike?
    ensures Strip(n).Success? <==>
              && AcceptedModifierList(n.modifiers)
              && StripAll(n.members).Success?
              && StripHeritageClauses(n.heritageClauses).Success?
  {
    assert Strip(n) == StripClassLike(n);
  }

  lemma {:induction false} StripFunctionLikeIff(n: Node)
    requires n.FunctionLike?
    ensures Strip(n).Success? <==> Accepted(n)
    decreases n, 1
  {
    StripFunctionLikeParts(n);
    StripParametersIff(n.parameters);
    StripOptIff(n.name);
    if n.body.Some? {
      StripAllIff(n.body.value.statements);
    }
  }

  /** A function-like strips exactly when its parameters do and, unless it
      is an abstract method, its modifiers, body and (for methods and
      accessors) name do. */
  lemma StripFunctionLikeParts(n: Node)
    requires n.FunctionLike?
    ensures Strip(n).Success? <==>
              && StripParameters(n.parameters).Success?
              && (|| (n.functionKind == MethodDeclaration && HasModifier(n.modifiers, {KeywordKind(AbstractKeyword)}))
                  || (&& AcceptedModifierList(n.modifiers)
                      && (n.functionKind == FunctionDeclaration || n.functionKind == MethodDeclaration ==> n.body.Some?)
                      && (n.functionKind == MethodDeclaration || n.functionKind == GetAccessor || n.functionKind == SetAccessor ==>
                            StripOpt(n.name).Success?)
                      && (n.body.Some? ==> StripAll(n.body.value.statements).Success?)))
  {
    assert Strip(n) == StripFunctionLike(n);
  }

  lemma {:induction false} StripOptIff(o: Option<Node>)
    ensures StripOpt(o).Success? <==> AcceptedOpt(o)
    decreases o, 1
  {
    if o.Some? {
      StripSucceedsIffAccepted(o.value);
    }
  }

  lemma {:induction false} StripAllIff(s: seq<Node>)
    ensures StripAll(s).Success? <==> forall i :: 0 <= i < |s| ==> Accepted(s[i])
    decreases s, 1
  {
    StripAllSucceedsIffEach(s);
    forall i | 0 <= i < |s|
      ensures Strip(s[i]).Success? <==> Accepted(s[i])
    {
      StripSucceedsIffAccepted(s[i]);
    }
  }

  lemma {:induction false} StripBindingIff(b: BindingName)
    ensures StripBinding(b).Success? <==> AcceptedBinding(b)
    decreases b, 1
  {
    if b.BindingPattern? {
      StripAllIff(b.elements);
    }
  }

  lemma {:induction false} StripSpansIff(spans: seq<TemplateSpan>)
    ensures StripSpans(spans).Success? <==> forall i :: 0 <= i < |spans| ==> AcceptedOpt(spans[i].expression)
    decreases spans, 1
  {
    forall i | 0 <= i < |spans|
      ensures StripOpt(spans[i].expression).Success? <==> AcceptedOpt(spans[i].expression)
    {
      StripOptIff(spans[i].expression);
    }
  }

  lemma {:induction false} StripParameterIff(p: Parameter)
    ensures StripParameter(p).Success? <==> AcceptedParameter(p)
    decreases p, 1
  {
    StripBindingIff(p.name);
    StripOptIff(p.initializer);
  }

  lemma {:induction false} StripParametersIff(ps: seq<Parameter>)
    ensures StripParameters(ps).Success? <==> forall i :: 0 <= i < |ps| ==> AcceptedParameter(ps[i])
    decreases ps, 1
  {
    StripParametersSucceedsIffEach(ps);
    forall i | 0 <= i < |ps|
      ensures StripParameter(ps[i]).Success? <==> AcceptedParameter(ps[i])
    {
      StripParameterIff(ps[i]);
    }
  }

  lemma {:induction false} StripClausesIff(hs: seq<HeritageClause>)
    ensures StripHeritageClauses(hs).Success? <==> forall i :: 0 <= i < |hs| ==> AcceptedClause(hs[i])
    decreases hs, 1
  {
    forall i | 0 <= i < |hs|
      ensures (IsExtendsClause(hs[i]) ==> StripAll(hs[i].types).Success?) <==> AcceptedClause(hs[i])
    {
      StripAllIff(hs[i].types);
    }
  }
}
