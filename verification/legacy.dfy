/** The earlier, partial transform of typestrip.ts. It never raises: it
    drops the type of variable declarations and, on function declarations
    only, the type parameters, the return type and the type (with the `?`)
    of each typed parameter. Every other node has its children visited
    (`ts.visitEachChild`). A variable declaration or a function-like node is
    returned without visiting its children, so its initializer, body and
    default values keep whatever types they hold. */
module LegacyStrip {
  import opened Wrappers
  import opened Syntax

  /** `visitor`. */
  function Visit(n: Node): (r: Node)
    decreases n, 2
    ensures SameKind(n, r)
    ensures n.VariableDeclaration? ==>
              r.binding == n.binding && r.exclamationToken == n.exclamationToken &&
              r.initializer == n.initializer && r.typeAnnotation.None?
    ensures n.FunctionLike? && n.functionKind != FunctionDeclaration ==> r == n
    ensures n.FunctionLike? && n.functionKind == FunctionDeclaration ==>
              r.functionKind == FunctionDeclaration && r.modifiers == n.modifiers && r.name == n.name &&
              r.body == n.body && r.typeParameters == [] && r.typeAnnotation.None? &&
              |r.parameters| == |n.parameters|
    ensures n.ArrowFunction? ==> r == n
    ensures !n.VariableDeclaration? && !n.FunctionLike? && !n.ArrowFunction? ==> r == VisitEachChild(n)
  {
    match n
    case VariableDeclaration(_, _, _, _) => VisitVariableDeclaration(n)
    case FunctionLike(_, _, _, _, _, _, _, _, _) => VisitFunctionDeclaration(n)
    case ArrowFunction(_, _, _, _, _) => n
    case _ => VisitEachChild(n)
  }

  /** `visitVariableDeclaration`: the type goes, everything else is kept
      (a declaration without a type is returned as it is). */
  function VisitVariableDeclaration(n: Node): (r: Node)
    requires n.VariableDeclaration?
    ensures r.VariableDeclaration? && r.typeAnnotation.None?
    ensures r.binding == n.binding && r.exclamationToken == n.exclamationToken && r.initializer == n.initializer
    ensures n.typeAnnotation.None? ==> r == n
  {
    if n.typeAnnotation.Some? then VariableDeclaration(n.binding, n.exclamationToken, None, n.initializer) else n
  }

  /** `visitParameter`: a typed parameter loses its type and its `?`; an
      untyped one is returned as it is, `?` included. */
  function VisitParameter(p: Parameter): (r: Parameter)
    ensures r.typeAnnotation.None?
    ensures r.modifiers == p.modifiers && r.dotDotDot == p.dotDotDot && r.name == p.name && r.initializer == p.initializer
    ensures r.questionToken == (p.questionToken && p.typeAnnotation.None?)
    ensures p.typeAnnotation.None? ==> r == p
  {
    if p.typeAnnotation.Some? then p.(questionToken := false, typeAnnotation := None) else p
  }

  /** `node.parameters.map(visitParameter)`. */
  function VisitParameters(ps: seq<Parameter>): (r: seq<Parameter>)
    ensures |r| == |ps|
    ensures forall i :: 0 <= i < |ps| ==> r[i] == VisitParameter(ps[i])
  {
    if ps == [] then [] else [VisitParameter(ps[0])] + VisitParameters(ps[1..])
  }

  /** `visitFunctionDeclaration`: only a function declaration is rebuilt;
      the other function-like kinds come back unchanged. */
  function VisitFunctionDeclaration(n: Node): (r: Node)
    requires n.FunctionLike?
    ensures n.functionKind != FunctionDeclaration ==> r == n
    ensures n.functionKind == FunctionDeclaration ==>
              && r.FunctionLike? && r.functionKind == FunctionDeclaration
              && r.modifiers == n.modifiers && r.asterisk == n.asterisk && r.name == n.name
              && r.questionToken == n.questionToken && r.body == n.body
              && r.typeParameters == [] && r.typeAnnotation.None?
              && |r.parameters| == |n.parameters|
              && forall i :: 0 <= i < |n.parameters| ==> r.parameters[i] == VisitParameter(n.parameters[i])
  {
    if n.functionKind == FunctionDeclaration then
      FunctionLike(FunctionDeclaration, n.modifiers, n.asterisk, n.name, n.questionToken, [],
                   VisitParameters(n.parameters), None, n.body)
    else n
  }

  /** `ts.visitEachChild(node, visitor, context)` on the nodes the visitor
      has no rule for: every child node is visited, nothing is removed. */
  function VisitEachChild(n: Node): (r: Node)
    requires !n.VariableDeclaration? && !n.FunctionLike? && !n.ArrowFunction?
    decreases n, 1
    ensures SameKind(n, r)
    // Identifiers are leaves; every other kind keeps its tokens and flags and
    // has each child node, decorator and template span visited in place.
    ensures n.Identifier? ==> r == n
    ensures n.Other? ==> r.children == VisitAll(n.children)
    ensures n.ExportDeclaration? ==>
              r == ExportDeclaration(VisitModifiers(n.modifiers), n.isTypeOnly, n.exportClause, n.fromSpecifier)
    ensures n.ImportDeclaration? ==>
              r == ImportDeclaration(VisitModifiers(n.modifiers), n.importClause, n.moduleSpecifier)
    ensures n.VariableStatement? ==>
              r.modifiers == VisitModifiers(n.modifiers) && r.declarationList == VisitOpt(n.declarationList)
    ensures n.ExpressionWithTypeArguments? ==>
              r.expression == VisitOpt(n.expression) && r.typeArguments == VisitAll(n.typeArguments)
    ensures n.Assertion? ==>
              r.expression == VisitOpt(n.expression) && r.typeAnnotation == VisitOpt(n.typeAnnotation)
    ensures n.Call? ==>
              && r.expression == VisitOpt(n.expression) && r.questionDot == n.questionDot
              && r.typeArguments == VisitAll(n.typeArguments) && r.arguments == VisitAll(n.arguments)
    ensures n.New? ==>
              && r.expression == VisitOpt(n.expression)
              && r.typeArguments == VisitAll(n.typeArguments) && r.arguments == VisitAll(n.arguments)
    ensures n.TaggedTemplate? ==>
              && r.tag == VisitOpt(n.tag) && r.typeArguments == VisitAll(n.typeArguments)
              && r.template == VisitTemplate(n.template)
    ensures n.TemplateExpression? ==> r.template == VisitTemplate(n.template)
    ensures n.Property? ==>
              && r.modifiers == VisitModifiers(n.modifiers) && r.name == VisitOpt(n.name) && r.postfix == n.postfix
              && r.typeAnnotation == VisitOpt(n.typeAnnotation) && r.initializer == VisitOpt(n.initializer)
    ensures n.ClassLike? ==>
              && r.modifiers == VisitModifiers(n.modifiers) && r.name == VisitOpt(n.name)
              && r.typeParameters == VisitAll(n.typeParameters)
              && r.heritageClauses == VisitClauses(n.heritageClauses) && r.members == VisitAll(n.members)
  {
    match n
    case Identifier(_) => n
    case Other(kind, children) => Other(kind, VisitAll(children))
    case ExportDeclaration(mods, isTypeOnly, clause, from) => ExportDeclaration(VisitModifiers(mods), isTypeOnly, clause, from)
    case ImportDeclaration(mods, clause, spec) => ImportDeclaration(VisitModifiers(mods), clause, spec)
    case VariableStatement(mods, list) => VariableStatement(VisitModifiers(mods), VisitOpt(list))
    case ExpressionWithTypeArguments(e, targs) => ExpressionWithTypeArguments(VisitOpt(e), VisitAll(targs))
    case Assertion(op, e, t) => Assertion(op, VisitOpt(e), VisitOpt(t))
    case Call(e, questionDot, targs, args) => Call(VisitOpt(e), questionDot, VisitAll(targs), VisitAll(args))
    case New(e, targs, args) => New(VisitOpt(e), VisitAll(targs), VisitAll(args))
    case TaggedTemplate(tag, targs, t) => TaggedTemplate(VisitOpt(tag), VisitAll(targs), VisitTemplate(t))
    case TemplateExpression(t) => TemplateExpression(VisitTemplate(t))
    case Property(mods, name, postfix, t, init) =>
      Property(VisitModifiers(mods), VisitOpt(name), postfix, VisitOpt(t), VisitOpt(init))
    case ClassLike(kind, mods, name, tps, hs, members) =>
      ClassLike(kind, VisitModifiers(mods), VisitOpt(name), VisitAll(tps), VisitClauses(hs), VisitAll(members))
  }

  function VisitOpt(o: Option<Node>): (r: Option<Node>)
    decreases o, 1
    ensures r.Some? <==> o.Some?
  {
    match o
    case None => None
    case Some(n) => Some(Visit(n))
  }

  function VisitAll(s: seq<Node>): (r: seq<Node>)
    decreases s, 1
    ensures |r| == |s|
    ensures forall i :: 0 <= i < |s| ==> r[i] == Visit(s[i])
  {
    if s == [] then [] else [Visit(s[0])] + VisitAll(s[1..])
  }

  /** Keyword modifiers are tokens and stay; a decorator has its expression visited. */
  function VisitModifiers(mods: seq<Modifier>): (r: seq<Modifier>)
    decreases mods, 1
    ensures |r| == |mods|
    ensures forall i :: 0 <= i < |mods| ==> r[i] == VisitModifier(mods[i])
  {
    if mods == [] then [] else [VisitModifier(mods[0])] + VisitModifiers(mods[1..])
  }

  function VisitModifier(m: Modifier): (r: Modifier)
    decreases m, 1
    ensures KindOf(r) == KindOf(m)
  {
    match m
    case KeywordModifier(_) => m
    case Decorator(e) => Decorator(Visit(e))
  }

  function VisitTemplate(t: Template): (r: Template)
    decreases t, 1
    ensures r.head == t.head && r.spans == VisitSpans(t.spans)
  {
    Template(t.head, VisitSpans(t.spans))
  }

  function VisitSpans(spans: seq<TemplateSpan>): (r: seq<TemplateSpan>)
    decreases spans, 1
    ensures |r| == |spans|
    ensures forall i :: 0 <= i < |spans| ==>
              r[i].literal == spans[i].literal && r[i].expression == VisitOpt(spans[i].expression)
  {
    if spans == [] then []
    else [TemplateSpan(VisitOpt(spans[0].expression), spans[0].literal)] + VisitSpans(spans[1..])
  }

  function VisitClauses(hs: seq<HeritageClause>): (r: seq<HeritageClause>)
    decreases hs, 1
    ensures |r| == |hs|
    ensures forall i :: 0 <= i < |hs| ==> r[i].token == hs[i].token && r[i].types == VisitAll(hs[i].types)
  {
    if hs == [] then []
    else [HeritageClause(hs[0].token, VisitAll(hs[0].types))] + VisitClauses(hs[1..])
  }

  // ---------------------------------------------------------------------------
  // The trees the transform leaves alone.
  // ---------------------------------------------------------------------------

  /** No type the transform would remove, anywhere it looks: no variable
      declaration with a type, and no function declaration with type
      parameters, a return type or a typed parameter. */
  predicate Clean(n: Node)
    decreases n, 1
  {
    match n
    case VariableDeclaration(_, _, t, _) => t.None?
    case FunctionLike(kind, _, _, _, _, tps, ps, t, _) =>
      kind == FunctionDeclaration ==>
        tps == [] && t.None? && forall i :: 0 <= i < |ps| ==> ps[i].typeAnnotation.None?
    case ArrowFunction(_, _, _, _, _) => true
    case Identifier(_) => true
    case Other(_, children) => forall i :: 0 <= i < |children| ==> Clean(children[i])
    case ExportDeclaration(mods, _, _, _) => CleanModifiers(mods)
    case ImportDeclaration(mods, _, _) => CleanModifiers(mods)
    case VariableStatement(mods, list) => CleanModifiers(mods) && CleanOpt(list)
    case ExpressionWithTypeArguments(e, targs) => CleanOpt(e) && (forall i :: 0 <= i < |targs| ==> Clean(targs[i]))
    case Assertion(_, e, t) => CleanOpt(e) && CleanOpt(t)
    case Call(e, _, targs, args) =>
      CleanOpt(e) && (forall i :: 0 <= i < |targs| ==> Clean(targs[i])) && (forall i :: 0 <= i < |args| ==> Clean(args[i]))
    case New(e, targs, args) =>
      CleanOpt(e) && (forall i :: 0 <= i < |targs| ==> Clean(targs[i])) && (forall i :: 0 <= i < |args| ==> Clean(args[i]))
    case TaggedTemplate(tag, targs, t) =>
      CleanOpt(tag) && (forall i :: 0 <= i < |targs| ==> Clean(targs[i])) && CleanTemplate(t)
    case TemplateExpression(t) => CleanTemplate(t)
    case Property(mods, name, _, t, init) => CleanModifiers(mods) && CleanOpt(name) && CleanOpt(t) && CleanOpt(init)
    case ClassLike(_, mods, name, tps, hs, members) =>
      CleanModifiers(mods) && CleanOpt(name) && (forall i :: 0 <= i < |tps| ==> Clean(tps[i])) &&
      (forall i :: 0 <= i < |hs| ==> CleanClause(hs[i])) && (forall i :: 0 <= i < |members| ==> Clean(members[i]))
  }

  predicate CleanOpt(o: Option<Node>)
    decreases o, 2
  {
    o.Some? ==> Clean(o.value)
  }

  predicate CleanModifiers(mods: seq<Modifier>)
    decreases mods, 2
  {
    forall i :: 0 <= i < |mods| ==> CleanModifier(mods[i])
  }

  predicate CleanModifier(m: Modifier)
    decreases m, 2
  {
    m.Decorator? ==> Clean(m.expression)
  }

  predicate CleanTemplate(t: Template)
    decreases t, 2
  {
    forall i :: 0 <= i < |t.spans| ==> CleanOpt(t.spans[i].expression)
  }

  predicate CleanClause(h: HeritageClause)
    decreases h, 2
  {
    forall i :: 0 <= i < |h.types| ==> Clean(h.types[i])
  }

  /** Whatever the transform returns is clean. */
  lemma {:induction false} VisitIsClean(n: Node)
    ensures Clean(Visit(n))
    decreases n, 2
  {
    if !n.VariableDeclaration? && !n.FunctionLike? && !n.ArrowFunction? {
      assert Visit(n) == VisitEachChild(n);
      VisitEachChildIsClean(n);
    }
  }

  lemma {:induction false} VisitEachChildIsClean(n: Node)
    requires !n.VariableDeclaration? && !n.FunctionLike? && !n.ArrowFunction?
    ensures Clean(VisitEachChild(n))
    decreases n, 1
  {
    if n.Other? || n.ExportDeclaration? || n.ImportDeclaration? || n.VariableStatement? || n.Property? {
      VisitStatementIsClean(n);
    } else if n.ExpressionWithTypeArguments? || n.Assertion? || n.Call? || n.New? {
      VisitExpressionIsClean(n);
    } else if n.TaggedTemplate? || n.TemplateExpression? || n.ClassLike? {
      VisitOtherIsClean(n);
    }
  }

  lemma {:induction false} VisitStatementIsClean(n: Node)
    requires n.Other? || n.ExportDeclaration? || n.ImportDeclaration? || n.VariableStatement? || n.Property?
    ensures Clean(VisitEachChild(n))
    decreases n, 0
  {
    if n.Other? {
      assert VisitEachChild(n) == Other(n.kind, VisitAll(n.children));
      VisitAllIsClean(n.children);
    } else if n.ExportDeclaration? || n.ImportDeclaration? {
      VisitModifiersAreClean(n.modifiers);
    } else if n.VariableStatement? {
      VisitModifiersAreClean(n.modifiers); VisitOptIsClean(n.declarationList);
    } else {
      VisitModifiersAreClean(n.modifiers); VisitOptIsClean(n.name); VisitOptIsClean(n.typeAnnotation);
      VisitOptIsClean(n.initializer);
    }
  }

  lemma {:induction false} VisitExpressionIsClean(n: Node)
    requires n.ExpressionWithTypeArguments? || n.Assertion? || n.Call? || n.New?
    ensures Clean(VisitEachChild(n))
    decreases n, 0
  {
    VisitOptIsClean(n.expression);
    if n.ExpressionWithTypeArguments? {
      assert VisitEachChild(n) == ExpressionWithTypeArguments(VisitOpt(n.expression), VisitAll(n.typeArguments));
      VisitAllIsClean(n.typeArguments);
    } else if n.Assertion? {
      VisitOptIsClean(n.typeAnnotation);
    } else if n.Call? {
      assert VisitEachChild(n) == Call(VisitOpt(n.expression), n.questionDot, VisitAll(n.typeArguments), VisitAll(n.arguments));
      VisitAllIsClean(n.typeArguments); VisitAllIsClean(n.arguments);
    } else {
      assert VisitEachChild(n) == New(VisitOpt(n.expression), VisitAll(n.typeArguments), VisitAll(n.arguments));
      VisitAllIsClean(n.typeArguments); VisitAllIsClean(n.arguments);
    }
  }

  lemma {:induction false} VisitOtherIsClean(n: Node)
    requires n.TaggedTemplate? || n.TemplateExpression? || n.ClassLike?
    ensures Clean(VisitEachChild(n))
    decreases n, 0
  {
    if n.TaggedTemplate? {
      assert VisitEachChild(n) == TaggedTemplate(VisitOpt(n.tag), VisitAll(n.typeArguments), VisitTemplate(n.template));
      VisitOptIsClean(n.tag); VisitAllIsClean(n.typeArguments); VisitTemplateIsClean(n.template);
    } else if n.TemplateExpression? {
      assert VisitEachChild(n) == TemplateExpression(VisitTemplate(n.template));
      VisitTemplateIsClean(n.template);
    } else {
      assert VisitEachChild(n) == ClassLike(n.classKind, VisitModifiers(n.modifiers), VisitOpt(n.name),
        VisitAll(n.typeParameters), VisitClauses(n.heritageClauses), VisitAll(n.members));
      VisitModifiersAreClean(n.modifiers); VisitOptIsClean(n.name); VisitAllIsClean(n.typeParameters);
      VisitClausesAreClean(n.heritageClauses); VisitAllIsClean(n.members);
    }
  }

  lemma {:induction false} VisitOptIsClean(o: Option<Node>)
    ensures CleanOpt(VisitOpt(o))
    decreases o
  {
    if o.Some? {
      VisitIsClean(o.value);
    }
  }

  lemma {:induction false} VisitAllIsClean(s: seq<Node>)
    ensures forall i :: 0 <= i < |s| ==> Clean(VisitAll(s)[i])
    decreases s
  {
    forall i | 0 <= i < |s|
      ensures Clean(VisitAll(s)[i])
    {
      VisitIsClean(s[i]);
    }
  }

  lemma {:induction false} VisitModifiersAreClean(mods: seq<Modifier>)
    ensures CleanModifiers(VisitModifiers(mods))
    decreases mods
  {
    forall i | 0 <= i < |mods|
      ensures CleanModifier(VisitModifiers(mods)[i])
    {
      VisitModifierIsClean(mods[i]);
    }
  }

  lemma {:induction false} VisitModifierIsClean(m: Modifier)
    ensures CleanModifier(VisitModifier(m))
    decreases m
  {
    if m.Decorator? {
      VisitIsClean(m.expression);
    }
  }

  lemma {:induction false} VisitTemplateIsClean(t: Template)
    ensures CleanTemplate(VisitTemplate(t))
    decreases t
  {
    VisitSpansAreClean(t.spans);
  }

  lemma {:induction false} VisitSpansAreClean(spans: seq<TemplateSpan>)
    ensures forall i :: 0 <= i < |spans| ==> CleanOpt(VisitSpans(spans)[i].expression)
    decreases spans
  {
    forall i | 0 <= i < |spans|
      ensures CleanOpt(VisitSpans(spans)[i].expression)
    {
      VisitOptIsClean(spans[i].expression);
    }
  }

  lemma {:induction false} VisitClausesAreClean(hs: seq<HeritageClause>)
    ensures forall i :: 0 <= i < |hs| ==> CleanClause(VisitClauses(hs)[i])
    decreases hs
  {
    forall i | 0 <= i < |hs|
      ensures CleanClause(VisitClauses(hs)[i])
    {
      VisitAllIsClean(hs[i].types);
    }
  }

  /** A clean tree comes back unchanged. */
  lemma {:induction false} CleanIsFixpoint(n: Node)
    requires Clean(n)
    ensures Visit(n) == n
    decreases n, 1
  {
    if n.FunctionLike? && n.functionKind == FunctionDeclaration {
      assert VisitParameters(n.parameters) == n.parameters;
    }
    if !n.VariableDeclaration? && !n.FunctionLike? && !n.ArrowFunction? {
      assert Visit(n) == VisitEachChild(n);
      CleanEachChildFixpoint(n);
    }
  }

  lemma {:induction false} CleanEachChildFixpoint(n: Node)
    requires !n.VariableDeclaration? && !n.FunctionLike? && !n.ArrowFunction? && Clean(n)
    ensures VisitEachChild(n) == n
    decreases n, 0
  {
    match n
    case Identifier(_) =>
    case Other(_, children) => CleanAllFixpoint(children);
    case ExportDeclaration(mods, _, _, _) => CleanModifiersFixpoint(mods);
    case ImportDeclaration(mods, _, _) => CleanModifiersFixpoint(mods);
    case VariableStatement(mods, list) => CleanModifiersFixpoint(mods); CleanOptFixpoint(list);
    case ExpressionWithTypeArguments(e, targs) => CleanOptFixpoint(e); CleanAllFixpoint(targs);
    case Assertion(_, e, t) => CleanOptFixpoint(e); CleanOptFixpoint(t);
    case Call(e, _, targs, args) => CleanOptFixpoint(e); CleanAllFixpoint(targs); CleanAllFixpoint(args);
    case New(e, targs, args) => CleanOptFixpoint(e); CleanAllFixpoint(targs); CleanAllFixpoint(args);
    case TaggedTemplate(tag, targs, t) =>
      CleanOptFixpoint(tag); CleanAllFixpoint(targs); CleanSpansFixpoint(t.spans);
      assert VisitTemplate(t) == t;
    case TemplateExpression(t) =>
      CleanSpansFixpoint(t.spans);
      assert VisitTemplate(t) == t;
    case Property(mods, name, _, t, init) =>
      CleanModifiersFixpoint(mods); CleanOptFixpoint(name); CleanOptFixpoint(t); CleanOptFixpoint(init);
    case ClassLike(_, mods, name, tps, hs, members) =>
      CleanModifiersFixpoint(mods); CleanOptFixpoint(name); CleanAllFixpoint(tps); CleanClausesFixpoint(hs);
      CleanAllFixpoint(members);
  }

  lemma {:induction false} CleanOptFixpoint(o: Option<Node>)
    requires CleanOpt(o)
    ensures VisitOpt(o) == o
    decreases o
  {
    if o.Some? {
      CleanIsFixpoint(o.value);
    }
  }

  lemma {:induction false} CleanAllFixpoint(s: seq<Node>)
    requires forall i :: 0 <= i < |s| ==> Clean(s[i])
    ensures VisitAll(s) == s
    decreases s
  {
    forall i | 0 <= i < |s|
      ensures VisitAll(s)[i] == s[i]
    {
      CleanIsFixpoint(s[i]);
    }
  }

  lemma {:induction false} CleanModifiersFixpoint(mods: seq<Modifier>)
    requires CleanModifiers(mods)
    ensures VisitModifiers(mods) == mods
    decreases mods
  {
    forall i | 0 <= i < |mods|
      ensures VisitModifiers(mods)[i] == mods[i]
    {
      CleanModifierFixpoint(mods[i]);
    }
  }

  lemma {:induction false} CleanModifierFixpoint(m: Modifier)
    requires CleanModifier(m)
    ensures VisitModifier(m) == m
    decreases m
  {
    if m.Decorator? {
      CleanIsFixpoint(m.expression);
    }
  }

  lemma {:induction false} CleanSpansFixpoint(spans: seq<TemplateSpan>)
    requires forall i :: 0 <= i < |spans| ==> CleanOpt(spans[i].expression)
    ensures VisitSpans(spans) == spans
    decreases spans
  {
    forall i | 0 <= i < |spans|
      ensures VisitSpans(spans)[i] == spans[i]
    {
      CleanOptFixpoint(spans[i].expression);
    }
  }

  lemma {:induction false} CleanClausesFixpoint(hs: seq<HeritageClause>)
    requires forall i :: 0 <= i < |hs| ==> CleanClause(hs[i])
    ensures VisitClauses(hs) == hs
    decreases hs
  {
    forall i | 0 <= i < |hs|
      ensures VisitClauses(hs)[i] == hs[i]
    {
      CleanAllFixpoint(hs[i].types);
    }
  }

  /** Running the transform twice is running it once. */
  lemma VisitIdempotent(n: Node)
    ensures Visit(Visit(n)) == Visit(n)
  {
    VisitIsClean(n);
    CleanIsFixpoint(Visit(n));
  }

  /** The trees the transform leaves unchanged are exactly the clean ones. */
  lemma FixpointIffClean(n: Node)
    ensures Visit(n) == n <==> Clean(n)
  {
    VisitIsClean(n);
    if Clean(n) {
      CleanIsFixpoint(n);
    }
  }
}
