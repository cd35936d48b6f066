/**
  One small program analysed end to end, the way the repository's tests check
  a file: `function f(a) { var b = a; return c; }` on line 1, for any four
  distinct identifiers, under any options whose globals leave out `c`.  `c`
  is undefined; `b` is never referenced, and neither is `f`, whose name the
  program's own scope declares; `a` is referenced once.
*/
module Examples {
  import opened Wrappers
  import opened Ast
  import opened Scopes
  import opened Diagnostics
  import opened Options
  import opened Semantics
  import Properties

  /** The four identifiers of the program: non-empty and pairwise distinct. */
  predicate Fresh(f: string, a: string, b: string, c: string)
  {
    && f != "" && a != "" && b != "" && c != ""
    && f != a && f != b && f != c && a != b && a != c && b != c
  }

  function NameNode(x: string): Node
  {
    Node(Name, 1, x, [])
  }

  /** `b = a`, the declarator of `var b = a` */
  function InitB(a: string, b: string): Node
  {
    Node(VarInit(Ident(1, b)), 1, b + " = " + a, [NameNode(a)])
  }

  function DeclB(a: string, b: string): Node
  {
    Node(Block, 1, "var " + InitB(a, b).src + ";", [InitB(a, b)])
  }

  function ReturnC(c: string): Node
  {
    Node(Return, 1, "return " + c + ";", [NameNode(c)])
  }

  function Body(a: string, b: string, c: string): Node
  {
    Node(Block, 1, "{ " + DeclB(a, b).src + " " + ReturnC(c).src + " }", [DeclB(a, b), ReturnC(c)])
  }

  /** the function statement `function f(a) { var b = a; return c; }` */
  function FunF(f: string, a: string, b: string, c: string): Node
  {
    Node(Function([Ident(1, a)], Some(Ident(1, f)), true), 1,
         "function " + f + "(" + a + ") " + Body(a, b, c).src, [Body(a, b, c)])
  }

  function Program(f: string, a: string, b: string, c: string): Node
  {
    Node(Block, 1, FunF(f, a, b, c).src, [FunF(f, a, b, c)])
  }

  // Rhino's `visit` on nodes with no, one and two children.

  lemma HoistWalkLeaf(n: Node, root: Node, h: Hoisting)
    requires n.kids == [] || !HoistDescends(n, root)
    ensures HoistWalk(n, root, h) == HoistVisit(n, root, h)
  {
  }

  lemma HoistWalkOne(n: Node, root: Node, h: Hoisting)
    requires |n.kids| == 1 && HoistDescends(n, root)
    ensures HoistWalk(n, root, h) == HoistWalk(n.kids[0], root, HoistVisit(n, root, h))
  {
    var h1 := HoistWalk(n.kids[0], root, HoistVisit(n, root, h));
    assert HoistWalkFrom(n, 1, root, h1) == h1;
  }

  lemma HoistWalkTwo(n: Node, root: Node, h: Hoisting)
    requires |n.kids| == 2 && HoistDescends(n, root)
    ensures HoistWalk(n, root, h)
         == HoistWalk(n.kids[1], root, HoistWalk(n.kids[0], root, HoistVisit(n, root, h)))
  {
    var h1 := HoistWalk(n.kids[0], root, HoistVisit(n, root, h));
    var h2 := HoistWalk(n.kids[1], root, h1);
    assert HoistWalkFrom(n, 2, root, h2) == h2;
    assert HoistWalkFrom(n, 1, root, h1) == h2;
  }

  lemma RefWalkLeaf(n: Node, root: Node, st: State)
    requires n.kids == [] || !RefDescends(n, root)
    ensures RefWalk(n, root, st) == RefVisit(n, root, st)
  {
  }

  lemma RefWalkOne(n: Node, root: Node, st: State)
    requires |n.kids| == 1 && RefDescends(n, root)
    ensures RefWalk(n, root, st) == RefWalk(n.kids[0], root, RefVisit(n, root, st))
  {
    var st1 := RefWalk(n.kids[0], root, RefVisit(n, root, st));
    assert RefWalkFrom(n, 1, root, st1) == st1;
  }

  lemma RefWalkTwo(n: Node, root: Node, st: State)
    requires |n.kids| == 2 && RefDescends(n, root)
    ensures RefWalk(n, root, st)
         == RefWalk(n.kids[1], root, RefWalk(n.kids[0], root, RefVisit(n, root, st)))
  {
    var st1 := RefWalk(n.kids[0], root, RefVisit(n, root, st));
    var st2 := RefWalk(n.kids[1], root, st1);
    assert RefWalkFrom(n, 2, root, st2) == st2;
    assert RefWalkFrom(n, 1, root, st1) == st2;
  }

  /** The pass over an inert node with two children, given the passes over the children. */
  lemma RefWalkPair(n: Node, root: Node, st: State, st1: State, st2: State)
    requires |n.kids| == 2 && RefDescends(n, root) && (n.kind.Block? || n.kind.Function?)
    requires RefWalk(n.kids[0], root, st) == st1 && RefWalk(n.kids[1], root, st1) == st2
    ensures RefWalk(n, root, st) == st2
  {
    RefVisitInert(n, root, st);
    RefWalkTwo(n, root, st);
  }

  /** The pass over a node with one child, given its visit and the pass over the child. */
  lemma RefWalkVisited(n: Node, root: Node, st: State, st1: State, st2: State)
    requires |n.kids| == 1 && RefDescends(n, root)
    requires RefVisit(n, root, st) == st1 && RefWalk(n.kids[0], root, st1) == st2
    ensures RefWalk(n, root, st) == st2
  {
    RefWalkOne(n, root, st);
  }

  /** The pass over an inert node with one child, given the pass over the child. */
  lemma RefWalkSingle(n: Node, root: Node, st: State, st1: State)
    requires |n.kids| == 1 && RefDescends(n, root) && (n.kind.Block? || n.kind.Function?)
    requires RefWalk(n.kids[0], root, st) == st1
    ensures RefWalk(n, root, st) == st1
  {
    RefVisitInert(n, root, st);
    RefWalkOne(n, root, st);
  }

  /** A node the reference visitor descends into and that counts no operand. */
  lemma RefVisitInert(n: Node, root: Node, st: State)
    requires RefDescends(n, root) && (n.kind.Block? || n.kind.Function?)
    ensures RefVisit(n, root, st) == st
  {
    OperandsInert(n);
    assert AddReferencedAll([], st) == st;
  }

  /** A block or a function counts no operand of its own. */
  lemma OperandsInert(n: Node)
    requires n.kind.Block? || n.kind.Function?
    ensures Operands(n) == []
  {
  }

  /** A declarator and a `return` count their first child. */
  lemma OperandsFirst(n: Node)
    requires n.kind.VarInit? || n.kind.Return?
    ensures Operands(n) == [Kid(n, 0)]
  {
  }

  lemma DefineArgsOne(t: Vars, x: Ident)
    ensures DefineArgs(t, [x]) == Define(t, x.src, Entry(0, SiteOfIdent(x), Arg))
  {
    var t1 := Define(t, x.src, Entry(0, SiteOfIdent(x), Arg));
    assert [x][1..] == [];
    assert DefineArgs(t1, []) == t1;
  }

  /** The table of `f`'s scope once hoisted: `a` as ARG, then `b` as VAR. */
  function TableF(a: string, b: string): Vars
  {
    Define(Define(NoVars, a, Entry(0, Site(1, a), Arg)), b, Entry(0, Site(1, InitB(a, b).src), Var))
  }

  /** A node the hoisting visitor descends into and that declares nothing. */
  lemma HoistInert(n: Node, root: Node, h: Hoisting)
    requires !n.kind.VarInit? && HoistDescends(n, root)
    ensures HoistVisit(n, root, h) == h
  {
  }

  /** The hoisting pass over a node with one child, given its visit and the pass over the child. */
  lemma HoistWalkVisited(n: Node, root: Node, h: Hoisting, h1: Hoisting, h2: Hoisting)
    requires |n.kids| == 1 && HoistDescends(n, root)
    requires HoistVisit(n, root, h) == h1 && HoistWalk(n.kids[0], root, h1) == h2
    ensures HoistWalk(n, root, h) == h2
  {
    HoistWalkOne(n, root, h);
  }

  /** The hoisting pass over an inert node with two children, given the passes over them. */
  lemma HoistWalkPair(n: Node, root: Node, h: Hoisting, h1: Hoisting, h2: Hoisting)
    requires |n.kids| == 2 && HoistDescends(n, root) && !n.kind.VarInit?
    requires HoistWalk(n.kids[0], root, h) == h1 && HoistWalk(n.kids[1], root, h1) == h2
    ensures HoistWalk(n, root, h) == h2
  {
    HoistInert(n, root, h);
    HoistWalkTwo(n, root, h);
  }

  /** A Name leaf: the hoisting pass leaves it alone. */
  lemma HoistName(x: string, root: Node, h: Hoisting)
    ensures HoistWalk(NameNode(x), root, h) == h
  {
    HoistInert(NameNode(x), root, h);
    HoistWalkLeaf(NameNode(x), root, h);
  }

  /**
    The hoisting pass over a function `fun` whose body holds one declarator of
    `y`, initialised from a Name, and then a `return` of a Name, in a scope
    table that does not yet hold `y`: `y` is declared, nothing is reported.
  */
  lemma HoistFun(fun: Node, y: string, x: string, z: string, t: Vars, out: Report)
    requires fun.kind.Function? && |fun.kids| == 1
    requires fun.kids[0].kind.Block? && |fun.kids[0].kids| == 2
    requires fun.kids[0].kids[0].kind.Block? && |fun.kids[0].kids[0].kids| == 1
    requires fun.kids[0].kids[0].kids[0].kind.VarInit? && fun.kids[0].kids[0].kids[0].kind.declared.src == y
    requires fun.kids[0].kids[0].kids[0].kids == [NameNode(x)]
    requires fun.kids[0].kids[1].kind.Return? && fun.kids[0].kids[1].kids == [NameNode(z)]
    requires y !in t.entries
    ensures HoistWalk(fun, fun, Hoisting(t, out))
         == Hoisting(Define(t, y, Entry(0, SiteOf(fun.kids[0].kids[0].kids[0]), Var)), out)
  {
    var body := fun.kids[0];
    var decl := body.kids[0];
    var init := decl.kids[0];
    var ret := body.kids[1];
    var h0 := Hoisting(t, out);
    var h1 := Hoisting(Define(t, y, Entry(0, SiteOf(init), Var)), out);
    assert HoistVisit(init, fun, h0) == h1;
    HoistName(x, fun, h1);
    HoistWalkVisited(init, fun, h0, h1, h1);
    HoistInert(decl, fun, h0);
    HoistWalkVisited(decl, fun, h0, h0, h1);
    HoistName(z, fun, h1);
    HoistInert(ret, fun, h1);
    HoistWalkVisited(ret, fun, h1, h1, h1);
    HoistWalkPair(body, fun, h0, h1, h1);
    HoistInert(fun, fun, h0);
    HoistWalkVisited(fun, fun, h0, h0, h1);
  }

  /** Hoisting inside `f` declares `b` after the parameter `a`, and reports nothing. */
  lemma HoistF(f: string, a: string, b: string, c: string, out: Report)
    requires Fresh(f, a, b, c)
    ensures var fun := FunF(f, a, b, c);
      HoistWalk(fun, fun, Hoisting(DefineArgs(NoVars, ScopeArgs(fun)), out)) == Hoisting(TableF(a, b), out)
  {
    var fun := FunF(f, a, b, c);
    var t := Define(NoVars, a, Entry(0, Site(1, a), Arg));
    assert ScopeArgs(fun) == [Ident(1, a)];
    DefineArgsOne(NoVars, Ident(1, a));
    HoistFun(fun, b, a, c, t, out);
  }

  /** `addReferenced` of a Name whose identifier the chain declares. */
  lemma AddReferencedName(x: string, st: State)
    requires x != "" && IsDefIn(st.env, x)
    ensures AddReferencedAll([Some(NameNode(x))], st) == State(RefIn(st.env, x), st.out)
  {
    assert ResolveVariableName(Some(NameNode(x))) == Some(x);
    assert [Some(NameNode(x))][1..] == [];
  }

  /** `addReferenced` of a Name whose identifier the chain does not declare. */
  lemma AddReferencedUndeclaredName(x: string, st: State)
    requires x != "" && !IsDefIn(st.env, x)
    ensures AddReferencedAll([Some(NameNode(x))], st) == State(st.env, st.out.AddUndefined(x, Site(1, x)))
  {
    assert ResolveVariableName(Some(NameNode(x))) == Some(x);
    assert [Some(NameNode(x))][1..] == [];
    Properties.RefInUndeclared(st.env, x);
  }

  // The reference pass, stated for any nodes of the program's shape, so that
  // the proofs never unfold the source texts.

  /** A declarator `var x = y` whose initialiser is the Name `y`, inside a function `root`. */
  lemma RefDecl(d: Node, root: Node, y: string, t: Vars, outer: Env, out: Report)
    requires root.kind.Function? && d.kind.Block? && |d.kids| == 1
    requires d.kids[0].kind.VarInit? && d.kids[0].kids == [NameNode(y)]
    requires y != "" && y in t.entries
    ensures RefWalk(d, root, State([t] + outer, out)) == State([Bump(t, y)] + outer, out)
  {
    var init := d.kids[0];
    var e := [t] + outer;
    var s0 := State(e, out);
    var s1 := State([Bump(t, y)] + outer, out);
    assert e[0] == t && e[1..] == outer;
    OperandsFirst(init);
    AddReferencedName(y, s0);
    RefWalkLeaf(NameNode(y), root, s1);
    RefWalkVisited(init, root, s0, s1, s1);
    RefWalkSingle(d, root, s0, s1);
  }

  /** `return y` inside a function `root`, where nothing declares `y`. */
  lemma RefReturn(r: Node, root: Node, y: string, t: Vars, outer: Env, out: Report)
    requires root.kind.Function? && r.kind.Return? && r.kids == [NameNode(y)]
    requires y != "" && y !in t.entries && !IsDefIn(outer, y)
    ensures RefWalk(r, root, State([t] + outer, out))
         == State([t] + outer, out.AddUndefined(y, Site(1, y)))
  {
    var s0 := State([t] + outer, out);
    IsDefInCons(t, outer, y);
    OperandsFirst(r);
    AddReferencedUndeclaredName(y, s0);
    RefWalkLeaf(NameNode(y), root, State([t] + outer, out.AddUndefined(y, Site(1, y))));
    RefWalkOne(r, root, s0);
  }

  /**
    The reference pass over a function `fun` whose body holds a declarator
    initialised from `y` and then `return z`, in a scope of `fun` that
    declares `y` and not `z`.
  */
  lemma RefFun(fun: Node, y: string, z: string, t: Vars, outer: Env, out: Report)
    requires fun.kind.Function? && |fun.kids| == 1
    requires fun.kids[0].kind.Block? && |fun.kids[0].kids| == 2
    requires fun.kids[0].kids[0].kind.Block? && |fun.kids[0].kids[0].kids| == 1
    requires fun.kids[0].kids[0].kids[0].kind.VarInit? && fun.kids[0].kids[0].kids[0].kids == [NameNode(y)]
    requires fun.kids[0].kids[1].kind.Return? && fun.kids[0].kids[1].kids == [NameNode(z)]
    requires y != "" && z != "" && y in t.entries && z !in t.entries && !IsDefIn(outer, z)
    ensures RefWalk(fun, fun, State([t] + outer, out))
         == State([Bump(t, y)] + outer, out.AddUndefined(z, Site(1, z)))
  {
    var body := fun.kids[0];
    var s0 := State([t] + outer, out);
    var s1 := State([Bump(t, y)] + outer, out);
    var s2 := State([Bump(t, y)] + outer, out.AddUndefined(z, Site(1, z)));
    RefDecl(body.kids[0], fun, y, t, outer, out);
    RefReturn(body.kids[1], fun, z, Bump(t, y), outer, out);
    RefWalkPair(body, fun, s0, s1, s2);
    RefWalkSingle(fun, fun, s0, s2);
  }

  /** The reference pass over `f`, in a scope of `f` that declares `a` and not `c`. */
  lemma RefWalkF(f: string, a: string, b: string, c: string, t: Vars, outer: Env, out: Report)
    requires a != "" && c != "" && a in t.entries && c !in t.entries && !IsDefIn(outer, c)
    ensures RefWalk(FunF(f, a, b, c), FunF(f, a, b, c), State([t] + outer, out))
         == State([Bump(t, a)] + outer, out.AddUndefined(c, Site(1, c)))
  {
    RefFun(FunF(f, a, b, c), a, c, t, outer, out);
  }

  /** A table keyed `[y, x]` whose `y` was referenced reports only `x`. */
  lemma UnreferencedSecond(t: Vars, y: string, x: string)
    requires t.order == [y, x] && y != "" && x != "" && t.entries[y].refs > 0
    requires t.entries[x].refs == 0 && t.entries[x].node.line != -1
    ensures Unreferenced(t) == [(x, t.entries[x].node)]
  {
    assert t.order[1..] == [x] && [x][1..] == [];
    assert KeySet([x]) == {x} <= t.entries.Keys;
    assert UnreferencedFrom([], t.entries) == [];
    assert UnreferencedFrom([x], t.entries) == [(x, t.entries[x].node)];
  }

  /** Leaving `f`: `a` was referenced once, `b` never. */
  lemma UnreferencedF(a: string, b: string)
    requires a != "" && b != "" && a != b
    ensures Unreferenced(Bump(TableF(a, b), a)) == [(b, Site(1, InitB(a, b).src))]
  {
    var t1 := Define(NoVars, a, Entry(0, Site(1, a), Arg));
    assert t1.order == [a];
    var t := Bump(TableF(a, b), a);
    assert t.order == [a, b];
    UnreferencedSecond(t, a, b);
  }

  /** Leaving a scope whose table reports exactly one unreferenced entry. */
  lemma LeaveOne(t: Vars, outer: Env, out: Report, x: string, site: Site)
    requires Unreferenced(t) == [(x, site)]
    ensures Leave(State([t] + outer, out)) == State(outer, out.AddNoReferenced(x, site))
  {
    assert ([t] + outer)[0] == t && ([t] + outer)[1..] == outer;
    AddNoReferencedOne(x, site, out);
  }

  lemma AddNoReferencedOne(x: string, site: Site, out: Report)
    ensures AddNoReferencedAll([(x, site)], out) == out.AddNoReferenced(x, site)
  {
    assert [(x, site)][1..] == [];
  }

  /**
    Entering `f` below any chain that does not declare `c`: `a` is counted,
    `c` is undefined, and on leaving, `b` is reported.
  */
  lemma EnterF(f: string, a: string, b: string, c: string, outer: Env, out: Report)
    requires Fresh(f, a, b, c) && !IsDefIn(outer, c)
    ensures var fun := FunF(f, a, b, c);
      EnterScope(fun, ScopeArgs(fun), State(outer, out))
        == State(outer, out.AddUndefined(c, Site(1, c)).AddNoReferenced(b, Site(1, InitB(a, b).src)))
  {
    var fun := FunF(f, a, b, c);
    var t := TableF(a, b);
    HoistF(f, a, b, c, out);
    assert HoistWalk(fun, fun, Hoisting(DefineArgs(NoVars, ScopeArgs(fun)), out)) == Hoisting(t, out);
    RefWalkF(f, a, b, c, t, outer, out);
    var st2 := State([Bump(t, a)] + outer, out.AddUndefined(c, Site(1, c)));
    assert RefWalk(fun, fun, State([t] + outer, out)) == st2;
    UnreferencedF(a, b);
    LeaveOne(Bump(t, a), outer, st2.out, b, Site(1, InitB(a, b).src));
    EnterScopeIs(fun, ScopeArgs(fun), State(outer, out), Hoisting(t, out), st2);
  }

  /** `enterNewScope` in terms of the results of its two passes. */
  lemma EnterScopeIs(n: Node, args: seq<Ident>, st: State, h: Hoisting, st2: State)
    requires HoistWalk(n, n, Hoisting(DefineArgs(NoVars, args), st.out)) == h
    requires RefWalk(n, n, State([h.table] + st.env, h.out)) == st2
    ensures |st2.env| > 0 && EnterScope(n, args, st) == Leave(st2)
  {
  }

  /** A key list whose entries all cite line -1 reports nothing. */
  lemma {:induction false} UnreferencedFromNone(order: seq<string>, entries: map<string, Entry>)
    requires KeySet(order) <= entries.Keys
    requires forall k :: k in KeySet(order) ==> entries[k].node.line == -1
    ensures UnreferencedFrom(order, entries) == []
  {
    if order != [] && order[0] != "" {
      UnreferencedFromNone(order[1..], entries);
    }
  }

  /** A key list in which only `x` has a real line, and `x` is unreferenced, reports `x` alone. */
  lemma {:induction false} UnreferencedFromOnly(order: seq<string>, entries: map<string, Entry>, x: string)
    requires KeySet(order) <= entries.Keys && Distinct(order)
    requires "" !in KeySet(order) && x in KeySet(order)
    requires entries[x] == Entry(0, Site(1, x), Var)
    requires forall k :: k in KeySet(order) && k != x ==> entries[k].node.line == -1
    ensures UnreferencedFrom(order, entries) == [(x, Site(1, x))]
  {
    if order[0] == x {
      UnreferencedFromNone(order[1..], entries);
      assert [(x, Site(1, x))] + [] == [(x, Site(1, x))];
    } else {
      UnreferencedFromOnly(order[1..], entries, x);
    }
  }

  /** The table the configured globals seed: exactly their names, all at line -1. */
  lemma GlobalsTable(names: seq<string>)
    ensures var g := DefineArgs(NoVars, Globals(names));
      && g.entries.Keys == (set x | x in names)
      && forall k :: k in g.entries ==> g.entries[k].node.line == -1
  {
    var args := Globals(names);
    DefineArgsEntries(NoVars, args);
    Properties.GlobalsNames(names);
  }

  /** The hoisting pass over a program made of one function statement `g` named `x`. */
  lemma HoistProgram(p: Node, g: Node, x: string, t: Vars, out: Report)
    requires p.kind.Block? && p.kids == [g]
    requires g.kind.Function? && g.kind.isStatement && g.kind.name == Some(Ident(1, x))
    ensures HoistWalk(p, p, Hoisting(t, out)) == Hoisting(Define(t, x, Entry(0, Site(1, x), Var)), out)
  {
    var h0 := Hoisting(t, out);
    assert HoistVisit(p, p, h0) == h0;
    assert HoistVisit(g, p, h0) == Hoisting(Define(t, x, Entry(0, Site(1, x), Var)), out);
    HoistWalkLeaf(g, p, h0);
    HoistWalkOne(p, p, h0);
  }

  /** The reference pass over that program: `g`'s own scope is all that happens. */
  lemma RefProgram(p: Node, g: Node, root: Vars, out: Report, out2: Report)
    requires p.kind.Block? && p.kids == [g] && g.kind.Function?
    requires EnterScope(g, ScopeArgs(g), State([root], out)) == State([root], out2)
    ensures RefWalk(p, p, State([root], out)) == State([root], out2)
  {
    var st := State([root], out);
    var st2 := State([root], out2);
    assert RefVisit(g, p, st) == st2;
    RefWalkLeaf(g, p, st);
    RefWalkSingle(p, p, st, st2);
  }

  /** A table of line -1 entries, plus `x` declared on line 1, reports `x` alone. */
  lemma ReportOnly(t: Vars, x: string)
    requires "" !in t.entries && x != ""
    requires forall k :: k in t.entries ==> t.entries[k].node.line == -1
    ensures Unreferenced(Define(t, x, Entry(0, Site(1, x), Var))) == [(x, Site(1, x))]
  {
    var root := Define(t, x, Entry(0, Site(1, x), Var));
    UnreferencedFromOnly(root.order, root.entries, x);
  }

  /**
    The program's own scope, for a program made of one function statement `g`
    named `x` whose own scope ends with findings `out2`, seeded by `args`
    whose entries all cite line -1: `g`'s name is hoisted into the program's
    scope, and it alone is reported unreferenced when that scope ends.
  */
  lemma EnterProgram(p: Node, g: Node, x: string, args: seq<Ident>, out: Report, out2: Report)
    requires p.kind.Block? && p.kids == [g] && x != ""
    requires g.kind.Function? && g.kind.isStatement && g.kind.name == Some(Ident(1, x))
    requires var t := DefineArgs(NoVars, args);
      "" !in t.entries && forall k :: k in t.entries ==> t.entries[k].node.line == -1
    requires var root := Define(DefineArgs(NoVars, args), x, Entry(0, Site(1, x), Var));
      EnterScope(g, ScopeArgs(g), State([root], out)) == State([root], out2)
    ensures EnterScope(p, args, State([], out)) == State([], out2.AddNoReferenced(x, Site(1, x)))
  {
    var t := DefineArgs(NoVars, args);
    var root := Define(t, x, Entry(0, Site(1, x), Var));
    HoistProgram(p, g, x, t, out);
    RefProgram(p, g, root, out, out2);
    assert [root] + [] == [root];
    EnterScopeIs(p, args, State([], out), Hoisting(root, out), State([root], out2));
    ReportOnly(t, x);
    LeaveOne(root, [], out2, x, Site(1, x));
  }

  /** The findings of the example, in the order they are added. */
  lemma ExampleReport(file: string, u: string, n1: string, src1: string, n2: string)
    ensures EmptyReport(file).AddUndefined(u, Site(1, u)).AddNoReferenced(n1, Site(1, src1))
              .AddNoReferenced(n2, Site(1, n2))
         == Report(file, [Record(u, u, 1, file)], [Record(n1, src1, 1, file), Record(n2, n2, 1, file)], [])
  {
  }

  /** The program's scope, seeded by `args` whose entries cite line -1 and leave out `c`. */
  lemma EnterProgramF(f: string, a: string, b: string, c: string, args: seq<Ident>, file: string)
    requires Fresh(f, a, b, c)
    requires var t := DefineArgs(NoVars, args);
      && "" !in t.entries && c !in t.entries
      && forall k :: k in t.entries ==> t.entries[k].node.line == -1
    ensures EnterScope(Program(f, a, b, c), args, State([], EmptyReport(file))).out
         == Report(file, [Record(c, c, 1, file)],
                   [Record(b, InitB(a, b).src, 1, file), Record(f, f, 1, file)], [])
  {
    var out := EmptyReport(file);
    var root := Define(DefineArgs(NoVars, args), f, Entry(0, Site(1, f), Var));
    IsDefInCons(root, [], c);
    EnterF(f, a, b, c, [root], out);
    var out2 := out.AddUndefined(c, Site(1, c)).AddNoReferenced(b, Site(1, InitB(a, b).src));
    EnterProgram(Program(f, a, b, c), FunF(f, a, b, c), f, args, out, out2);
    ExampleReport(file, c, b, InitB(a, b).src, f);
  }

  /**
    `parse` of the program under any options whose globals leave out `c` and
    the empty name: `c` is undefined; `b`, then `f`, are never referenced;
    nothing is declared twice.
  */
  lemma ParseExample(f: string, a: string, b: string, c: string, file: string, user: Option<Options>)
    requires Fresh(f, a, b, c)
    requires c !in GlobalNames(Effective(user)) && "" !in GlobalNames(Effective(user))
    ensures Parse(Program(f, a, b, c), file, user)
         == Report(file, [Record(c, c, 1, file)],
                   [Record(b, InitB(a, b).src, 1, file), Record(f, f, 1, file)], [])
  {
    var names := GlobalNames(Effective(user));
    GlobalsTable(names);
    EnterProgramF(f, a, b, c, Globals(names), file);
  }

  /**
    What the repository's tests compare for this program, parsed with the
    default options: the names in each list, in order.
  */
  lemma ParseExampleNames(f: string, a: string, b: string, c: string, file: string)
    requires Fresh(f, a, b, c) && c !in BuiltinGlobals
    ensures var r := Parse(Program(f, a, b, c), file, None);
      Names(r.undefineds) == [c] && Names(r.noReferenced) == [b, f] && Names(r.doubleDefined) == []
  {
    assert GlobalNames(Effective(None)) == BuiltinGlobals + [];
    ParseExample(f, a, b, c, file, None);
    var nr := [Record(b, InitB(a, b).src, 1, file), Record(f, f, 1, file)];
    assert Names(nr)[0] == b && Names(nr)[1] == f;
  }
}
