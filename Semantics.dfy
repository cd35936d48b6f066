/**
  What the analysis computes, as functions on values.  Each function here is
  the specification of one imperative member of module Analyzer: the two
  visitors of adhint.js (`buildHoistingVisitoer`, `buildVisitor`), Rhino's
  pre-order `visit` that drives them, `addReferenced`, `enterNewScope` and
  `parse`.  `resolveVariableName`, which is pure in the source, is defined
  here once and used by both.
*/
module Semantics {
  import opened Wrappers
  import opened Ast
  import opened Scopes
  import opened Diagnostics
  import opened Options

  function SiteOf(n: Node): Site
  {
    Site(n.line, n.src)
  }

  function SiteOfIdent(id: Ident): Site
  {
    Site(id.line, id.src)
  }

  // ---------------------------------------------------------------------
  // resolveVariableName
  // ---------------------------------------------------------------------

  /**
    The base identifier an operand reads: the text of a Name, the base of a
    chain of property accesses `a.b.c`, and nothing for a missing operand or
    any other node kind.
  */
  function ResolveVariableName(operand: Option<Node>): (r: Option<string>)
    ensures r.Some? ==> operand.Some?
  {
    match operand
    case None => None
    case Some(n) => ResolveNode(n)
  }

  function ResolveNode(n: Node): Option<string>
  {
    if n.kind.Name? then Some(n.src)
    else if n.kind.GetProp? && |n.kids| == 2 && n.kids[1].kind.Name? then ResolveNode(n.kids[0])
    else None
  }

  // ---------------------------------------------------------------------
  // The hoisting pass
  // ---------------------------------------------------------------------

  /** A scope's own table and the findings, while the hoisting pass runs. */
  datatype Hoisting = Hoisting(table: Vars, out: Report)

  /** The hoisting visitor does not descend into a nested function. */
  predicate HoistDescends(n: Node, root: Node)
  {
    !(n.kind.Function? && n != root)
  }

  /** One call of the hoisting visitor. */
  function HoistVisit(n: Node, root: Node, h: Hoisting): Hoisting
  {
    if n.kind.VarInit? then
      var name := n.kind.declared.src;
      var out := if name in h.table.entries then h.out.AddDoubleDefine(name, SiteOf(n)) else h.out;
      Hoisting(Define(h.table, name, Entry(0, SiteOf(n), Var)), out)
    else if n.kind.Function? && n != root && n.kind.name.Some? && n.kind.isStatement then
      Hoisting(Define(h.table, n.kind.name.value.src, Entry(0, SiteOfIdent(n.kind.name.value), Var)), h.out)
    else h
  }

  /** The names one node declares in the hoisting pass. */
  function Declares(n: Node, root: Node): set<string>
  {
    if n.kind.VarInit? then {n.kind.declared.src}
    else if n.kind.Function? && n != root && n.kind.name.Some? && n.kind.isStatement then {n.kind.name.value.src}
    else {}
  }

  /**
    Every name the hoisting pass of the scope of `root` declares: the targets of
    all declarators and the names of all function statements reachable from
    `root` without entering a nested function.
  */
  function Hoisted(n: Node, root: Node): set<string>
    decreases n, |n.kids| + 1
  {
    Declares(n, root) + (if HoistDescends(n, root) then HoistedFrom(n, 0, root) else {})
  }

  /** The names hoisted from the children of `n` at position `i` and after. */
  function HoistedFrom(n: Node, i: nat, root: Node): set<string>
    requires i <= |n.kids|
    decreases n, |n.kids| - i
  {
    if i == |n.kids| then {}
    else Hoisted(n.kids[i], root) + HoistedFrom(n, i + 1, root)
  }

  /** Only double definitions are added; the other lists and the file stay. */
  ghost predicate OnlyDoubles(a: Report, b: Report)
  {
    && b.file == a.file && b.undefineds == a.undefineds && b.noReferenced == a.noReferenced
    && a.doubleDefined <= b.doubleDefined
  }

  /** `node.visit(hoistingVisitor)`: the visitor on `n`, then on its children unless told not to. */
  function HoistWalk(n: Node, root: Node, h: Hoisting): Hoisting
    decreases n, |n.kids| + 1
  {
    var h1 := HoistVisit(n, root, h);
    if HoistDescends(n, root) then HoistWalkFrom(n, 0, root, h1) else h1
  }

  /** The walk over the children of `n` at position `i` and after, in order. */
  function HoistWalkFrom(n: Node, i: nat, root: Node, h: Hoisting): Hoisting
    requires i <= |n.kids|
    decreases n, |n.kids| - i
  {
    if i == |n.kids| then h
    else HoistWalkFrom(n, i + 1, root, HoistWalk(n.kids[i], root, h))
  }

  // ---------------------------------------------------------------------
  // The reference pass
  // ---------------------------------------------------------------------

  /** The scope chain and the findings, while the reference pass runs. */
  datatype State = State(env: Env, out: Report)

  /**
    What a step may do to the state: no scope gains or loses a name, every
    entry keeps its node and kind and only gains references, the file
    stays, the three lists only grow, every new undefined record names a name
    the chain did not declare, and no new unreferenced record has line -1.
  */
  ghost predicate Grows(st: State, r: State)
  {
    && OnlyCounts(st.env, r.env)
    && r.out.file == st.out.file
    && st.out.undefineds <= r.out.undefineds
    && st.out.noReferenced <= r.out.noReferenced
    && st.out.doubleDefined <= r.out.doubleDefined
    && (forall j :: |st.out.undefineds| <= j < |r.out.undefineds| ==>
          !IsDefIn(st.env, r.out.undefineds[j].name))
    && (forall j :: |st.out.noReferenced| <= j < |r.out.noReferenced| ==>
          r.out.noReferenced[j].line != -1)
  }

  /** No undefined record appended from `before` to `after` names a name of `names`. */
  ghost predicate NewUndefinedsAvoid(before: Report, after: Report, names: set<string>)
  {
    forall j :: |before.undefineds| <= j < |after.undefineds| ==> after.undefineds[j].name !in names
  }

  function Present(ns: seq<Node>): (ops: seq<Option<Node>>)
    ensures |ops| == |ns| && forall i :: 0 <= i < |ns| ==> ops[i] == Some(ns[i])
  {
    if ns == [] then [] else [Some(ns[0])] + Present(ns[1..])
  }

  /** The bitwise and shift operators have no case in the reference visitor. */
  predicate CountsOperands(op: BinaryOp)
  {
    !(op.BitOr? || op.BitXor? || op.BitAnd? || op.Lsh? || op.Rsh? || op.Ursh?)
  }

  /** The operands the reference visitor submits to `addReferenced`, per node kind, in order. */
  function Operands(n: Node): seq<Option<Node>>
  {
    match n.kind
    case Assign => [Kid(n, 0), Kid(n, 1)]
    case ArrayLit => Present(n.kids)
    case Call(_) => Present(n.kids)
    case Hook => [Kid(n, 0), Kid(n, 1), Kid(n, 2)]
    case ExprResult => [Kid(n, 0)]
    case Case(isDefault) => [if isDefault then None else Kid(n, 0)]
    case Switch => [Kid(n, 0)]
    case Throw => [Kid(n, 0)]
    case For => [Kid(n, 0), Kid(n, 1), Kid(n, 2)]
    case ForIn => [Kid(n, 0), Kid(n, 1)]
    case If => [Kid(n, 0)]
    case While => [Kid(n, 0)]
    case Do => [Kid(n, 1)]
    case Colon => [Kid(n, 1)]
    case Return => [Kid(n, 0)]
    case Binary(op) => if CountsOperands(op) then [Kid(n, 0), Kid(n, 1)] else []
    case Unary => [Kid(n, 0)]
    case GetElem => [Kid(n, 0), Kid(n, 1)]
    case VarInit(_) => [Kid(n, 0)]
    case _ => []
  }

  /** `addReferenced`: resolve the operand; report it undefined or count the reference. */
  function AddReferenced(operand: Option<Node>, st: State): State
  {
    match ResolveVariableName(operand)
    case None => st
    case Some(name) =>
      if name == "" then st
      else
        var out := if IsDefIn(st.env, name) then st.out
                   else st.out.AddUndefined(name, SiteOf(operand.value));
        State(RefIn(st.env, name), out)
  }

  function AddReferencedAll(operands: seq<Option<Node>>, st: State): (r: State)
    ensures |r.env| == |st.env|
  {
    if operands == [] then st else AddReferencedAll(operands[1..], AddReferenced(operands[0], st))
  }

  /** The reference visitor hands a nested function or catch clause to `enterNewScope`. */
  predicate RefDescends(n: Node, root: Node)
  {
    !((n.kind.Function? || n.kind.Catch?) && n != root)
  }

  /**
    The bindings `enterNewScope` declares as ARG: a function's parameters and,
    for a function expression with a name, that name; a catch clause's variable.
  */
  function ScopeArgs(n: Node): seq<Ident>
  {
    match n.kind
    case Function(params, fnName, isStatement) =>
      params + (if fnName.Some? && !isStatement then [fnName.value] else [])
    case Catch(param) => [param]
    case _ => []
  }

  function ArgNames(args: seq<Ident>): set<string>
  {
    set a | a in args :: a.src
  }

  /** `args.forEach(p => newScope.def(p.getIdentifier(), p, ARG))` */
  function DefineArgs(t: Vars, args: seq<Ident>): (r: Vars)
    ensures r.entries.Keys == t.entries.Keys + ArgNames(args)
    decreases |args|
  {
    if args == [] then t
    else
      assert ArgNames(args) == {args[0].src} + ArgNames(args[1..]);
      DefineArgs(Define(t, args[0].src, Entry(0, SiteOfIdent(args[0]), Arg)), args[1..])
  }

  /** The position of the last argument named `k`: the one whose `def` wins. */
  function LastArg(args: seq<Ident>, k: string): (j: nat)
    requires k in ArgNames(args)
    ensures j < |args| && args[j].src == k
    ensures forall i :: j < i < |args| ==> args[i].src != k
  {
    var last := |args| - 1;
    if args[last].src == k then last
    else
      assert k in ArgNames(args[..last]) by {
        var i :| 0 <= i < |args| && args[i].src == k;
        assert args[..last][i] == args[i];
      }
      LastArg(args[..last], k)
  }

  /**
    Each argument's entry has no references, its own node and kind ARG, and a
    repeated name keeps the entry of its last occurrence; every other entry of
    `t` is left as it was.
  */
  lemma {:induction false} DefineArgsEntries(t: Vars, args: seq<Ident>)
    ensures forall k :: k in ArgNames(args) ==>
      DefineArgs(t, args).entries[k] == Entry(0, SiteOfIdent(args[LastArg(args, k)]), Arg)
    ensures forall k :: k in t.entries && k !in ArgNames(args) ==>
      DefineArgs(t, args).entries[k] == t.entries[k]
    decreases |args|
  {
    if args != [] {
      var rest := args[1..];
      var t1 := Define(t, args[0].src, Entry(0, SiteOfIdent(args[0]), Arg));
      assert ArgNames(args) == {args[0].src} + ArgNames(rest);
      DefineArgsEntries(t1, rest);
      assert DefineArgs(t, args) == DefineArgs(t1, rest);
      forall k | k in ArgNames(args)
        ensures DefineArgs(t, args).entries[k] == Entry(0, SiteOfIdent(args[LastArg(args, k)]), Arg)
      {
        if k in ArgNames(rest) {
          LastArgTail(args, k);
        } else {
          LastArgHead(args, k);
        }
      }
    }
  }

  lemma LastArgTail(args: seq<Ident>, k: string)
    requires |args| > 0 && k in ArgNames(args[1..])
    ensures k in ArgNames(args) && LastArg(args, k) == 1 + LastArg(args[1..], k)
  {
    var rest := args[1..];
    assert k in ArgNames(args) by {
      var i :| 0 <= i < |rest| && rest[i].src == k;
      assert args[i + 1] == rest[i];
    }
    var j, j' := LastArg(args, k), LastArg(rest, k);
    assert args[1 + j'] == rest[j'];
  }

  lemma LastArgHead(args: seq<Ident>, k: string)
    requires |args| > 0 && args[0].src == k && k !in ArgNames(args[1..])
    ensures k in ArgNames(args) && LastArg(args, k) == 0
  {
    assert forall i :: 0 < i < |args| ==> args[1..][i - 1] == args[i];
  }

  /** `noRefs().forEach(([name, node]) => parsed.addNoReferenced(name, node))` */
  function AddNoReferencedAll(norefs: seq<(string, Site)>, out: Report): Report
  {
    if norefs == [] then out
    else AddNoReferencedAll(norefs[1..], out.AddNoReferenced(norefs[0].0, norefs[0].1))
  }

  /** The end of `enterNewScope`: report the new scope's unreferenced entries and drop it. */
  function Leave(st: State): State
    requires |st.env| > 0
  {
    State(st.env[1..], AddNoReferencedAll(Unreferenced(st.env[0]), st.out))
  }

  /**
    `enterNewScope(n, scope, parsed, args)`: a child scope holding `args`, the
    hoisting pass, then the reference pass over `n`, then its unreferenced entries.
  */
  function EnterScope(n: Node, args: seq<Ident>, st: State): (r: State)
    ensures |r.env| == |st.env|
    decreases n, |n.kids| + 3
  {
    var h := HoistWalk(n, n, Hoisting(DefineArgs(NoVars, args), st.out));
    var st2 := RefWalk(n, n, State([h.table] + st.env, h.out));
    Leave(st2)
  }

  /** One call of the reference visitor. */
  function RefVisit(n: Node, root: Node, st: State): (r: State)
    ensures |r.env| == |st.env|
    decreases n, |n.kids| + (if n == root then 1 else 4)
  {
    if RefDescends(n, root) then AddReferencedAll(Operands(n), st)
    else EnterScope(n, ScopeArgs(n), st)
  }

  /** `node.visit(referenceVisitor)` */
  function RefWalk(n: Node, root: Node, st: State): (r: State)
    ensures |r.env| == |st.env|
    decreases n, |n.kids| + (if n == root then 2 else 5)
  {
    var st1 := RefVisit(n, root, st);
    if RefDescends(n, root) then RefWalkFrom(n, 0, root, st1) else st1
  }

  /** The walk over the children of `n` at position `i` and after, in order. */
  function RefWalkFrom(n: Node, i: nat, root: Node, st: State): (r: State)
    requires i <= |n.kids|
    ensures |r.env| == |st.env|
    decreases n, |n.kids| - i
  {
    if i == |n.kids| then st
    else RefWalkFrom(n, i + 1, root, RefWalk(n.kids[i], root, st))
  }

  /** `parse`: the program's own scope, seeded with the configured globals at line -1. */
  function Globals(names: seq<string>): (ids: seq<Ident>)
    ensures |ids| == |names| && forall i :: 0 <= i < |names| ==> ids[i] == Ident(-1, names[i])
  {
    if names == [] then [] else [Ident(-1, names[0])] + Globals(names[1..])
  }

  function Parse(program: Node, file: string, user: Option<Options>): Report
  {
    EnterScope(program, Globals(GlobalNames(Effective(user))), State([], EmptyReport(file))).out
  }

  // ---------------------------------------------------------------------
  // Facts the contracts above rest on
  // ---------------------------------------------------------------------

  lemma SameNamesIsDef(e1: Env, e2: Env, name: string)
    requires SameNames(e1, e2)
    ensures IsDefIn(e1, name) <==> IsDefIn(e2, name)
  {
    if IsDefIn(e1, name) {
      var i :| 0 <= i < |e1| && name in e1[i].entries;
      assert name in e2[i].entries;
    }
    if IsDefIn(e2, name) {
      var i :| 0 <= i < |e2| && name in e2[i].entries;
      assert name in e1[i].entries;
    }
  }

  lemma GrowsRefl(st: State)
    ensures Grows(st, st)
  {
  }

  lemma GrowsTrans(a: State, b: State, c: State)
    requires Grows(a, b) && Grows(b, c)
    ensures Grows(a, c)
  {
    forall j | |a.out.undefineds| <= j < |c.out.undefineds|
      ensures !IsDefIn(a.env, c.out.undefineds[j].name)
    {
      var name := c.out.undefineds[j].name;
      SameNamesIsDef(a.env, b.env, name);
      if j < |b.out.undefineds| {
        assert c.out.undefineds[j] == b.out.undefineds[j];
      }
    }
    forall j | |a.out.noReferenced| <= j < |c.out.noReferenced|
      ensures c.out.noReferenced[j].line != -1
    {
      if j < |b.out.noReferenced| {
        assert c.out.noReferenced[j] == b.out.noReferenced[j];
      }
    }
  }

  lemma AddReferencedGrows(operand: Option<Node>, st: State)
    ensures Grows(st, AddReferenced(operand, st))
  {
  }

  lemma {:induction false} AddReferencedAllGrows(operands: seq<Option<Node>>, st: State)
    ensures Grows(st, AddReferencedAll(operands, st))
  {
    if operands == [] {
      GrowsRefl(st);
    } else {
      var st1 := AddReferenced(operands[0], st);
      AddReferencedGrows(operands[0], st);
      AddReferencedAllGrows(operands[1..], st1);
      GrowsTrans(st, st1, AddReferencedAll(operands[1..], st1));
    }
  }

  lemma {:induction false} UnreferencedFromLines(order: seq<string>, entries: map<string, Entry>)
    requires KeySet(order) <= entries.Keys
    ensures forall p :: p in UnreferencedFrom(order, entries) ==> p.1.line != -1
  {
    if order != [] && order[0] != "" {
      UnreferencedFromLines(order[1..], entries);
    }
  }

  lemma {:induction false} AddNoReferencedAllGrows(norefs: seq<(string, Site)>, out: Report)
    requires forall p :: p in norefs ==> p.1.line != -1
    ensures var r := AddNoReferencedAll(norefs, out);
      && r.file == out.file && r.undefineds == out.undefineds && r.doubleDefined == out.doubleDefined
      && out.noReferenced <= r.noReferenced
      && forall j :: |out.noReferenced| <= j < |r.noReferenced| ==> r.noReferenced[j].line != -1
  {
    if norefs != [] {
      var out1 := out.AddNoReferenced(norefs[0].0, norefs[0].1);
      AddNoReferencedAllGrows(norefs[1..], out1);
      var r := AddNoReferencedAll(norefs[1..], out1);
      forall j | |out.noReferenced| <= j < |r.noReferenced|
        ensures r.noReferenced[j].line != -1
      {
        if j < |out1.noReferenced| {
          assert r.noReferenced[j] == out1.noReferenced[j];
        }
      }
    }
  }

  /** The steps of `EnterScope` compose to `Grows`, and no declared name is reported. */
  lemma LeaveGrows(st: State, declared: set<string>, h: Hoisting, st2: State)
    requires declared <= h.table.entries.Keys
    requires OnlyDoubles(st.out, h.out)
    requires Grows(State([h.table] + st.env, h.out), st2)
    ensures |st2.env| > 0
    ensures Grows(st, Leave(st2))
    ensures NewUndefinedsAvoid(st.out, Leave(st2).out, declared)
  {
    var inner := [h.table] + st.env;
    var r := Leave(st2);
    UnreferencedFromLines(st2.env[0].order, st2.env[0].entries);
    AddNoReferencedAllGrows(Unreferenced(st2.env[0]), st2.out);
    assert OnlyCounts(st.env, r.env) by {
      forall i | 0 <= i < |st.env|
        ensures st.env[i].entries.Keys == r.env[i].entries.Keys
        ensures forall k :: k in st.env[i].entries ==> Counted(st.env[i].entries[k], r.env[i].entries[k])
      {
        assert inner[i + 1] == st.env[i];
        assert st2.env[i + 1] == r.env[i];
      }
    }
    forall j | |st.out.undefineds| <= j < |r.out.undefineds|
      ensures !IsDefIn(st.env, r.out.undefineds[j].name)
      ensures r.out.undefineds[j].name !in declared
    {
      var name := r.out.undefineds[j].name;
      assert !IsDefIn(inner, name);
      IsDefInCons(h.table, st.env, name);
    }
    forall j | |st.out.noReferenced| <= j < |r.out.noReferenced|
      ensures r.out.noReferenced[j].line != -1
    {
      if j < |st2.out.noReferenced| {
        assert r.out.noReferenced[j] == st2.out.noReferenced[j];
      }
    }
  }

  lemma {:induction false} HoistWalkKeys(n: Node, root: Node, h: Hoisting)
    ensures var r := HoistWalk(n, root, h);
      r.table.entries.Keys == h.table.entries.Keys + Hoisted(n, root) && OnlyDoubles(h.out, r.out)
    decreases n, |n.kids| + 1
  {
    if HoistDescends(n, root) {
      HoistWalkFromKeys(n, 0, root, HoistVisit(n, root, h));
    }
  }

  lemma {:induction false} HoistWalkFromKeys(n: Node, i: nat, root: Node, h: Hoisting)
    requires i <= |n.kids|
    ensures var r := HoistWalkFrom(n, i, root, h);
      r.table.entries.Keys == h.table.entries.Keys + HoistedFrom(n, i, root) && OnlyDoubles(h.out, r.out)
    decreases n, |n.kids| - i
  {
    if i < |n.kids| {
      HoistWalkKeys(n.kids[i], root, h);
      HoistWalkFromKeys(n, i + 1, root, HoistWalk(n.kids[i], root, h));
    }
  }

  /**
    Entering a scope keeps the enclosing chain's names, only appends findings,
    and never reports as undefined a name the new scope declares.
  */
  lemma {:induction false} EnterScopeGrows(n: Node, args: seq<Ident>, st: State)
    ensures Grows(st, EnterScope(n, args, st))
    ensures NewUndefinedsAvoid(st.out, EnterScope(n, args, st).out, ArgNames(args) + Hoisted(n, n))
    decreases n, |n.kids| + 3
  {
    var h0 := Hoisting(DefineArgs(NoVars, args), st.out);
    HoistWalkKeys(n, n, h0);
    var h := HoistWalk(n, n, h0);
    var inner := State([h.table] + st.env, h.out);
    RefWalkGrows(n, n, inner);
    LeaveGrows(st, ArgNames(args) + Hoisted(n, n), h, RefWalk(n, n, inner));
  }

  lemma {:induction false} RefVisitGrows(n: Node, root: Node, st: State)
    ensures Grows(st, RefVisit(n, root, st))
    decreases n, |n.kids| + (if n == root then 1 else 4)
  {
    if RefDescends(n, root) {
      AddReferencedAllGrows(Operands(n), st);
    } else {
      EnterScopeGrows(n, ScopeArgs(n), st);
    }
  }

  lemma {:induction false} RefWalkGrows(n: Node, root: Node, st: State)
    ensures Grows(st, RefWalk(n, root, st))
    decreases n, |n.kids| + (if n == root then 2 else 5)
  {
    RefVisitGrows(n, root, st);
    var st1 := RefVisit(n, root, st);
    if RefDescends(n, root) {
      RefWalkFromGrows(n, 0, root, st1);
      GrowsTrans(st, st1, RefWalkFrom(n, 0, root, st1));
    }
  }

  lemma {:induction false} RefWalkFromGrows(n: Node, i: nat, root: Node, st: State)
    requires i <= |n.kids|
    ensures Grows(st, RefWalkFrom(n, i, root, st))
    decreases n, |n.kids| - i
  {
    if i == |n.kids| {
      GrowsRefl(st);
    } else {
      RefWalkGrows(n.kids[i], root, st);
      var st1 := RefWalk(n.kids[i], root, st);
      RefWalkFromGrows(n, i + 1, root, st1);
      GrowsTrans(st, st1, RefWalkFrom(n, i + 1, root, st1));
    }
  }
}
