/**
  What the analyser promises, proved about the functions of modules Scopes,
  Semantics, Diagnostics and Options (and so, through the contracts of module
  Analyzer, about the imperative analyser itself).
*/
module Properties {
  import opened Wrappers
  import opened Ast
  import opened Scopes
  import opened Diagnostics
  import opened Options
  import opened Semantics

  // ---------------------------------------------------------------------
  // Scopes: chained and local lookup, def, ref
  // ---------------------------------------------------------------------

  /**
    `isDef` is chained and `isDefThis` is local: a name that only an enclosing
    scope owns is visible from the child but is not the child's own, and a
    definition in the child makes the name visible there and nowhere above.
  */
  lemma DefIsLocal(t: Vars, outer: Env, name: string, e: Entry, x: string)
    ensures name !in t.entries && IsDefIn(outer, name) ==> IsDefIn([t] + outer, name)
    ensures IsDefIn([Define(t, name, e)] + outer, x) <==> x == name || IsDefIn([t] + outer, x)
    ensures ([Define(t, name, e)] + outer)[1..] == outer
  {
    IsDefInCons(t, outer, name);
    IsDefInCons(t, outer, x);
    IsDefInCons(Define(t, name, e), outer, x);
    assert ([Define(t, name, e)] + outer)[1..] == outer;
  }

  /** `ref` of a name no scope of the chain declares changes nothing. */
  lemma {:induction false} RefInUndeclared(env: Env, name: string)
    requires !IsDefIn(env, name)
    ensures RefIn(env, name) == env
  {
    if env != [] {
      IsDefInCons(env[0], env[1..], name);
      assert [env[0]] + env[1..] == env;
      RefInUndeclared(env[1..], name);
    }
  }

  /** `r` is `env` with one more reference counted on the entry for `name` in scope `o`. */
  ghost predicate BumpedAt(env: Env, r: Env, o: nat, name: string)
  {
    && |r| == |env| && o < |env| && name in env[o].entries
    && r[o] == Bump(env[o], name)
    && r[o].entries[name].refs == env[o].entries[name].refs + 1
    && (forall j :: 0 <= j < |env| && j != o ==> r[j] == env[j])
  }

  lemma {:induction false} RefInAt(env: Env, name: string, o: nat)
    requires o < |env| && name in env[o].entries
    requires forall j :: 0 <= j < o ==> name !in env[j].entries
    ensures BumpedAt(env, RefIn(env, name), o, name)
  {
    if o > 0 {
      var tail := env[1..];
      forall j | 0 <= j < o - 1
        ensures name !in tail[j].entries
      {
        assert tail[j] == env[j + 1];
      }
      RefInAt(tail, name, o - 1);
      var r1 := RefIn(tail, name);
      var r := RefIn(env, name);
      assert r == [env[0]] + r1;
      forall j | 0 < j < |env|
        ensures r[j] == r1[j - 1] && env[j] == tail[j - 1]
      {
      }
    }
  }

  /**
    `ref` of a declared name counts one reference on the entry of the nearest
    scope that owns it, so an inner binding shadows an outer one; every other
    entry of that scope and every other scope of the chain stay as they were.
  */
  lemma RefInNearest(env: Env, name: string)
    requires IsDefIn(env, name)
    ensures BumpedAt(env, RefIn(env, name), Owner(env, name), name)
  {
    RefInAt(env, name, Owner(env, name));
  }

  // ---------------------------------------------------------------------
  // noRefs
  // ---------------------------------------------------------------------

  /** Each reported pair is a key of `keys` whose entry was never referenced and cites a real line. */
  ghost predicate OnlyUnreferenced(u: seq<(string, Site)>, keys: set<string>, entries: map<string, Entry>)
  {
    forall i :: 0 <= i < |u| ==>
      && u[i].0 in keys && u[i].0 in entries && entries[u[i].0].refs == 0
      && u[i].1 == entries[u[i].0].node && u[i].1.line != -1
  }

  /** No name is reported twice. */
  ghost predicate OncePerName(u: seq<(string, Site)>)
  {
    forall i, j :: 0 <= i < j < |u| ==> u[i].0 != u[j].0
  }

  lemma {:induction false} UnreferencedFromSound(order: seq<string>, entries: map<string, Entry>)
    requires KeySet(order) <= entries.Keys
    ensures OnlyUnreferenced(UnreferencedFrom(order, entries), KeySet(order), entries)
  {
    if order != [] && order[0] != "" {
      var e := entries[order[0]];
      var head := if e.refs == 0 && e.node.line != -1 then [(order[0], e.node)] else [];
      var rest := UnreferencedFrom(order[1..], entries);
      UnreferencedFromSound(order[1..], entries);
      var u := UnreferencedFrom(order, entries);
      assert u == head + rest;
      forall i | 0 <= i < |u|
        ensures u[i].0 in KeySet(order) && u[i].0 in entries && entries[u[i].0].refs == 0
        ensures u[i].1 == entries[u[i].0].node && u[i].1.line != -1
      {
        if i >= |head| {
          assert u[i] == rest[i - |head|];
        }
      }
    }
  }

  /** `noRefs` reports only this scope's own entries, unreferenced and with a real line. */
  lemma UnreferencedSound(t: Vars)
    ensures OnlyUnreferenced(Unreferenced(t), t.entries.Keys, t.entries)
  {
    UnreferencedFromSound(t.order, t.entries);
  }

  lemma {:induction false} UnreferencedFromComplete(order: seq<string>, entries: map<string, Entry>, k: string)
    requires KeySet(order) <= entries.Keys && "" !in KeySet(order) && k in KeySet(order)
    requires entries[k].refs == 0 && entries[k].node.line != -1
    ensures (k, entries[k].node) in UnreferencedFrom(order, entries)
  {
    if order[0] != k {
      UnreferencedFromComplete(order[1..], entries, k);
    }
  }

  /**
    With no empty name in the scope (the source's key loop stops at the first
    empty key), `noRefs` reports every entry that was never referenced and does
    not cite line -1.
  */
  lemma UnreferencedComplete(t: Vars, k: string)
    requires "" !in t.entries && k in t.entries
    requires t.entries[k].refs == 0 && t.entries[k].node.line != -1
    ensures (k, t.entries[k].node) in Unreferenced(t)
  {
    UnreferencedFromComplete(t.order, t.entries, k);
  }

  lemma {:induction false} UnreferencedFromOnce(order: seq<string>, entries: map<string, Entry>)
    requires KeySet(order) <= entries.Keys && Distinct(order)
    ensures OncePerName(UnreferencedFrom(order, entries))
  {
    if order != [] && order[0] != "" {
      var e := entries[order[0]];
      var head := if e.refs == 0 && e.node.line != -1 then [(order[0], e.node)] else [];
      var rest := UnreferencedFrom(order[1..], entries);
      UnreferencedFromOnce(order[1..], entries);
      UnreferencedFromSound(order[1..], entries);
      var u := UnreferencedFrom(order, entries);
      assert u == head + rest;
      forall i, j | 0 <= i < j < |u|
        ensures u[i].0 != u[j].0
      {
        assert u[j] == rest[j - |head|];
        if i >= |head| {
          assert u[i] == rest[i - |head|];
        }
      }
    }
  }

  /** `noRefs` reports each name at most once. */
  lemma UnreferencedOnce(t: Vars)
    ensures OncePerName(Unreferenced(t))
  {
    UnreferencedFromOnce(t.order, t.entries);
  }

  // ---------------------------------------------------------------------
  // resolveVariableName and addReferenced
  // ---------------------------------------------------------------------

  /** The member access `base.p1.p2...`, as Rhino nests it: the last access outermost. */
  function Dotted(base: Node, props: seq<Node>): (n: Node)
    ensures props != [] ==> n.kind.GetProp? && |n.kids| == 2
    decreases |props|
  {
    if props == [] then base
    else
      var target := Dotted(base, props[..|props| - 1]);
      var prop := props[|props| - 1];
      Node(GetProp, base.line, target.src + "." + prop.src, [target, prop])
  }

  /** `resolveVariableName` of `a.b.c` walks the targets down to `a`. */
  lemma {:induction false} ResolveDotted(base: Node, props: seq<Node>)
    requires base.kind.Name?
    requires forall i :: 0 <= i < |props| ==> props[i].kind.Name?
    ensures ResolveVariableName(Some(Dotted(base, props))) == Some(base.src)
    decreases |props|
  {
    if props != [] {
      ResolveDotted(base, props[..|props| - 1]);
    }
  }

  /** Only Names and property accesses resolve; a missing operand does not. */
  lemma ResolveOnlyNames(operand: Option<Node>)
    ensures ResolveVariableName(operand).Some? ==>
      operand.Some? && (operand.value.kind.Name? || operand.value.kind.GetProp?)
    ensures operand.Some? && operand.value.kind.Name? ==> ResolveVariableName(operand) == Some(operand.value.src)
  {
  }

  /**
    The undefined records a list of operands earns against a chain: one per
    operand resolving to a name that no scope declares, in order, with no
    deduplication.
  */
  ghost function Undeclared(ops: seq<Option<Node>>, env: Env, file: string): seq<Record>
  {
    if ops == [] then []
    else
      var rest := Undeclared(ops[1..], env, file);
      match ResolveVariableName(ops[0])
      case Some(name) =>
        if name != "" && !IsDefIn(env, name) then [RecordOf(name, SiteOf(ops[0].value), file)] + rest
        else rest
      case None => rest
  }

  lemma {:induction false} UndeclaredSameNames(ops: seq<Option<Node>>, e1: Env, e2: Env, file: string)
    requires SameNames(e1, e2)
    ensures Undeclared(ops, e1, file) == Undeclared(ops, e2, file)
  {
    if ops != [] {
      UndeclaredSameNames(ops[1..], e1, e2, file);
      var name := ResolveVariableName(ops[0]);
      if name.Some? {
        SameNamesIsDef(e1, e2, name.value);
      }
    }
  }

  /**
    `addReferenced` on one operand: an undeclared name appends exactly one
    undefined record and counts nothing; a declared one counts one reference on
    its nearest declaration and reports nothing; an operand that does not
    resolve changes nothing.
  */
  lemma AddReferencedEffect(operand: Option<Node>, st: State)
    ensures ResolveVariableName(operand).None? ==> AddReferenced(operand, st) == st
    ensures var r := AddReferenced(operand, st); var name := ResolveVariableName(operand);
      name.Some? && name.value != "" && !IsDefIn(st.env, name.value) ==>
        && r.env == st.env
        && r.out == st.out.(undefineds := st.out.undefineds + [RecordOf(name.value, SiteOf(operand.value), st.out.file)])
    ensures var r := AddReferenced(operand, st); var name := ResolveVariableName(operand);
      name.Some? && IsDefIn(st.env, name.value) && name.value != "" ==>
        r.out == st.out && BumpedAt(st.env, r.env, Owner(st.env, name.value), name.value)
  {
    var name := ResolveVariableName(operand);
    if name.Some? && name.value != "" {
      if IsDefIn(st.env, name.value) {
        RefInNearest(st.env, name.value);
      } else {
        RefInUndeclared(st.env, name.value);
      }
    }
  }

  /**
    A run of `addReferenced` over a node's operands appends exactly the
    undefined records `Undeclared` lists, and touches no other list.
  */
  lemma {:induction false} AddReferencedAllUndefineds(ops: seq<Option<Node>>, st: State)
    ensures var r := AddReferencedAll(ops, st);
      && r.out.undefineds == st.out.undefineds + Undeclared(ops, st.env, st.out.file)
      && r.out.noReferenced == st.out.noReferenced && r.out.doubleDefined == st.out.doubleDefined
      && r.out.file == st.out.file
  {
    if ops != [] {
      var st1 := AddReferenced(ops[0], st);
      AddReferencedAllUndefineds(ops[1..], st1);
      UndeclaredSameNames(ops[1..], st.env, st1.env, st.out.file);
    }
  }

  // ---------------------------------------------------------------------
  // Hoisting
  // ---------------------------------------------------------------------

  /**
    One step of the hoisting visitor: a declarator defines its name as VAR and
    adds one doubleDefined record exactly when the scope already owns the name
    (a parameter included); a function statement below the root redefines its
    name silently; every other node changes nothing.
  */
  lemma HoistVisitEffect(n: Node, root: Node, h: Hoisting)
    ensures var r := HoistVisit(n, root, h);
      n.kind.VarInit? ==>
        var name := n.kind.declared.src;
        && r.table.entries[name] == Entry(0, SiteOf(n), Var)
        && r.out.undefineds == h.out.undefineds && r.out.noReferenced == h.out.noReferenced
        && r.out.doubleDefined == h.out.doubleDefined
             + (if name in h.table.entries then [RecordOf(name, SiteOf(n), h.out.file)] else [])
    ensures var r := HoistVisit(n, root, h);
      n.kind.Function? && n != root && n.kind.name.Some? && n.kind.isStatement ==>
        && r.out == h.out
        && r.table.entries[n.kind.name.value.src] == Entry(0, SiteOfIdent(n.kind.name.value), Var)
    ensures !n.kind.VarInit? && !(n.kind.Function? && n != root) ==> HoistVisit(n, root, h) == h
  {
  }

  /** A nested function contributes at most its own statement name to the hoisted set. */
  lemma HoistedStopsAtFunctions(n: Node, root: Node)
    requires n.kind.Function? && n != root
    ensures Hoisted(n, root) == (if n.kind.name.Some? && n.kind.isStatement then {n.kind.name.value.src} else {})
  {
  }

  /** Every kid's hoisted names are hoisted by its parent, when the parent is descended into. */
  lemma {:induction false} HoistedFromKid(n: Node, i: nat, k: nat, root: Node)
    requires i <= k < |n.kids|
    ensures Hoisted(n.kids[k], root) <= HoistedFrom(n, i, root)
    decreases |n.kids| - i
  {
    if i < k {
      HoistedFromKid(n, i + 1, k, root);
    }
  }

  /**
    Hoisting crosses blocks: the names a child declares are hoisted into the
    scope of `root` whenever the walk descends into the parent.
  */
  lemma HoistedCrossesBlocks(n: Node, k: nat, root: Node)
    requires k < |n.kids| && HoistDescends(n, root)
    ensures Hoisted(n.kids[k], root) <= Hoisted(n, root)
  {
    HoistedFromKid(n, 0, k, root);
  }

  // ---------------------------------------------------------------------
  // parse
  // ---------------------------------------------------------------------

  lemma {:induction false} GlobalsNames(names: seq<string>)
    ensures ArgNames(Globals(names)) == set x | x in names
  {
    var ids := Globals(names);
    forall x | x in names
      ensures x in ArgNames(ids)
    {
      var i :| 0 <= i < |names| && names[i] == x;
      assert ids[i].src == x;
    }
  }

  /** No undefined record names a name of `names`. */
  ghost predicate NoUndefinedAmong(r: Report, names: set<string>)
  {
    forall j :: 0 <= j < |r.undefineds| ==> r.undefineds[j].name !in names
  }

  /** No noReferenced record cites line -1. */
  ghost predicate RealLines(r: Report)
  {
    forall j :: 0 <= j < |r.noReferenced| ==> r.noReferenced[j].line != -1
  }

  /**
    What a whole run reports: no configured global and no name hoisted into the
    program's scope (so no forward reference either) is ever undefined, and no
    noReferenced record cites line -1, so the injected globals never appear.
  */
  lemma ParseSound(program: Node, file: string, user: Option<Options>)
    ensures Parse(program, file, user).file == file
    ensures NoUndefinedAmong(Parse(program, file, user),
                             (set x | x in GlobalNames(Effective(user))) + Hoisted(program, program))
    ensures RealLines(Parse(program, file, user))
  {
    var names := GlobalNames(Effective(user));
    var st := State([], EmptyReport(file));
    EnterScopeGrows(program, Globals(names), st);
    GlobalsNames(names);
  }

  /** `checkUnrefType` is never consulted: whatever it holds, the findings are the same. */
  lemma ParseIgnoresCheckUnrefType(program: Node, file: string, user: Options, v: seq<string>)
    ensures Parse(program, file, Some(user[CheckUnrefTypeKey := v])) == Parse(program, file, Some(user))
  {
    var d := DefaultOptions();
    assert (d + user[CheckUnrefTypeKey := v])[DefaultGlobalKey] == (d + user)[DefaultGlobalKey];
    assert (d + user[CheckUnrefTypeKey := v])[GlobalKey] == (d + user)[GlobalKey];
  }

  // ---------------------------------------------------------------------
  // toErrors
  // ---------------------------------------------------------------------

  /** The message of each record is at the record's own position, in order. */
  lemma {:induction false} MessagesEach(rs: seq<Record>, phrase: string)
    ensures forall i :: 0 <= i < |rs| ==> Messages(rs, phrase)[i] == Message(rs[i], phrase)
  {
    if rs != [] {
      var init := rs[..|rs| - 1];
      MessagesEach(init, phrase);
      var front := Messages(init, phrase);
      var last := Message(rs[|rs| - 1], phrase);
      var ms := Messages(rs, phrase);
      assert ms == front + [last];
      forall i | 0 <= i < |rs|
        ensures ms[i] == Message(rs[i], phrase)
      {
        if i < |rs| - 1 {
          assert ms[i] == front[i];
          assert rs[i] == init[i];
        } else {
          assert ms[i] == last;
        }
      }
    }
  }

  /**
    `toErrors` lists the messages of the undefined records, then those of the
    unreferenced ones, then those of the double definitions, each list in the
    order its records were added, and nothing else.
  */
  lemma ErrorsInOrder(rep: Report)
    ensures var e := Errors(rep);
      var u := |rep.undefineds|;
      var n := |rep.noReferenced|;
      && |e| == u + n + |rep.doubleDefined|
      && e[..u] == Messages(rep.undefineds, Undefined)
      && e[u..u + n] == Messages(rep.noReferenced, NoReferenced)
      && e[u + n..] == Messages(rep.doubleDefined, AlreadyDefined)
  {
    var m1 := Messages(rep.undefineds, Undefined);
    var m2 := Messages(rep.noReferenced, NoReferenced);
    var m3 := Messages(rep.doubleDefined, AlreadyDefined);
    var e := m1 + m2 + m3;
    assert e[..|m1|] == m1;
    assert e[|m1|..|m1| + |m2|] == m2;
    assert e[|m1| + |m2|..] == m3;
  }
}
