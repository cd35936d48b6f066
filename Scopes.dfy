/**
  Lexical scopes (the `Scope` constructor of adhint.js and its methods).

  A scope's own symbol table is the value type `Vars`: the entries keyed by
  name, and the order in which the keys were first added, which is the order
  `Object.keys` reports them in.  A chain of scopes seen as a value is an
  `Env`, innermost scope first; `IsDefIn` and `RefIn` are the chained lookup
  and the reference count increment at that level.  The class `Scope` holds
  one table and a link to its parent, as the source does.
*/
module Scopes {

  /** VarType: declared by a declarator or function statement, or parameter-like. */
  datatype VarType = Var | Arg

  /** The line and source text of the node a declaration or a diagnostic cites. */
  datatype Site = Site(line: int, src: string)

  /** One binding: how often it was referenced, the node that declared it, its kind. */
  datatype Entry = Entry(refs: nat, node: Site, kind: VarType)

  /** The set of keys a key list names. */
  function KeySet(order: seq<string>): set<string>
  {
    if order == [] then {} else {order[0]} + KeySet(order[1..])
  }

  /** No key is listed twice. */
  predicate Distinct(order: seq<string>)
  {
    order == [] || (order[0] !in KeySet(order[1..]) && Distinct(order[1..]))
  }

  datatype Table = Table(entries: map<string, Entry>, order: seq<string>) {
    /** Every key is listed exactly once in `order`. */
    ghost predicate Valid() {
      entries.Keys == KeySet(order) && Distinct(order)
    }
  }

  type Vars = t: Table | t.Valid() witness Table(map[], [])

  const NoVars: Vars := Table(map[], [])

  /** `vars[name] = entry`: a new key goes last, an existing key keeps its place. */
  function Define(t: Vars, name: string, e: Entry): (r: Vars)
    ensures r.entries.Keys == t.entries.Keys + {name} && r.entries[name] == e
    ensures forall k :: k in t.entries && k != name ==> r.entries[k] == t.entries[k]
    ensures r.order == if name in t.entries then t.order else t.order + [name]
  {
    if name in t.entries then Table(t.entries[name := e], t.order)
    else
      KeySetAppend(t.order, name);
      DistinctAppend(t.order, name);
      Table(t.entries[name := e], t.order + [name])
  }

  lemma {:induction false} KeySetAppend(order: seq<string>, name: string)
    ensures KeySet(order + [name]) == KeySet(order) + {name}
  {
    if order != [] {
      assert (order + [name])[1..] == order[1..] + [name];
      KeySetAppend(order[1..], name);
    }
  }

  lemma {:induction false} DistinctAppend(order: seq<string>, name: string)
    requires Distinct(order) && name !in KeySet(order)
    ensures Distinct(order + [name])
  {
    if order == [] {
      assert [] + [name] == [name];
    } else {
      assert (order + [name])[1..] == order[1..] + [name];
      KeySetAppend(order[1..], name);
      DistinctAppend(order[1..], name);
    }
  }

  /** `v.refs++` on the entry for `name`. */
  function Bump(t: Vars, name: string): (r: Vars)
    requires name in t.entries
    ensures r.entries.Keys == t.entries.Keys && r.order == t.order
    ensures r.entries[name] == t.entries[name].(refs := t.entries[name].refs + 1)
    ensures forall k :: k in t.entries && k != name ==> r.entries[k] == t.entries[k]
  {
    var e := t.entries[name];
    Table(t.entries[name := e.(refs := e.refs + 1)], t.order)
  }

  /** A chain of scope tables as values, innermost first. */
  type Env = seq<Vars>

  /** `name in this.vars`: declared in some scope of the chain. */
  predicate IsDefIn(env: Env, name: string)
  {
    exists i :: 0 <= i < |env| && name in env[i].entries
  }

  /** The position in the chain of the nearest scope that owns `name`. */
  function Owner(env: Env, name: string): (i: nat)
    requires IsDefIn(env, name)
    ensures i < |env| && name in env[i].entries
    ensures forall j :: 0 <= j < i ==> name !in env[j].entries
  {
    if name in env[0].entries then 0
    else
      assert IsDefIn(env[1..], name) by {
        var k :| 0 <= k < |env| && name in env[k].entries;
        assert env[1..][k - 1] == env[k];
      }
      1 + Owner(env[1..], name)
  }

  /** Two chains of the same length whose scopes own the same names. */
  ghost predicate SameNames(e1: Env, e2: Env)
  {
    |e1| == |e2| && forall i :: 0 <= i < |e1| ==> e1[i].entries.Keys == e2[i].entries.Keys
  }

  /** `b` is the entry `a` with possibly more references: same node, same kind. */
  predicate Counted(a: Entry, b: Entry)
  {
    b.node == a.node && b.kind == a.kind && b.refs >= a.refs
  }

  /** `e2` is `e1` after counting references only: the same names, every entry at least as referenced. */
  ghost predicate OnlyCounts(e1: Env, e2: Env)
  {
    && SameNames(e1, e2)
    && forall i, k :: 0 <= i < |e1| && k in e1[i].entries ==> Counted(e1[i].entries[k], e2[i].entries[k])
  }

  /** `ref(name)` on the value level: bump the entry of the nearest owner, if any. */
  function RefIn(env: Env, name: string): (r: Env)
    ensures OnlyCounts(env, r)
  {
    if env == [] then []
    else if name in env[0].entries then [Bump(env[0], name)] + env[1..]
    else [env[0]] + RefIn(env[1..], name)
  }

  /** The entries `noRefs` reports from a key list: never referenced, with a real line. */
  function UnreferencedFrom(order: seq<string>, entries: map<string, Entry>): seq<(string, Site)>
    requires KeySet(order) <= entries.Keys
  {
    // the source's loop `for (...; k = vars[i]; ...)` stops at the first falsy key
    if order == [] || order[0] == "" then []
    else
      var e := entries[order[0]];
      (if e.refs == 0 && e.node.line != -1 then [(order[0], e.node)] else [])
        + UnreferencedFrom(order[1..], entries)
  }

  function Unreferenced(t: Vars): seq<(string, Site)>
  {
    UnreferencedFrom(t.order, t.entries)
  }

  /** A scope: its own table and the scope its lookups fall through to. */
  class Scope {
    const parent: Scope?
    /** The enclosing scopes, nearest first. */
    ghost const ancestors: seq<Scope>
    var vars: Vars

    /** The enclosing scopes as a set, for frames. */
    ghost function Enclosing(): set<Scope>
    {
      set s | s in ancestors
    }

    ghost predicate ChainOk()
      decreases |ancestors|
    {
      && this !in ancestors
      && if parent == null then ancestors == []
         else ancestors == [parent] + parent.ancestors && parent.ChainOk()
    }

    /** The tables of this scope and its ancestors, innermost first. */
    ghost function Frames(): (r: Env)
      requires ChainOk()
      reads this, Enclosing()
      ensures |r| == |ancestors| + 1 && r[0] == vars
      decreases |ancestors|
    {
      if parent == null then [vars]
      else
        [vars] + parent.Frames()
    }

    constructor (parent: Scope?)
      requires parent != null ==> parent.ChainOk()
      ensures ChainOk() && this.parent == parent && vars == NoVars
      ensures ancestors == if parent == null then [] else [parent] + parent.ancestors
    {
      this.parent := parent;
      this.ancestors := if parent == null then [] else [parent] + parent.ancestors;
      this.vars := NoVars;
    }

    /** `def`: create or overwrite this scope's own entry, with no references. */
    method Def(name: string, node: Site, kind: VarType)
      modifies this
      ensures vars == Define(old(vars), name, Entry(0, node, kind))
    {
      vars := Define(vars, name, Entry(0, node, kind));
    }

    /** `isDef`: the chained lookup. */
    function IsDef(name: string): (b: bool)
      requires ChainOk()
      reads this, Enclosing()
      ensures b <==> IsDefIn(Frames(), name)
      decreases |ancestors|
    {
      if name in vars.entries then
        assert Frames()[0] == vars;
        true
      else if parent == null then false
      else
        var b := parent.IsDef(name);
        IsDefInCons(vars, parent.Frames(), name);
        b
    }

    /** `isDefThis`: the own-key test; it reads nothing but this scope. */
    function IsDefThis(name: string): bool
      reads this
    {
      name in vars.entries
    }

    /** `ref`: count a reference on the nearest declaration of `name`. */
    method Ref(name: string) returns (found: bool)
      requires ChainOk()
      modifies this, Enclosing()
      ensures found == IsDefIn(old(Frames()), name)
      ensures Frames() == RefIn(old(Frames()), name)
      decreases |ancestors|
    {
      if name in vars.entries {
        assert parent != null ==> this != parent && this !in parent.Enclosing();
        vars := Bump(vars, name);
        found := true;
        assert parent != null ==> parent.Frames() == old(parent.Frames());
      } else if parent != null {
        ghost var outer := parent.Frames();
        assert old(Frames()) == [vars] + outer;
        assert ([vars] + outer)[1..] == outer;
        IsDefInCons(vars, outer, name);
        found := parent.Ref(name);
        assert Frames() == [vars] + parent.Frames();
      } else {
        found := false;
      }
    }

    /** `noRefs`: this scope's own entries that were never referenced. */
    method NoRefs() returns (norefs: seq<(string, Site)>)
      ensures norefs == Unreferenced(vars)
    {
      var keys := vars.order;
      norefs := [];
      var i := 0;
      while i < |keys| && keys[i] != ""
        invariant 0 <= i <= |keys|
        invariant KeySet(keys[i..]) <= vars.entries.Keys
        invariant norefs + UnreferencedFrom(keys[i..], vars.entries) == Unreferenced(vars)
      {
        var v := vars.entries[keys[i]];
        assert keys[i..][1..] == keys[i + 1..];
        ghost var rest := UnreferencedFrom(keys[i + 1..], vars.entries);
        if v.refs == 0 && v.node.line != -1 {
          assert UnreferencedFrom(keys[i..], vars.entries) == [(keys[i], v.node)] + rest;
          norefs := norefs + [(keys[i], v.node)];
        } else {
          assert UnreferencedFrom(keys[i..], vars.entries) == rest;
        }
        i := i + 1;
      }
      assert UnreferencedFrom(keys[i..], vars.entries) == [];
    }
  }

  lemma IsDefInCons(t: Vars, env: Env, name: string)
    ensures IsDefIn([t] + env, name) <==> name in t.entries || IsDefIn(env, name)
  {
    if name in t.entries {
      assert ([t] + env)[0] == t;
    }
    if IsDefIn(env, name) {
      var k :| 0 <= k < |env| && name in env[k].entries;
      assert ([t] + env)[k + 1] == env[k];
    }
    if IsDefIn([t] + env, name) && name !in t.entries {
      var k :| 0 <= k < |[t] + env| && name in ([t] + env)[k].entries;
      assert env[k - 1] == ([t] + env)[k];
    }
  }
}
