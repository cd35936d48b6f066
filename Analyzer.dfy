/**
  The analyser as adhint.js runs it: the visitors update a live `Scope` chain
  and a `Parsed` object in place, while Rhino's `visit` walks the tree.  Each
  method is proved to leave the scope chain and the findings in the state the
  matching function of module Semantics computes from the state before.
*/
module Analyzer {
  import opened Wrappers
  import opened Ast
  import opened Scopes
  import opened Diagnostics
  import opened Options
  import Semantics

  /** The scopes a scope's methods may touch: itself and every ancestor. */
  ghost function Chain(s: Scope?): set<Scope>
  {
    if s == null then {} else {s} + s.Enclosing()
  }

  /** The tables of a possibly absent scope chain, innermost first. */
  ghost function FramesOf(s: Scope?): Env
    requires s != null ==> s.ChainOk()
    reads Chain(s)
  {
    if s == null then [] else s.Frames()
  }

  /** The live scope chain and findings, read as a value. */
  ghost function Snapshot(s: Scope?, parsed: Parsed): Semantics.State
    requires s != null ==> s.ChainOk()
    reads Chain(s), parsed
  {
    Semantics.State(FramesOf(s), parsed.Contents())
  }

  /** The scope's own table and the findings, as the hoisting pass sees them. */
  ghost function Hoist(scope: Scope, parsed: Parsed): Semantics.Hoisting
    reads scope, parsed
  {
    Semantics.Hoisting(scope.vars, parsed.Contents())
  }

  /** `resolveVariableName`: follow property-access targets down to a Name. */
  method ResolveVariableName(node: Option<Node>) returns (name: Option<string>)
    ensures name == Semantics.ResolveVariableName(node)
  {
    if node.None? {
      return None;
    }
    var current := node.value;
    while true
      invariant Semantics.ResolveNode(current) == Semantics.ResolveVariableName(node)
      decreases current
    {
      match current.kind
      case GetProp =>
        if |current.kids| == 2 && current.kids[1].kind.Name? {
          current := current.kids[0];
        } else {
          return None;
        }
      case Name =>
        return Some(current.src);
      case _ =>
        return None;
    }
  }

  /** `addReferenced` */
  method AddReferenced(parsed: Parsed, node: Option<Node>, scope: Scope)
    requires scope.ChainOk()
    modifies parsed, Chain(scope)
    ensures Snapshot(scope, parsed) == Semantics.AddReferenced(node, old(Snapshot(scope, parsed)))
  {
    ghost var st := Snapshot(scope, parsed);
    var varName := ResolveVariableName(node);
    if varName.Some? && varName.value != "" {
      if !scope.IsDef(varName.value) {
        parsed.AddUndefined(varName.value, Semantics.SiteOf(node.value));
      }
      assert scope.Frames() == st.env;
      assert parsed.Contents() == Semantics.AddReferenced(node, st).out;
      var _ := scope.Ref(varName.value);
      assert FramesOf(scope) == RefIn(st.env, varName.value);
    }
  }

  /** `addReferenced` on each operand in order. */
  method AddReferencedEach(parsed: Parsed, operands: seq<Option<Node>>, scope: Scope)
    requires scope.ChainOk()
    modifies parsed, Chain(scope)
    ensures Snapshot(scope, parsed) == Semantics.AddReferencedAll(operands, old(Snapshot(scope, parsed)))
  {
    ghost var start := Snapshot(scope, parsed);
    for i := 0 to |operands|
      invariant Semantics.AddReferencedAll(operands[i..], Snapshot(scope, parsed))
             == Semantics.AddReferencedAll(operands, start)
    {
      assert operands[i..][1..] == operands[i + 1..];
      AddReferenced(parsed, operands[i], scope);
    }
  }

  /** The callback of `buildHoistingVisitoer(rootNode, scope, parsed)`, applied to `node`. */
  method HoistVisit(rootNode: Node, scope: Scope, parsed: Parsed, node: Node) returns (descend: bool)
    modifies scope, parsed
    ensures descend == Semantics.HoistDescends(node, rootNode)
    ensures Hoist(scope, parsed) == Semantics.HoistVisit(node, rootNode, old(Hoist(scope, parsed)))
  {
    descend := true;
    if node.kind.VarInit? {
      var identName := node.kind.declared.src;
      if scope.IsDefThis(identName) {
        parsed.AddDoubleDefine(identName, Semantics.SiteOf(node));
      }
      scope.Def(identName, Semantics.SiteOf(node), Var);
    } else if node.kind.Function? {
      if rootNode != node {
        var fnName := node.kind.name;
        if fnName.Some? {
          if node.kind.isStatement {
            scope.Def(fnName.value.src, Semantics.SiteOfIdent(fnName.value), Var);
          }
        }
        descend := false;
      }
    }
  }

  /** `node.visit(buildHoistingVisitoer(rootNode, scope, parsed))` */
  method HoistWalk(rootNode: Node, scope: Scope, parsed: Parsed, node: Node)
    modifies scope, parsed
    ensures Hoist(scope, parsed) == Semantics.HoistWalk(node, rootNode, old(Hoist(scope, parsed)))
    decreases node
  {
    var descend := HoistVisit(rootNode, scope, parsed, node);
    if descend {
      var children := node.kids;
      ghost var start := Hoist(scope, parsed);
      for i := 0 to |children|
        invariant Semantics.HoistWalkFrom(node, i, rootNode, Hoist(scope, parsed))
               == Semantics.HoistWalkFrom(node, 0, rootNode, start)
      {
        HoistWalk(rootNode, scope, parsed, children[i]);
      }
    }
  }

  /** The callback of `buildVisitor(rootNode, scope, parsed)`, applied to `node`. */
  method RefVisit(rootNode: Node, scope: Scope, parsed: Parsed, node: Node) returns (descend: bool)
    requires scope.ChainOk()
    modifies parsed, Chain(scope)
    ensures descend == Semantics.RefDescends(node, rootNode)
    ensures Snapshot(scope, parsed) == Semantics.RefVisit(node, rootNode, old(Snapshot(scope, parsed)))
    decreases node, if node == rootNode then 1 else 4
  {
    descend := true;
    if node.kind.Function? && rootNode != node {
      var args := node.kind.params;
      var fnName := node.kind.name;
      if fnName.Some? {
        if !node.kind.isStatement {
          args := args + [fnName.value];
        }
      }
      assert args == Semantics.ScopeArgs(node);
      EnterNewScope(node, scope, parsed, args);
      descend := false;
    } else if node.kind.Catch? && rootNode != node {
      var args := [node.kind.param];
      assert args == Semantics.ScopeArgs(node);
      EnterNewScope(node, scope, parsed, args);
      descend := false;
    } else {
      // every other case of the switch: `addReferenced` on the node kind's operands
      AddReferencedEach(parsed, Semantics.Operands(node), scope);
    }
  }

  /** `node.visit(buildVisitor(rootNode, scope, parsed))` */
  method RefWalk(rootNode: Node, scope: Scope, parsed: Parsed, node: Node)
    requires scope.ChainOk()
    modifies parsed, Chain(scope)
    ensures Snapshot(scope, parsed) == Semantics.RefWalk(node, rootNode, old(Snapshot(scope, parsed)))
    decreases node, if node == rootNode then 2 else 5
  {
    var descend := RefVisit(rootNode, scope, parsed, node);
    if descend {
      var children := node.kids;
      ghost var start := Snapshot(scope, parsed);
      for i := 0 to |children|
        invariant Semantics.RefWalkFrom(node, i, rootNode, Snapshot(scope, parsed))
               == Semantics.RefWalkFrom(node, 0, rootNode, start)
      {
        RefWalk(rootNode, scope, parsed, children[i]);
      }
    }
  }

  /** The first lines of `enterNewScope`: a child scope of `scope` holding `args` as ARG. */
  method NewScopeWithArgs(scope: Scope?, args: seq<Ident>) returns (newScope: Scope)
    requires scope != null ==> scope.ChainOk()
    ensures fresh(newScope) && newScope.ChainOk() && newScope.parent == scope
    ensures newScope.vars == Semantics.DefineArgs(NoVars, args)
    ensures newScope.vars.entries.Keys == Semantics.ArgNames(args)
    ensures forall k :: k in Semantics.ArgNames(args) ==>
      newScope.vars.entries[k] == Entry(0, Semantics.SiteOfIdent(args[Semantics.LastArg(args, k)]), Arg)
  {
    newScope := new Scope(scope);
    for i := 0 to |args|
      invariant Semantics.DefineArgs(newScope.vars, args[i..]) == Semantics.DefineArgs(NoVars, args)
    {
      assert args[i..][1..] == args[i + 1..];
      newScope.Def(args[i].src, Semantics.SiteOfIdent(args[i]), Arg);
    }
    assert args[|args|..] == [];
    Semantics.DefineArgsEntries(NoVars, args);
  }

  /** The last line of `enterNewScope`: the new scope's unreferenced entries, reported in order. */
  method LeaveScope(scope: Scope?, newScope: Scope, parsed: Parsed)
    requires newScope.ChainOk() && newScope.parent == scope
    modifies parsed
    ensures Snapshot(scope, parsed) == Semantics.Leave(old(Snapshot(newScope, parsed)))
  {
    assert newScope.Frames()[1..] == FramesOf(scope);
    var norefs := newScope.NoRefs();
    ReportUnreferenced(parsed, norefs);
    assert unchanged(Chain(scope));
  }

  /** Report each unreferenced entry, in order. */
  method ReportUnreferenced(parsed: Parsed, norefs: seq<(string, Site)>)
    modifies parsed
    ensures parsed.Contents() == Semantics.AddNoReferencedAll(norefs, old(parsed.Contents()))
  {
    ghost var start := parsed.Contents();
    for i := 0 to |norefs|
      invariant Semantics.AddNoReferencedAll(norefs[i..], parsed.Contents())
             == Semantics.AddNoReferencedAll(norefs, start)
    {
      assert norefs[i..][1..] == norefs[i + 1..];
      parsed.AddNoReferenced(norefs[i].0, norefs[i].1);
    }
    assert norefs[|norefs|..] == [];
  }

  /**
    `enterNewScope(node, scope, parsed, args)`: a child scope of `scope`
    holding `args`, both passes over `node` in it, then its unreferenced
    entries reported.  The enclosing chain ends as Semantics.EnterScope says.
  */
  method EnterNewScope(node: Node, scope: Scope?, parsed: Parsed, args: seq<Ident>)
    requires scope != null ==> scope.ChainOk()
    modifies parsed, Chain(scope)
    ensures Snapshot(scope, parsed) == Semantics.EnterScope(node, args, old(Snapshot(scope, parsed)))
    decreases node, 3
  {
    ghost var st := Snapshot(scope, parsed);
    var newScope := NewScopeWithArgs(scope, args);
    HoistWalk(node, newScope, parsed, node);
    assert newScope.Frames() == [newScope.vars] + st.env;
    RefWalk(node, newScope, parsed, node);
    LeaveScope(scope, newScope, parsed);
  }

  /** `parse`: the program's scope, seeded with the configured globals, on a fresh `Parsed`. */
  method Parse(program: Node, file: string, options: Option<Options>) returns (parsed: Parsed)
    ensures parsed.Contents() == Semantics.Parse(program, file, options)
  {
    parsed := new Parsed(file);
    var opts := DefaultOptions();
    if options.Some? {
      opts := Mixin(opts, options.value);
    }
    EnterNewScope(program, null, parsed, Semantics.Globals(opts[DefaultGlobalKey] + opts[GlobalKey]));
  }
}
