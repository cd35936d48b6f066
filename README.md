# adhint scope analyser in Dafny

adhint is a lint pass for pre-module JavaScript. It runs on Rhino. It parses a source file and builds a chain of lexical scopes: the program, every function, every catch clause. In each scope it runs two passes:

- a **hoisting pass** declares every `var`/`const` declarator and every function-statement name the scope owns;
- a **reference pass** reduces every value-reading operand to a base identifier. That identifier either counts a reference on its nearest declaration or is reported undefined. Nested functions and catch clauses each open a child scope.

When a scope ends, its declarations that were never referenced are reported. Duplicate declarators were already reported by the hoisting pass. `toErrors` renders the three lists of findings as messages.

The project models adhint.js in two layers.

- **Imperative layer (module `Analyzer`).**
  - The `Scope` class keeps its symbol table as a field and points to its parent.
  - The `Parsed` class keeps three append-only lists.
  - The visitors, `addReferenced`, `enterNewScope` and `parse` are methods that update these objects in place.
- **Value layer (module `Semantics`).** The same operations as functions on values: a scope chain as a sequence of tables, and a report as a datatype.

Every method of `Analyzer` is proved to leave the live objects in exactly the state its `Semantics` function computes. The properties adhint.js promises are proved about those functions, in module `Properties`. Module `Examples` works one small program through the whole analysis.

Modules:

- `Wrappers`: `Option`.
- `Ast`: the syntax tree that stands in for Rhino's AST. A node has a kind, a line, its source text and its children in `visit` order.
- `Scopes`: symbol tables (`Vars`) with insertion-ordered keys; scope chains (`Env`) with chained lookup and reference counting; the `Scope` class.
- `Diagnostics`: finding records, the `Report` value, the `Parsed` class, and the message text of `toErrors`.
- `Options`: `defaultOptions`, `mixin`, and the effective global names.
- `Semantics`: the value-level specification of both passes, `enterNewScope` and `parse`.
- `Analyzer`: the imperative analyser, proved against `Semantics`.
- `Properties`: the promised properties, proved.
- `Examples`: `function f(a) { var b = a; return c; }` analysed end to end, for any four distinct non-empty identifiers, where `c` and the empty name are not configured globals.

Behaviour of the code worth knowing:

- **Catch bodies are hoisted into the enclosing scope.** The hoisting visitor has no case for catch clauses (adhint.js:331-360), so it walks into catch bodies. A declarator inside a catch body is therefore declared in the enclosing scope, and again in the catch scope.
- **`checkUnrefType` is never read** (adhint.js:373, 47). The findings are the same whatever `checkUnrefType` holds. `Properties.ParseIgnoresCheckUnrefType` proves this.
- **A function statement's name in the program scope is reported when unused.** The code declares the name of a function statement such as `f` in `function f(a) { var b = a; return c; }` as VAR in the program's scope (adhint.js:346-352). Nothing references `f`, so it is reported unreferenced after `b` (`Examples.ParseExample`).
- **Bitwise and shift operands are not counted.** The operators `| ^ & << >> >>>` have no case in the reference visitor (adhint.js:249-269). Their operands are therefore not counted as references.

## Model

| member | source | states |
|---|---|---|
| Scopes.Define | adhint.js:16-22 | `vars[name] = entry`: the table keeps every key and gains `name`; `name` maps to the new entry; every other entry is unchanged; a new key goes last in key order, an existing key keeps its place |
| Scopes.Bump | adhint.js:33-35 | `v.refs++`: the entry for `name` has one more reference; the keys, the key order and every other entry are unchanged |
| Scopes.Owner | adhint.js:32-35 | `this.vars[name]` through the prototype chain finds the nearest scope that owns `name`: that scope owns it and no nearer one does |
| Scopes.RefIn | adhint.js:32-39 | counting a reference never adds or removes a name in any scope of the chain, and every entry keeps its node and kind and loses no references |
| Scopes.IsDefInCons | adhint.js:24-26 | the chained lookup holds for a scope exactly when the scope owns the name or its parent chain does |
| Scopes.Scope.constructor | adhint.js:11-14 | a new scope has an empty table and the given parent |
| Scopes.Scope.Def | adhint.js:16-22 | `def` replaces only this scope's table, by `Define` with an entry of zero references; ancestors are outside its frame |
| Scopes.Scope.IsDef | adhint.js:24-26 | `isDef(name)` is true exactly when some scope of the chain owns `name` |
| Scopes.Scope.Ref | adhint.js:32-39 | `ref(name)` returns true exactly when `isDef(name)` held, and the chain afterwards is `RefIn` of the chain before |
| Scopes.Scope.NoRefs | adhint.js:41-53 | `noRefs` returns the scope's own entries in key order, up to the first empty key, that have no references and a line other than -1 |
| Diagnostics.Parsed.constructor | adhint.js:93-98 | a new `Parsed` has the file and three empty lists |
| Diagnostics.Parsed.AddUndefined | adhint.js:100-107 | appends one record (name, node text, line, file) to `undefineds`; the other lists are unchanged |
| Diagnostics.Parsed.AddNoReferenced | adhint.js:109-116 | appends one record to `noReferenced`; the other lists are unchanged |
| Diagnostics.Parsed.AddDoubleDefine | adhint.js:118-125 | appends one record to `doubleDefined`; the other lists are unchanged |
| Diagnostics.PushMessages | adhint.js:129-131 | one `forEach` of `toErrors` appends the message of every record, in order, to what was there |
| Diagnostics.Parsed.ToErrors | adhint.js:127-139 | `toErrors` returns `Errors` of the current findings |
| Diagnostics.NumberToStringRoundTrip | adhint.js:130 | the line number rendered in a message reads back as the same number, negative lines included |
| Options.DefaultOptions | adhint.js:362-375 | exactly the keys `defaultGlobal`, `global`, `checkUnrefType`, holding the 17 built-in globals, no names, and `["var", "arg"]` |
| Options.Mixin | adhint.js:377-381 | the merged options have the keys of both; a key of `src` takes `src`'s value; every other key keeps `dest`'s |
| Semantics.DefineArgs | adhint.js:143-145 | declaring the arguments adds exactly their names to the new scope's table |
| Semantics.DefineArgsEntries | adhint.js:143-145 | `def(name, p, ARG)` for each argument: every argument's entry has no references, its own node and kind ARG; a repeated name keeps the entry of its last occurrence; every other entry is unchanged |
| Semantics.Globals | adhint.js:390-392 | one binding per configured global name, in order, each at line -1 |
| Semantics.AddReferencedGrows | adhint.js:74-82 | one `addReferenced` keeps every scope's names, keeps every entry's node and kind without losing references, and only appends findings; a new undefined record names a name the chain does not declare |
| Semantics.AddReferencedAllGrows | adhint.js:74-82 | the same for `addReferenced` on a list of operands |
| Semantics.UnreferencedFromLines | adhint.js:46-49 | no entry reported by `noRefs` cites line -1 |
| Semantics.AddNoReferencedAllGrows | adhint.js:148-150 | reporting entries with real lines appends only noReferenced records with real lines |
| Semantics.LeaveGrows | adhint.js:141-151 | the two passes and the final report of `enterNewScope` compose: the enclosing chain keeps its names and its entries' nodes and kinds, no reference count drops, findings only grow, and no new undefined record names a name the new scope declared |
| Semantics.HoistWalkKeys | adhint.js:331-360 | the hoisting pass adds exactly the hoisted names to the scope's table and appends only doubleDefined records |
| Semantics.EnterScopeGrows | adhint.js:141-151 | `enterNewScope` keeps the enclosing chain's names and its entries' nodes and kinds, never lowers a reference count, and only appends findings; no new undefined record names an argument or a name hoisted into the new scope |
| Semantics.RefVisitGrows | adhint.js:153-329 | one call of the reference visitor keeps every scope's names, keeps every entry's node and kind, never lowers a reference count, and only appends findings |
| Semantics.RefWalkGrows | adhint.js:153-329 | the whole reference pass over a subtree keeps every scope's names, keeps every entry's node and kind, never lowers a reference count, and only appends findings |
| Analyzer.ResolveVariableName | adhint.js:55-72 | the loop over `current` returns the value-level `resolveVariableName` |
| Analyzer.AddReferenced | adhint.js:74-82 | the live chain and findings end as `Semantics.AddReferenced` computes |
| Analyzer.AddReferencedEach | adhint.js:175-188 | `addReferenced` on each operand in order ends as `Semantics.AddReferencedAll` computes |
| Analyzer.HoistVisit | adhint.js:331-360 | the hoisting callback descends exactly when `Semantics.HoistDescends` says, and updates the table and findings as `Semantics.HoistVisit` says |
| Analyzer.HoistWalk | adhint.js:146 | `node.visit(hoistingVisitor)` ends as `Semantics.HoistWalk` computes |
| Analyzer.RefVisit | adhint.js:153-329 | the reference callback descends exactly when `Semantics.RefDescends` says, and ends as `Semantics.RefVisit` computes, nested scopes included |
| Analyzer.RefWalk | adhint.js:147 | `node.visit(referenceVisitor)` ends as `Semantics.RefWalk` computes |
| Analyzer.NewScopeWithArgs | adhint.js:142-145 | a fresh child scope of `scope` whose table holds exactly the argument names, each with no references, the node of its last occurrence and kind ARG |
| Analyzer.ReportUnreferenced | adhint.js:148-150 | each unreferenced entry is reported, in order |
| Analyzer.LeaveScope | adhint.js:148-150 | the findings end as `Semantics.Leave` of the state inside the new scope says, and the enclosing chain is untouched |
| Analyzer.EnterNewScope | adhint.js:141-151 | the enclosing chain and the findings end as `Semantics.EnterScope` computes |
| Analyzer.Parse | adhint.js:383-394 | the findings of `parse` are `Semantics.Parse` of the program, the file and the options |
| Properties.DefIsLocal | adhint.js:24-30 | a name only an ancestor owns is visible from the child but is not the child's own; after a `def` in the child a name is visible there exactly when it is the defined name or was visible already; the enclosing chain is unchanged |
| Properties.RefInUndeclared | adhint.js:32-39 | `ref` of a name no scope declares changes nothing |
| Properties.RefInAt | adhint.js:32-39 | when scope `o` is the first to own `name`, `ref` counts one reference on that entry and changes nothing else |
| Properties.RefInNearest | adhint.js:32-39 | `ref` of a declared name counts one reference on the nearest owner only, so an inner binding shadows an outer one |
| Properties.UnreferencedFromSound | adhint.js:41-53 | each pair the key loop reports is a listed key whose entry has zero references and a line other than -1, paired with its own node |
| Properties.UnreferencedSound | adhint.js:41-53 | `noRefs` reports only this scope's own entries, each unreferenced and with a real line |
| Properties.UnreferencedFromComplete | adhint.js:41-53 | with no empty key, every listed key with zero references and a real line is reported |
| Properties.UnreferencedComplete | adhint.js:41-53 | with no empty name in the scope, `noRefs` reports every own entry that has zero references and a real line |
| Properties.UnreferencedFromOnce | adhint.js:41-53 | the key loop reports no name twice |
| Properties.UnreferencedOnce | adhint.js:41-53 | `noRefs` reports each name at most once |
| Properties.ResolveDotted | adhint.js:55-72 | for `a.b.c`, with Names as properties, the GetProp targets are followed down to `a` |
| Properties.ResolveOnlyNames | adhint.js:55-72 | only a Name or a property access can resolve, never a missing operand; a Name resolves to its own text |
| Properties.AddReferencedEffect | adhint.js:74-82 | for an undeclared name, exactly one undefined record is appended and nothing is counted; for a declared name, one reference is counted on its nearest declaration and nothing is reported; an operand that does not resolve changes nothing |
| Properties.AddReferencedAllUndefineds | adhint.js:74-82 | over a list of operands, the undefined records appended are exactly one per operand that resolves to an undeclared name, in order, with no deduplication; the other lists are unchanged |
| Properties.HoistVisitEffect | adhint.js:331-360 | a declarator defines its name as VAR, and adds one doubleDefined record exactly when the scope already owned that name (a parameter included); a nested function statement redefines its name silently; any other node changes nothing |
| Properties.HoistedStopsAtFunctions | adhint.js:346-355 | a nested function adds at most its own statement name to the enclosing scope, nothing from inside it |
| Properties.HoistedFromKid | adhint.js:331-360 | every child's hoisted names are among those hoisted from its parent's children |
| Properties.HoistedCrossesBlocks | adhint.js:331-360 | hoisting crosses blocks: a child's declarations reach the scope whenever the pass descends into the parent |
| Properties.GlobalsNames | adhint.js:390-392 | the names declared in the program's scope are exactly the configured global names |
| Properties.ParseSound | adhint.js:383-394 | `parse` keeps the file; no configured global and no name hoisted into the program's scope is ever reported undefined, so forward references to hoisted names pass; no unreferenced record cites line -1, so injected globals are never reported |
| Properties.ParseIgnoresCheckUnrefType | adhint.js:373 | the findings do not depend on `checkUnrefType` |
| Properties.MessagesEach | adhint.js:129-137 | the message of each record sits at the record's own position |
| Properties.ErrorsInOrder | adhint.js:127-139 | `toErrors` is the undefined messages, then the unreferenced ones, then the double definitions, each in arrival order, with the sum of the three lengths |
| Examples.HoistFun | adhint.js:331-360 | hoisting a function whose body holds one declarator and a `return` declares exactly the declared name and reports nothing |
| Examples.RefFun | adhint.js:153-329 | in that function, the initialiser's name is counted on its declaration and the returned undeclared name is reported undefined |
| Examples.EnterF | adhint.js:141-151 | entering `f(a)`: `c` is reported undefined, then `b` unreferenced; `a` (referenced once) is not reported |
| Examples.GlobalsTable | adhint.js:390-392 | the program's scope is seeded with exactly the configured global names, each citing line -1 |
| Examples.EnterProgram | adhint.js:383-394 | a program made of one function statement, in a scope seeded with line -1 entries, hoists the function's name into the program's scope and reports it, and only it, unreferenced when that scope ends |
| Examples.ParseExample | adhint.js:383-394 | `parse` of `function f(a) { var b = a; return c; }` under any options whose globals leave out `c` and the empty name: undefined `[c]`, unreferenced `[b, f]`, no double definitions |
| Examples.ParseExampleNames | test/test.js:37-48 | parsed with the default options, as the tests call `parse`, the name lists the tests compare for that program are `[c]`, `[b, f]` and `[]`, provided `c` is not a built-in global |

## Left out

- The Rhino parser and AST API are left out. `Parser().parse`, the `Token` constants, the `instanceof` tests, `toSource` and `getLineno` are foreign Java calls. The tree is an input datatype with one kind per case the visitors tell apart. Every other node is a pass-through `Block`.
- Declarator targets and function parameters are plain identifiers (`Ident`). Destructuring patterns such as `var [a, b] = x;` or `function g({p}) {}` are not modelled. On such trees adhint.js throws a TypeError: at `getTarget().getIdentifier()` in the hoisting visitor (adhint.js:338), and at `p.getIdentifier()` in `enterNewScope` (adhint.js:144).
- Line numbers are model data. A node's line is whatever the tree carries. An injected global is built with `Name(-1, name)`, which Rhino reads as a position; its line is -1 in the model, as the `getLineno() != -1` test in `noRefs` expects.
- `format` is modelled as fixed concatenation around the four fields (`Diagnostics.Message`), not as its regular-expression substitution. The rendered text is the same.
- Integer lines are rendered by `Diagnostics.NumberToString`. JavaScript's rendering of non-integral or huge numbers is left out, because lines are integers.
- `checkUnrefType` filtering is not modelled. The source never consults the option: the filter is commented out in `noRefs`.
- The second `EQ`/`NE`/`SHEQ`/`SHNE` labels in the reference visitor are unreachable. The first ones apply, so the model treats those operators as binary operands only.
- `Scopes.Scope.IsDefThis` (`hasOwnProperty` through `uncurryThis`) is the own-key test on the table. It has no contract of its own; `Properties.DefIsLocal` states the chained-versus-own distinction.
- JavaScript object-key quirks are left out. Integer-like names are enumerated first by `Object.keys` and `__proto__` is special. The model takes key order to be insertion order, and treats every name as an ordinary key.
- Options: `Options.Mixin` returns the merged map instead of overwriting `dest` in place. The only caller uses `dest` afterwards and nothing else, so nothing depends on the aliasing. Only options whose values are lists of strings are modelled.
- `Iterator` and the array comprehension over parameters are modelled as plain ordered sequences.
- `Scopes.Scope.NoRefs`: the source's key loop stops at the first key that is the empty string; the model keeps this. An empty name can only come from a configured global `""`. As a consequence, `Properties.UnreferencedComplete` requires that no name in the scope is empty.
- A `for` loop's missing part is an empty `Block` child rather than Rhino's `EmptyExpression`. Both resolve to no name, so `addReferenced` ignores them alike.
- The test script (test/test.js) and the command-line driver (tools/bin.js) are left out: file reading, regular-expression extraction of expected names, printing and throwing. `Examples.ParseExampleNames` states the comparison the tests make, on one program.
