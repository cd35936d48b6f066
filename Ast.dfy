/**
  The syntax tree the analyser reads, in place of the Rhino AST.  A node has
  a kind (Rhino's token type, refined by the node class where the visitors
  look at it), the line Rhino reports for it, its source text and its child
  nodes in the order Rhino's `visit` walks them.  What a kind's children mean
  is fixed per kind and written next to it below; the data that is not a
  node (a parameter list, an operator, a declared name) sits in the kind.
  Every kind the two visitors of adhint.js do not tell apart (statement
  blocks, expression statements without a result, declaration lists,
  literals, `this`, object literals, `try`, ...) is a `Block`, which both
  visitors pass through.
*/
module Ast {
  import opened Wrappers

  /**
    A Name node in declaring position: a formal parameter, a function's own
    name, a catch variable or a declarator's target.  Its identifier is its
    source text.  Such nodes have no case in either visitor and no children,
    so the walks never need to visit them.
  */
  datatype Ident = Ident(line: int, src: string)

  /** The infix operators Rhino represents as binary expressions. */
  datatype BinaryOp =
    | Add | And | Comma | Div | Ge | Gt | In | InstanceOf | Le | Lt | Mod | Mul
    | Or | Sub | Eq | Ne | ShEq | ShNe
    | BitOr | BitXor | BitAnd | Lsh | Rsh | Ursh

  datatype Kind =
    /** an identifier in expression position; its source text is the name */
    | Name
    /** `target.property`: children [target, property] */
    | GetProp
    /** `target[element]`: children [target, element] */
    | GetElem
    /** `=` and every compound assignment `|= ^= &= <<= >>= >>>= += -= *= /= %=`: [left, right] */
    | Assign
    /** an array literal: its elements */
    | ArrayLit
    /** a call, or a `new` expression when `isNew`: [target] + arguments */
    | Call(isNew: bool)
    /** `test ? ifTrue : ifFalse`: [test, ifTrue, ifFalse] */
    | Hook
    /** an expression statement of kind EXPR_RESULT: [expression] */
    | ExprResult
    /** a `case` clause: [label] + statements, or only statements for `default:` */
    | Case(isDefault: bool)
    /** a `switch`: [discriminant] + case clauses */
    | Switch
    /** `throw`: [expression] */
    | Throw
    /** `for (init; cond; incr) body`: [init, cond, incr, body]; a missing part is an empty Block */
    | For
    /** `for (each in iterated) body`: [each, iterated, body] */
    | ForIn
    /** `if`: [cond, then] or [cond, then, else] */
    | If
    /** `while (cond) body`: [cond, body] */
    | While
    /** `do body while (cond)`: [body, cond] */
    | Do
    /** a property `key: value` of an object literal: [key, value] */
    | Colon
    /** `return`: [] or [value] */
    | Return
    /** a binary expression: [left, right] */
    | Binary(op: BinaryOp)
    /** `! ~ + - void typeof delete ++ --`, prefix or postfix: [operand] */
    | Unary
    /** one declarator `declared = initializer` of a `var` or `const` declaration: [] or [initializer] */
    | VarInit(declared: Ident)
    /** a function statement (`isStatement`) or a function expression: [body] */
    | Function(params: seq<Ident>, name: Option<Ident>, isStatement: bool)
    /** `catch (param) body`: [body] */
    | Catch(param: Ident)
    /** any other node: its children */
    | Block

  datatype Node = Node(kind: Kind, line: int, src: string, kids: seq<Node>)

  /** The child at position `i`, if the node has one there. */
  function Kid(n: Node, i: nat): (k: Option<Node>)
    ensures k.Some? <==> i < |n.kids|
    ensures k.Some? ==> k.value == n.kids[i] && k.value < n
  {
    if i < |n.kids| then Some(n.kids[i]) else None
  }
}
