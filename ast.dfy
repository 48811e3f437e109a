/**
 * The syntax tree both passes walk. Every identifier occurrence carries a slot
 * for the `ScopedId` the name pass gives it; `None` is the unassigned state the
 * parser leaves behind.
 */
module Ast {
  import opened Wrappers
  import opened ScopedIds
  import Types

  datatype Identifier = Identifier(name: string, id: Option<Id>)

  datatype LiteralValue = BoolLiteral(b: bool) | FloatLiteral(f: real) | UnitLiteral

  /** The operator enumeration shared by unary and binary operations. */
  datatype Operator =
    | Addition | Subtraction | Multiplication | Division | Modulus
    | Equality | NonEquality
    | LessThan | GreaterThan | LessThanEquals | GreaterThanEquals
    | Custom

  datatype Expr =
    | Literal(literal: LiteralValue)
    | VarRef(ident: Identifier)
    | UnaryOp(op: Operator, inner: Expr)
    | BinaryOp(op: Operator, left: Expr, right: Expr)
    | IfExpr(condition: Expr, trueExpr: Expr, elseExpr: Expr)
    | FnCall(callee: Identifier, args: FnCallArgs)
    | Assignment(lvalue: Identifier, rvalue: Expr)
      /** `let name[: type] = value`; the annotation is given as the type it names. */
    | Declaration(ident: Identifier, typeDecl: Option<Types.ConcreteType>, value: Expr)

  /** A call takes either one bare expression or a list of named arguments. */
  datatype FnCallArgs = SingleExpr(expr: Expr) | Arguments(args: seq<CallArgument>)

  /** `name: value`, or the implicit-name shorthand `name` (a local of the same name) when `value` is None. */
  datatype CallArgument = CallArgument(name: Identifier, value: Option<Expr>)

  datatype Stmt =
    | ExprStmt(expr: Expr)
    | DoStmt(block: Block)
    | IfStmt(ifBlock: IfBlock)
    | ReturnStmt(value: Option<Expr>)

  datatype Block = Block(id: Option<Id>, stmts: seq<Stmt>)

  datatype Conditional = Conditional(condition: Expr, block: Block)

  /** `if c1 => b1 else if c2 => b2 ... else b`; `typeNode` is the block's own type node. */
  datatype IfBlock = IfBlock(id: Option<Id>, typeNode: nat, conditionals: seq<Conditional>, elseBlock: Option<Block>)

  datatype Param = Param(ident: Identifier, ty: Types.ConcreteType)

  datatype FnDeclaration = FnDeclaration(ident: Identifier, params: seq<Param>, returnType: Types.ConcreteType, block: Block)

  datatype Unit = Unit(items: seq<FnDeclaration>)

  /** The id read from a slot: `get_id()` on an unassigned slot yields the default id. */
  function SlotId(slot: Option<Id>): Id
  {
    if slot.Some? then slot.value else DefaultId
  }
}
