/**
 * The type-equation pass (`ExprTypeChecker`) as functions of its state: the
 * store, the result register (`current_type`) and the lvalue stack. Each
 * function returns the state after the visit, or `Fatal` when the visit
 * reaches the source's `unreachable!` (an operator the checker does not
 * handle); a fatal visit aborts the whole pass and is not a collected error.
 * The class in expr_checker.dfy is proved to compute exactly these functions.
 *
 * One constant is kept in an as-written form beside the form the rest of the
 * model uses (see README, Findings): the result type of `==` and `!=`.
 */
module ExprTyping {
  import opened Wrappers
  import opened ScopedIds
  import opened Types
  import opened TypeScopes
  import opened Ast

  /**
   * What the pass reads and never writes: the function types the item pass
   * recorded, and the node of the enclosing function's return type
   * (`return_ty_id`, which the checker never assigns).
   */
  datatype TEnv = TEnv(types: map<Id, ConcreteType>, returnNode: nat)

  /** The store, the result register, and the lvalue stack. */
  datatype TState = TState(scope: TypeScope, current: nat, lvalues: seq<nat>)

  /** A visit either finishes with a new state or reaches `unreachable!` on an operator. */
  datatype Visited = Done(st: TState) | Fatal(op: Operator)

  /** A visit of named call arguments: the new state and the parameter map filled so far. */
  datatype ArgsVisited = ArgsDone(st: TState, params: map<string, InferredType>) | ArgsFatal(op: Operator)

  /** `is_default()` on the id read from a slot. */
  predicate IsDefault(slot: Option<Id>)
  {
    SlotId(slot) == DefaultId
  }

  function Node(st: TState, id: Id): (TState, nat)
  {
    (st.(scope := GetNode(st.scope, id).0), GetNode(st.scope, id).1)
  }

  function Fresh(st: TState): (TState, nat)
  {
    (st.(scope := FreshNode(st.scope).0), FreshNode(st.scope).1)
  }

  function Equate(st: TState, lhs: nat, rhs: InferredType): TState
  {
    st.(scope := WithEquation(st.scope, lhs, rhs))
  }

  function Tag(st: TState, node: nat, source: InferenceSource): TState
  {
    st.(scope := WithSource(st.scope, node, source))
  }

  /** An equation on `lhs` followed by a source on the same node: the pair most visits add. */
  function Constrain(st: TState, lhs: nat, rhs: InferredType, source: InferenceSource): TState
  {
    Tag(Equate(st, lhs, rhs), lhs, source)
  }

  function KnownPrimitive(p: Primitive): InferredType
  {
    Known(Primitive(p))
  }

  /** The type a literal is given: booleans are `bool`, numbers `int`, `()` is unit. */
  function LiteralPrimitive(v: LiteralValue): Primitive
  {
    match v
    case BoolLiteral(_) => Bool
    case FloatLiteral(_) => Int
    case UnitLiteral => Unary
  }

  /** A fresh node constrained to a primitive, which becomes the register's node. */
  function FreshResult(st: TState, p: Primitive, source: InferenceSource): TState
  {
    var s1, n := Fresh(st).0, Fresh(st).1;
    Constrain(s1, n, KnownPrimitive(p), source).(current := n)
  }

  /** `visit_literal_expr`: a fresh node, its one equation and its source; the register takes the node. */
  function TypeLiteral(st: TState, v: LiteralValue): TState
  {
    FreshResult(st, LiteralPrimitive(v), InferenceSource.LiteralValue)
  }

  /** `visit_var_ref`: a resolved reference puts its variable's node in the register; an unresolved one does nothing. */
  function TypeVarRef(st: TState, ident: Identifier): TState
  {
    if IsDefault(ident.id) then st
    else
      var s1, n := Node(st, SlotId(ident.id)).0, Node(st, SlotId(ident.id)).1;
      s1.(current := n)
  }

  /** The tail of unary `+` and `-`: the operand and a fresh result are numeric. */
  function NumericUnary(st: TState): TState
  {
    FreshResult(Constrain(st, st.current, KnownPrimitive(Int), NumericOperator), Int, NumericOperator)
  }

  predicate IsArithmetic(op: Operator)
  {
    op == Addition || op == Subtraction || op == Multiplication || op == Division || op == Modulus
  }

  predicate IsComparison(op: Operator)
  {
    op == LessThan || op == GreaterThan || op == LessThanEquals || op == GreaterThanEquals
  }

  predicate IsEquality(op: Operator)
  {
    op == Equality || op == NonEquality
  }

  /** The type of a binary operation's result: `bool` for comparisons and (in)equality, `int` for arithmetic. */
  function ResultPrimitive(op: Operator): Primitive
  {
    if IsArithmetic(op) then Int else Bool
  }

  /** As written, `==` and `!=` constrain their result to `int`. */
  function ResultPrimitiveAsWritten(op: Operator): Primitive
  {
    if IsArithmetic(op) || IsEquality(op) then Int else Bool
  }

  function ResultSource(op: Operator): InferenceSource
  {
    if IsEquality(op) then EqualityOperator
    else if IsComparison(op) then BooleanOperator
    else NumericOperator
  }

  /** The operands of a binary operation: equated both ways for (in)equality, numeric otherwise. */
  function OperandConstraints(st: TState, op: Operator, left: nat, right: nat): TState
  {
    if IsEquality(op) then
      Constrain(Constrain(st, left, Variable(right), EqualityOperator), right, Variable(left), EqualityOperator)
    else
      Constrain(Constrain(st, left, KnownPrimitive(Int), NumericOperator), right, KnownPrimitive(Int), NumericOperator)
  }

  /**
   * The tail of `visit_binary_op` once both operands are visited, with the
   * result type given: the operands' constraints, then a fresh result node.
   * `Custom` is fatal.
   */
  function BinaryWith(st: TState, op: Operator, left: nat, right: nat, result: Primitive): Visited
  {
    if op == Custom then Fatal(Custom)
    else Done(FreshResult(OperandConstraints(st, op, left, right), result, ResultSource(op)))
  }

  function BinaryTail(st: TState, op: Operator, left: nat, right: nat): Visited
  {
    BinaryWith(st, op, left, right, ResultPrimitive(op))
  }

  function BinaryTailAsWritten(st: TState, op: Operator, left: nat, right: nat): Visited
  {
    BinaryWith(st, op, left, right, ResultPrimitiveAsWritten(op))
  }

  /** The tail of `visit_if_expr`: the branches are equated and both are tagged. */
  function IfBranches(st: TState, left: nat, right: nat): TState
  {
    Tag(Constrain(st, left, Variable(right), IfBranchesSame), right, IfBranchesSame)
  }

  /** The tail of `visit_fn_call`: the callee's node is a function of the arguments returning the fresh result. */
  function CallTail(st: TState, callee: Identifier, params: map<string, InferredType>, result: nat): TState
  {
    var s1, fnNode := Node(st, SlotId(callee.id)).0, Node(st, SlotId(callee.id)).1;
    Tag(Equate(s1, fnNode, Fn(params, Variable(result))), result, CallReturnType).(current := result)
  }

  function TypeExpr(env: TEnv, st: TState, e: Expr): Visited
    decreases e, 1
  {
    match e
    case Literal(v) => Done(TypeLiteral(st, v))
    case VarRef(ident) => Done(TypeVarRef(st, ident))
    case UnaryOp(op, inner) => TypeUnary(env, st, op, inner)
    case BinaryOp(op, left, right) => TypeBinary(env, st, op, left, right)
    case IfExpr(c, t, f) => TypeIfExpr(env, st, c, t, f)
    case FnCall(callee, args) => TypeFnCall(env, st, callee, args)
    case Assignment(lvalue, rvalue) => TypeAssignment(env, st, lvalue, rvalue)
    case Declaration(ident, ty, value) => TypeDeclaration(env, st, ident, ty, value)
  }

  /** `visit_unary_op`: `+` and `-` make the operand and a fresh result numeric; any other operator is fatal. */
  function TypeUnary(env: TEnv, st: TState, op: Operator, inner: Expr): Visited
    decreases UnaryOp(op, inner), 0
  {
    if op != Addition && op != Subtraction then Fatal(op)
    else
      var v := TypeExpr(env, st, inner);
      if v.Fatal? then v else Done(NumericUnary(v.st))
  }

  /** `visit_binary_op`: the left operand, the right operand, then the operator's constraints. */
  function TypeBinary(env: TEnv, st: TState, op: Operator, left: Expr, right: Expr): Visited
    decreases BinaryOp(op, left, right), 0
  {
    var v1 := TypeExpr(env, st, left);
    if v1.Fatal? then v1
    else
      var v2 := TypeExpr(env, v1.st, right);
      if v2.Fatal? then v2 else BinaryTail(v2.st, op, v1.st.current, v2.st.current)
  }

  /**
   * `visit_if_expr`: the register is reset, the condition is made `bool`,
   * and the two branches are equated; the register ends on the else branch.
   */
  function TypeIfExpr(env: TEnv, st: TState, c: Expr, t: Expr, f: Expr): Visited
    decreases IfExpr(c, t, f), 0
  {
    var v1 := TypeExpr(env, st.(current := DefaultNode), c);
    if v1.Fatal? then v1
    else
      var s1 := Constrain(v1.st, v1.st.current, KnownPrimitive(Bool), IfConditionalBool);
      var v2 := TypeExpr(env, s1, t);
      if v2.Fatal? then v2
      else
        var v3 := TypeExpr(env, v2.st, f);
        if v3.Fatal? then v3 else Done(IfBranches(v3.st, v2.st.current, v3.st.current))
  }

  /**
   * `visit_fn_call`: skipped when the callee has no id. Otherwise a fresh
   * result node is taken first, the arguments are visited, and the callee's
   * node is equated with a function of those arguments returning the result.
   */
  function TypeFnCall(env: TEnv, st: TState, callee: Identifier, args: FnCallArgs): Visited
    decreases FnCall(callee, args), 0
  {
    if IsDefault(callee.id) then Done(st)
    else
      var s1, result := Fresh(st).0, Fresh(st).1;
      var a := TypeCallArgs(env, s1, args);
      if a.ArgsFatal? then Fatal(a.op) else Done(CallTail(a.st, callee, a.params, result))
  }

  /** `visit_assignment`: skipped when the target has no id; the target's node is equated with the value's. */
  function TypeAssignment(env: TEnv, st: TState, lvalue: Identifier, rvalue: Expr): Visited
    decreases Assignment(lvalue, rvalue), 0
  {
    if IsDefault(lvalue.id) then Done(st)
    else
      var s1, lnode := Node(st, SlotId(lvalue.id)).0, Node(st, SlotId(lvalue.id)).1;
      var v := TypeExpr(env, s1, rvalue);
      if v.Fatal? then v
      else Done(Constrain(v.st, lnode, Variable(v.st.current), AssignmentSource).(current := DefaultNode))
  }

  /** The node a declaration binds, with its annotation's constraint when there is one. */
  function DeclaredNode(st: TState, ident: Identifier, ty: Option<ConcreteType>): (TState, nat)
  {
    var s1, vnode := Node(st, SlotId(ident.id)).0, Node(st, SlotId(ident.id)).1;
    (if ty.Some? then Constrain(s1, vnode, Known(ty.value), ExplicitDecl) else s1, vnode)
  }

  /** `visit_declaration`: the variable's node is its annotation (if any) and the initializer's node. */
  function TypeDeclaration(env: TEnv, st: TState, ident: Identifier, ty: Option<ConcreteType>, value: Expr): Visited
    decreases Declaration(ident, ty, value), 0
  {
    var s1, vnode := DeclaredNode(st, ident, ty).0, DeclaredNode(st, ident, ty).1;
    var v := TypeExpr(env, s1, value);
    if v.Fatal? then v
    else Done(Constrain(v.st, vnode, Variable(v.st.current), DeclarationSource).(current := DefaultNode))
  }

  /** A single bare argument is keyed by the empty name; named arguments by their names. */
  function TypeCallArgs(env: TEnv, st: TState, args: FnCallArgs): ArgsVisited
    decreases args
  {
    match args
    case SingleExpr(e) =>
      var v := TypeExpr(env, st, e);
      if v.Fatal? then ArgsFatal(v.op)
      else ArgsDone(Tag(v.st, v.st.current, InferenceSource.CallArgument), map["" := Variable(v.st.current)])
    case Arguments(list) => TypeArgumentList(env, st, list, map[])
  }

  /** One named argument: its value, or for the implicit-name form the local variable it names. */
  function TypeArgument(env: TEnv, st: TState, arg: CallArgument): Visited
    decreases arg
  {
    if arg.value.Some? then TypeExpr(env, st, arg.value.value) else Done(TypeVarRef(st, arg.name))
  }

  /** The argument loop, filling `params` in place: a later argument of the same name replaces an earlier one. */
  function TypeArgumentList(env: TEnv, st: TState, list: seq<CallArgument>, params: map<string, InferredType>): ArgsVisited
    decreases list
  {
    if list == [] then ArgsDone(st, params)
    else
      var v := TypeArgument(env, st, list[0]);
      if v.Fatal? then ArgsFatal(v.op)
      else
        var node := v.st.current;
        TypeArgumentList(env, Tag(v.st, node, InferenceSource.CallArgument), list[1..], params[list[0].name.name := Variable(node)])
  }

  function TypeStmt(env: TEnv, st: TState, s: Stmt): Visited
    decreases s
  {
    match s
    case ExprStmt(e) => TypeExpr(env, st, e)
    case DoStmt(b) => TypeBlock(env, st, b)
    case IfStmt(ib) => TypeIfBlock(env, st, ib)
    case ReturnStmt(value) => TypeReturn(env, st, value)
  }

  function TypeStmts(env: TEnv, st: TState, stmts: seq<Stmt>): Visited
    decreases stmts
  {
    if stmts == [] then Done(st)
    else
      var v := TypeStmt(env, st, stmts[0]);
      if v.Fatal? then v else TypeStmts(env, v.st, stmts[1..])
  }

  /** `visit_block`: a block whose id is default is skipped. */
  function TypeBlock(env: TEnv, st: TState, b: Block): Visited
    decreases b
  {
    if IsDefault(b.id) then Done(st) else TypeStmts(env, st, b.stmts)
  }

  /** Before a typed arm: the if-block's node goes on the lvalue stack and the register is reset. */
  function EnterArm(st: TState, typed: bool, node: nat): TState
  {
    if typed then st.(lvalues := st.lvalues + [node], current := DefaultNode) else st
  }

  /** One `if` or `else if` arm: the condition is made `bool`, the register is reset, then the block is visited. */
  function TypeArm(env: TEnv, st: TState, arm: Conditional, typed: bool, node: nat): Visited
    decreases arm
  {
    var v := TypeExpr(env, st, arm.condition);
    if v.Fatal? then v
    else
      var s1 := Constrain(v.st, v.st.current, KnownPrimitive(Bool), IfConditionalBool).(current := DefaultNode);
      TypeBlock(env, EnterArm(s1, typed, node), arm.block)
  }

  /** The `if` and `else if` arms, in order. */
  function TypeConditionals(env: TEnv, st: TState, cs: seq<Conditional>, typed: bool, node: nat): Visited
    decreases cs
  {
    if cs == [] then Done(st)
    else
      assert cs[0] in cs;
      var v := TypeArm(env, st, cs[0], typed, node);
      if v.Fatal? then v else TypeConditionals(env, v.st, cs[1..], typed, node)
  }

  /**
   * `visit_if_block`: skipped when its id is default; typed (its arms push
   * its node and it leaves its node in the register) only when it has an
   * else arm and the lvalue stack is non-empty.
   */
  function TypeIfBlock(env: TEnv, st: TState, ib: IfBlock): Visited
    decreases ib
  {
    if IsDefault(ib.id) then Done(st)
    else
      var typed := ib.elseBlock.Some? && st.lvalues != [];
      var v := TypeConditionals(env, st, ib.conditionals, typed, ib.typeNode);
      if v.Fatal? then v
      else
        var v2 := if ib.elseBlock.Some? then TypeBlock(env, EnterArm(v.st, typed, ib.typeNode), ib.elseBlock.value) else v;
        if v2.Fatal? then v2
        else Done(if typed then v2.st.(current := ib.typeNode) else v2.st)
  }

  /**
   * `visit_return_stmt`: a valueless return makes the return node unit; a
   * valued one equates the return node with the value's node unless the
   * return node is default. The source is recorded either way.
   */
  function TypeReturn(env: TEnv, st: TState, value: Option<Expr>): Visited
    decreases value
  {
    var s0 := st.(current := DefaultNode);
    if value.None? then Done(Constrain(s0, env.returnNode, KnownPrimitive(Unary), ExplicitReturn))
    else
      var v := TypeExpr(env, s0, value.value);
      if v.Fatal? then v
      else if env.returnNode != DefaultNode then Done(Constrain(v.st, env.returnNode, Variable(v.st.current), ExplicitReturn))
      else Done(Tag(v.st, env.returnNode, ExplicitReturn))
  }

  /** The parameter loop of `visit_block_fn_decl`: each parameter's node is its declared type. */
  function TypeParams(st: TState, ps: seq<Param>): TState
    decreases ps
  {
    if ps == [] then st
    else
      var s1, n := Node(st, SlotId(ps[0].ident.id)).0, Node(st, SlotId(ps[0].ident.id)).1;
      TypeParams(Constrain(s1, n, Known(ps[0].ty), FnParameter), ps[1..])
  }

  /** The signature part of `visit_block_fn_decl`: the function's node is its recorded type, then the parameters. */
  function FnSignature(st: TState, fnId: Id, ty: ConcreteType, ps: seq<Param>): TState
  {
    var s1, fnNode := Node(st, fnId).0, Node(st, fnId).1;
    TypeParams(Constrain(s1, fnNode, Known(ty), FunctionSignature), ps)
  }

  /**
   * `visit_block_fn_decl`: skipped when the function's id is default or no
   * type was recorded for it. Otherwise the function's node is its recorded
   * type, each parameter's node its declared type, the block is visited, and
   * unless the declared return type is `()` the register's node (the block's
   * last value) is made the return type.
   */
  function TypeFnDecl(env: TEnv, st: TState, f: FnDeclaration): Visited
  {
    var fnId := SlotId(f.ident.id);
    if fnId == DefaultId || fnId !in env.types then Done(st)
    else
      var v := TypeBlock(env, FnSignature(st, fnId, env.types[fnId], f.params), f.block);
      if v.Fatal? then v
      else if f.returnType != Primitive(Unary) then Done(Constrain(v.st, v.st.current, Known(f.returnType), ImplicitReturn))
      else v
  }

  // Which trees the walk completes: it stops (`unreachable!`) exactly on a
  // unary operator other than `+` and `-`, or on `Custom` as a binary
  // operator, that it reaches. A call with an unresolved callee, an
  // assignment to an unresolved name, a block or if-block without an id, and
  // a function without a recorded type are skipped, so what is inside them
  // is never reached.

  predicate HandlesExpr(e: Expr)
    decreases e
  {
    match e
    case Literal(_) => true
    case VarRef(_) => true
    case UnaryOp(op, inner) => (op == Addition || op == Subtraction) && HandlesExpr(inner)
    case BinaryOp(op, left, right) => HandlesExpr(left) && HandlesExpr(right) && op != Custom
    case IfExpr(c, t, f) => HandlesExpr(c) && HandlesExpr(t) && HandlesExpr(f)
    case FnCall(callee, args) => IsDefault(callee.id) || HandlesArgs(args)
    case Assignment(lvalue, rvalue) => IsDefault(lvalue.id) || HandlesExpr(rvalue)
    case Declaration(_, _, value) => HandlesExpr(value)
  }

  predicate HandlesArgs(args: FnCallArgs)
    decreases args
  {
    match args
    case SingleExpr(e) => HandlesExpr(e)
    case Arguments(list) => forall i :: 0 <= i < |list| ==> HandlesArgument(list[i])
  }

  predicate HandlesArgument(arg: CallArgument)
    decreases arg
  {
    arg.value.Some? ==> HandlesExpr(arg.value.value)
  }

  predicate HandlesStmt(s: Stmt)
    decreases s
  {
    match s
    case ExprStmt(e) => HandlesExpr(e)
    case DoStmt(b) => HandlesBlock(b)
    case IfStmt(ib) => HandlesIfBlock(ib)
    case ReturnStmt(value) => value.Some? ==> HandlesExpr(value.value)
  }

  predicate HandlesStmts(stmts: seq<Stmt>)
    decreases stmts
  {
    forall i :: 0 <= i < |stmts| ==> HandlesStmt(stmts[i])
  }

  predicate HandlesBlock(b: Block)
    decreases b
  {
    IsDefault(b.id) || HandlesStmts(b.stmts)
  }

  predicate HandlesArm(arm: Conditional)
    decreases arm
  {
    HandlesExpr(arm.condition) && HandlesBlock(arm.block)
  }

  predicate HandlesIfBlock(ib: IfBlock)
    decreases ib
  {
    || IsDefault(ib.id)
    || (&& (forall i :: 0 <= i < |ib.conditionals| ==> HandlesArm(ib.conditionals[i]))
        && (ib.elseBlock.Some? ==> HandlesBlock(ib.elseBlock.value)))
  }

  predicate HandlesFnDecl(env: TEnv, f: FnDeclaration)
  {
    SlotId(f.ident.id) == DefaultId || SlotId(f.ident.id) !in env.types || HandlesBlock(f.block)
  }
}
