/**
 * `ExprTypeChecker`: the type-equation pass as the source runs it, a walk
 * that moves a result register (`current_type`) and an lvalue stack and
 * writes nodes, equations and sources into the shared `TypeScopeBuilder`.
 * Each visit requires that the walk does not reach one of the source's
 * `unreachable!` arms (the Handles predicates of ExprTyping, which
 * expr_properties.dfy proves to be exactly the trees on which the functions
 * do not stop), and is proved to leave the state that the matching function
 * of ExprTyping describes.
 */
module ExprCheckers {
  import opened Wrappers
  import opened ScopedIds
  import opened Types
  import opened TypeScopes
  import opened Ast
  import opened ExprTyping

  // One step of each loop: the function on the suffix from `i` is the first
  // element's visit followed by the function on the suffix from `i + 1`.

  lemma ArgumentsFrom(env: TEnv, st: TState, list: seq<CallArgument>, i: nat, params: map<string, InferredType>)
    requires i < |list|
    ensures var v := TypeArgument(env, st, list[i]);
      TypeArgumentList(env, st, list[i..], params) ==
        if v.Fatal? then ArgsFatal(v.op)
        else TypeArgumentList(env, Tag(v.st, v.st.current, InferenceSource.CallArgument), list[i + 1..],
                              params[list[i].name.name := Variable(v.st.current)])
  {
    assert list[i..][0] == list[i] && list[i..][1..] == list[i + 1..];
  }

  lemma StmtsFrom(env: TEnv, st: TState, stmts: seq<Stmt>, i: nat)
    requires i < |stmts|
    ensures var v := TypeStmt(env, st, stmts[i]);
      TypeStmts(env, st, stmts[i..]) == if v.Fatal? then v else TypeStmts(env, v.st, stmts[i + 1..])
  {
    assert stmts[i..][0] == stmts[i] && stmts[i..][1..] == stmts[i + 1..];
  }

  lemma ConditionalsFrom(env: TEnv, st: TState, cs: seq<Conditional>, i: nat, typed: bool, node: nat)
    requires i < |cs|
    ensures var v := TypeArm(env, st, cs[i], typed, node);
      TypeConditionals(env, st, cs[i..], typed, node) ==
        if v.Fatal? then v else TypeConditionals(env, v.st, cs[i + 1..], typed, node)
  {
    assert cs[i..][0] == cs[i] && cs[i..][1..] == cs[i + 1..];
  }

  lemma ParamsFrom(st: TState, ps: seq<Param>, i: nat)
    requires i < |ps|
    ensures var s1, n := Node(st, SlotId(ps[i].ident.id)).0, Node(st, SlotId(ps[i].ident.id)).1;
      TypeParams(st, ps[i..]) == TypeParams(Constrain(s1, n, Known(ps[i].ty), FnParameter), ps[i + 1..])
  {
    assert ps[i..][0] == ps[i] && ps[i..][1..] == ps[i + 1..];
  }

  class ExprTypeChecker {
    /** The store shared with the item pass. */
    const builder: TypeScopeBuilder
    /** The result register (`current_type`): the node of the last expression visited. */
    var current: nat
    /** The lvalue stack: nodes of if-blocks whose arms produce their value. */
    var lvalues: seq<nat>
    /** The node of the enclosing function's return type (`return_ty_id`); the checker never assigns it. */
    const returnNode: nat

    constructor (builder: TypeScopeBuilder, returnNode: nat)
      ensures this.builder == builder && this.returnNode == returnNode
      ensures current == DefaultNode && lvalues == []
    {
      this.builder := builder;
      this.returnNode := returnNode;
      current := DefaultNode;
      lvalues := [];
    }

    ghost function State(): TState
      reads this, builder
    {
      TState(builder.Scope(), current, lvalues)
    }

    function Env(): TEnv
    {
      TEnv(builder.types, returnNode)
    }

    /** An equation and its source on the same node. */
    method AddConstraint(lhs: nat, rhs: InferredType, source: InferenceSource)
      modifies builder
      ensures State() == Constrain(old(State()), lhs, rhs, source)
    {
      builder.AddEquation(lhs, rhs);
      builder.AddSource(lhs, source);
    }

    method VisitExpression(e: Expr)
      requires HandlesExpr(e)
      modifies this, builder
      ensures TypeExpr(Env(), old(State()), e) == Done(State())
      decreases e, 1
    {
      match e
      case Literal(v) => VisitLiteralExpr(v);
      case VarRef(ident) => VisitVarRef(ident);
      case UnaryOp(op, inner) => VisitUnaryOp(op, inner);
      case BinaryOp(op, left, right) => VisitBinaryOp(op, left, right);
      case IfExpr(c, t, f) => VisitIfExpr(c, t, f);
      case FnCall(callee, args) => VisitFnCall(callee, args);
      case Assignment(lvalue, rvalue) => VisitAssignment(lvalue, rvalue);
      case Declaration(ident, ty, value) => VisitDeclaration(ident, ty, value);
    }

    /** `visit_literal_expr` */
    method VisitLiteralExpr(v: LiteralValue)
      modifies this, builder
      ensures State() == TypeLiteral(old(State()), v)
    {
      var n := builder.FreshId();
      match v {
        case BoolLiteral(_) => builder.AddEquation(n, KnownPrimitive(Bool));
        case FloatLiteral(_) => builder.AddEquation(n, KnownPrimitive(Int));
        case UnitLiteral => builder.AddEquation(n, KnownPrimitive(Unary));
      }
      builder.AddSource(n, InferenceSource.LiteralValue);
      current := n;
    }

    /** `visit_var_ref` */
    method VisitVarRef(ident: Identifier)
      modifies this, builder
      ensures State() == TypeVarRef(old(State()), ident)
    {
      if IsDefault(ident.id) {
        return;
      }
      var n := builder.GetId(SlotId(ident.id));
      current := n;
    }

    /** `visit_unary_op`; the precondition excludes the `unreachable!` arm (operators other than `+` and `-`). */
    method VisitUnaryOp(op: Operator, inner: Expr)
      requires HandlesExpr(UnaryOp(op, inner))
      modifies this, builder
      ensures TypeUnary(Env(), old(State()), op, inner) == Done(State())
      decreases UnaryOp(op, inner), 0
    {
      VisitExpression(inner);
      var operand := current;
      AddConstraint(operand, KnownPrimitive(Int), NumericOperator);
      AddResultNode(Int, NumericOperator);
    }

    /** `visit_binary_op`, with `==` and `!=` giving a boolean result; `Custom` is excluded by the precondition. */
    method VisitBinaryOp(op: Operator, left: Expr, right: Expr)
      requires HandlesExpr(BinaryOp(op, left, right))
      modifies this, builder
      ensures TypeBinary(Env(), old(State()), op, left, right) == Done(State())
      decreases BinaryOp(op, left, right), 0
    {
      VisitExpression(left);
      var l := current;
      VisitExpression(right);
      var r := current;
      AddOperatorEquations(op, l, r);
    }

    /**
     * The operator-specific part of `visit_binary_op`, once both operands are
     * visited. The source's three arms differ only in the result's type and
     * source, which `ResultPrimitive` and `ResultSource` select.
     */
    method AddOperatorEquations(op: Operator, l: nat, r: nat)
      requires op != Custom
      modifies this, builder
      ensures BinaryTail(old(State()), op, l, r) == Done(State())
    {
      AddOperandEquations(op, l, r);
      AddResultNode(ResultPrimitive(op), ResultSource(op));
    }

    method AddOperandEquations(op: Operator, l: nat, r: nat)
      modifies builder
      ensures State() == OperandConstraints(old(State()), op, l, r)
    {
      if IsEquality(op) {
        AddConstraint(l, Variable(r), EqualityOperator);
        AddConstraint(r, Variable(l), EqualityOperator);
      } else {
        AddConstraint(l, KnownPrimitive(Int), NumericOperator);
        AddConstraint(r, KnownPrimitive(Int), NumericOperator);
      }
    }

    /** A fresh node of a primitive type becomes the register's node. */
    method AddResultNode(p: Primitive, source: InferenceSource)
      modifies this, builder
      ensures State() == FreshResult(old(State()), p, source)
    {
      var n := builder.FreshId();
      AddConstraint(n, KnownPrimitive(p), source);
      current := n;
    }

    /** `visit_if_expr` */
    method VisitIfExpr(c: Expr, t: Expr, f: Expr)
      requires HandlesExpr(IfExpr(c, t, f))
      modifies this, builder
      ensures TypeIfExpr(Env(), old(State()), c, t, f) == Done(State())
      decreases IfExpr(c, t, f), 0
    {
      current := DefaultNode;
      VisitExpression(c);
      var cond := current;
      AddConstraint(cond, KnownPrimitive(Bool), IfConditionalBool);
      VisitExpression(t);
      var l := current;
      VisitExpression(f);
      var r := current;
      AddBranchEquations(l, r);
    }

    /** The tail of `visit_if_expr`: the branches are equated and both are tagged. */
    method AddBranchEquations(l: nat, r: nat)
      modifies builder
      ensures State() == IfBranches(old(State()), l, r)
    {
      AddConstraint(l, Variable(r), IfBranchesSame);
      builder.AddSource(r, IfBranchesSame);
    }

    /** `visit_fn_call`: a call whose callee has no id is skipped. */
    method VisitFnCall(callee: Identifier, args: FnCallArgs)
      requires HandlesExpr(FnCall(callee, args))
      modifies this, builder
      ensures TypeFnCall(Env(), old(State()), callee, args) == Done(State())
      decreases FnCall(callee, args), 0
    {
      if IsDefault(callee.id) {
        return;
      }
      var result := builder.FreshId();
      var params: map<string, InferredType>;
      match args {
        case SingleExpr(e) =>
          VisitExpression(e);
          var argNode := current;
          builder.AddSource(argNode, InferenceSource.CallArgument);
          params := map["" := Variable(argNode)];
        case Arguments(list) =>
          params := VisitArguments(list);
      }
      var fnNode := builder.GetId(SlotId(callee.id));
      builder.AddEquation(fnNode, Fn(params, Variable(result)));
      builder.AddSource(result, CallReturnType);
      current := result;
    }

    /** One named argument: its value, or the local variable its name refers to. */
    method VisitArgument(arg: CallArgument)
      requires HandlesArgument(arg)
      modifies this, builder
      ensures TypeArgument(Env(), old(State()), arg) == Done(State())
      decreases arg, 0
    {
      if arg.value.Some? {
        VisitExpression(arg.value.value);
      } else {
        VisitVarRef(arg.name);
      }
    }

    /** The named-argument loop of `visit_fn_call`, filling the parameter map. */
    method VisitArguments(list: seq<CallArgument>) returns (params: map<string, InferredType>)
      requires forall i :: 0 <= i < |list| ==> HandlesArgument(list[i])
      modifies this, builder
      ensures TypeArgumentList(Env(), old(State()), list, map[]) == ArgsDone(State(), params)
      decreases list, 0
    {
      ghost var s0 := State();
      assert list[0..] == list;
      params := map[];
      var i := 0;
      while i < |list|
        invariant 0 <= i <= |list|
        invariant TypeArgumentList(Env(), s0, list, map[]) == TypeArgumentList(Env(), State(), list[i..], params)
      {
        ArgumentsFrom(Env(), State(), list, i, params);
        assert list[i] in list;
        var arg := list[i];
        VisitArgument(arg);
        var argNode := current;
        builder.AddSource(argNode, InferenceSource.CallArgument);
        params := params[arg.name.name := Variable(argNode)];
        i := i + 1;
      }
      assert list[i..] == [];
    }

    /** `visit_assignment`: an assignment to an unresolved name is skipped. */
    method VisitAssignment(lvalue: Identifier, rvalue: Expr)
      requires HandlesExpr(Assignment(lvalue, rvalue))
      modifies this, builder
      ensures TypeAssignment(Env(), old(State()), lvalue, rvalue) == Done(State())
      decreases Assignment(lvalue, rvalue), 0
    {
      if IsDefault(lvalue.id) {
        return;
      }
      var lnode := builder.GetId(SlotId(lvalue.id));
      VisitExpression(rvalue);
      AddConstraint(lnode, Variable(current), AssignmentSource);
      current := DefaultNode;
    }

    /** `visit_declaration` */
    method VisitDeclaration(ident: Identifier, ty: Option<ConcreteType>, value: Expr)
      requires HandlesExpr(Declaration(ident, ty, value))
      modifies this, builder
      ensures TypeDeclaration(Env(), old(State()), ident, ty, value) == Done(State())
      decreases Declaration(ident, ty, value), 0
    {
      var vnode := builder.GetId(SlotId(ident.id));
      if ty.Some? {
        AddConstraint(vnode, Known(ty.value), ExplicitDecl);
      }
      VisitExpression(value);
      AddConstraint(vnode, Variable(current), DeclarationSource);
      current := DefaultNode;
    }

    method VisitStatement(s: Stmt)
      requires HandlesStmt(s)
      modifies this, builder
      ensures TypeStmt(Env(), old(State()), s) == Done(State())
      decreases s
    {
      match s
      case ExprStmt(e) => VisitExpression(e);
      case DoStmt(b) => VisitBlock(b);
      case IfStmt(ib) => VisitIfBlock(ib);
      case ReturnStmt(value) => VisitReturnStmt(value);
    }

    /** The statements of a block, in order. */
    method VisitStmts(stmts: seq<Stmt>)
      requires HandlesStmts(stmts)
      modifies this, builder
      ensures TypeStmts(Env(), old(State()), stmts) == Done(State())
      decreases stmts
    {
      ghost var s0 := State();
      assert stmts[0..] == stmts;
      var i := 0;
      while i < |stmts|
        invariant 0 <= i <= |stmts|
        invariant TypeStmts(Env(), s0, stmts) == TypeStmts(Env(), State(), stmts[i..])
      {
        StmtsFrom(Env(), State(), stmts, i);
        assert stmts[i] in stmts;
        VisitStatement(stmts[i]);
        i := i + 1;
      }
      assert stmts[i..] == [];
    }

    /** `visit_block`: a block without an id is skipped. */
    method VisitBlock(b: Block)
      requires HandlesBlock(b)
      modifies this, builder
      ensures TypeBlock(Env(), old(State()), b) == Done(State())
      decreases b
    {
      if IsDefault(b.id) {
        return;
      }
      VisitStmts(b.stmts);
    }

    /** Before a typed arm: the if-block's node goes on the lvalue stack and the register is reset. */
    method EnterArm(typed: bool, node: nat)
      modifies this
      ensures State() == ExprTyping.EnterArm(old(State()), typed, node)
    {
      if typed {
        lvalues := lvalues + [node];
        current := DefaultNode;
      }
    }

    /** One `if` or `else if` arm of `visit_if_block`. */
    method VisitArm(arm: Conditional, typed: bool, node: nat)
      requires HandlesArm(arm)
      modifies this, builder
      ensures TypeArm(Env(), old(State()), arm, typed, node) == Done(State())
      decreases arm
    {
      VisitExpression(arm.condition);
      var cond := current;
      AddConstraint(cond, KnownPrimitive(Bool), IfConditionalBool);
      current := DefaultNode;
      EnterArm(typed, node);
      VisitBlock(arm.block);
    }

    /** The `if` and `else if` arms of `visit_if_block`, in order. */
    method VisitConditionals(cs: seq<Conditional>, typed: bool, node: nat)
      requires forall i :: 0 <= i < |cs| ==> HandlesArm(cs[i])
      modifies this, builder
      ensures TypeConditionals(Env(), old(State()), cs, typed, node) == Done(State())
      decreases cs
    {
      ghost var s0 := State();
      assert cs[0..] == cs;
      var i := 0;
      while i < |cs|
        invariant 0 <= i <= |cs|
        invariant TypeConditionals(Env(), s0, cs, typed, node) == TypeConditionals(Env(), State(), cs[i..], typed, node)
      {
        ConditionalsFrom(Env(), State(), cs, i, typed, node);
        assert cs[i] in cs;
        VisitArm(cs[i], typed, node);
        i := i + 1;
      }
      assert cs[i..] == [];
    }

    /**
     * `visit_if_block`: typed when it has an else arm and the lvalue stack is
     * non-empty; a typed if-block leaves its own node in the register.
     */
    method VisitIfBlock(ib: IfBlock)
      requires HandlesIfBlock(ib)
      modifies this, builder
      ensures TypeIfBlock(Env(), old(State()), ib) == Done(State())
      decreases ib
    {
      if IsDefault(ib.id) {
        return;
      }
      var typed := ib.elseBlock.Some? && lvalues != [];
      VisitConditionals(ib.conditionals, typed, ib.typeNode);
      if ib.elseBlock.Some? {
        EnterArm(typed, ib.typeNode);
        VisitBlock(ib.elseBlock.value);
      }
      if typed {
        current := ib.typeNode;
      }
    }

    /** `visit_return_stmt` */
    method VisitReturnStmt(value: Option<Expr>)
      requires value.Some? ==> HandlesExpr(value.value)
      modifies this, builder
      ensures TypeReturn(Env(), old(State()), value) == Done(State())
    {
      current := DefaultNode;
      if value.Some? {
        VisitExpression(value.value);
        if returnNode != DefaultNode {
          builder.AddEquation(returnNode, Variable(current));
        }
      } else {
        builder.AddEquation(returnNode, KnownPrimitive(Unary));
      }
      builder.AddSource(returnNode, ExplicitReturn);
    }

    /** The parameter loop of `visit_block_fn_decl`. */
    method VisitParams(ps: seq<Param>)
      modifies this, builder
      ensures State() == TypeParams(old(State()), ps)
    {
      ghost var s0 := State();
      assert ps[0..] == ps;
      var i := 0;
      while i < |ps|
        invariant 0 <= i <= |ps|
        invariant TypeParams(s0, ps) == TypeParams(State(), ps[i..])
      {
        ParamsFrom(State(), ps, i);
        var pnode := builder.GetId(SlotId(ps[i].ident.id));
        AddConstraint(pnode, Known(ps[i].ty), FnParameter);
        i := i + 1;
      }
      assert ps[i..] == [];
    }

    /** `visit_block_fn_decl` */
    method VisitBlockFnDecl(f: FnDeclaration)
      requires HandlesFnDecl(Env(), f)
      modifies this, builder
      ensures TypeFnDecl(Env(), old(State()), f) == Done(State())
    {
      var fnId := SlotId(f.ident.id);
      if fnId == DefaultId {
        return;
      }
      var fnType := builder.GetType(fnId);
      if fnType.None? {
        return;
      }
      var needReturnValue := f.returnType != Primitive(Unary);
      var fnNode := builder.GetId(fnId);
      AddConstraint(fnNode, Known(fnType.value), FunctionSignature);
      VisitParams(f.params);
      VisitBlock(f.block);
      if needReturnValue {
        AddConstraint(current, Known(f.returnType), ImplicitReturn);
      }
    }
  }
}
