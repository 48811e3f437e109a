/**
 * Properties of the type-equation pass, proved about the functions of
 * ExprTyping (and so, through the checker's postconditions, about
 * `ExprTypeChecker`).
 *
 * The walk lemmas show, level by level, that a visit completes exactly on
 * the trees the Handles predicates describe (so the only way to stop is an
 * unsupported operator that is actually reached), and that a completed visit
 * keeps the store valid, only grows it, and only pushes onto the lvalue
 * stack, never onto an empty one. The remaining lemmas state, case by case,
 * which equations and sources a visit adds and where the result register
 * ends.
 */
module ExprProperties {
  import opened Wrappers
  import opened ScopedIds
  import opened Types
  import opened TypeScopes
  import opened Ast
  import opened ExprTyping

  /**
   * `st2` is a later state than `st`: the store is valid and has only grown,
   * the lvalue stack has only been pushed, and an empty stack stayed empty.
   */
  predicate Evolves(st: TState, st2: TState)
  {
    && Valid(st2.scope)
    && Grows(st.scope, st2.scope)
    && st.lvalues <= st2.lvalues
    && (st.lvalues == [] ==> st2.lvalues == [])
  }

  lemma EvolvesTrans(a: TState, b: TState, c: TState)
    requires Evolves(a, b) && Evolves(b, c)
    ensures Evolves(a, c)
  {
    GrowsTrans(a.scope, b.scope, c.scope);
  }

  lemma NodeEvolves(st: TState, id: Id)
    requires Valid(st.scope)
    ensures Evolves(st, Node(st, id).0) && Node(st, id).0.lvalues == st.lvalues
  {
    GetNodeSpec(st.scope, id);
  }

  lemma FreshEvolves(st: TState)
    requires Valid(st.scope)
    ensures Evolves(st, Fresh(st).0) && Fresh(st).0.lvalues == st.lvalues
  {
    FreshNodeSpec(st.scope);
  }

  lemma ConstrainEvolves(st: TState, lhs: nat, rhs: InferredType, source: InferenceSource)
    requires Valid(st.scope)
    ensures Evolves(st, Constrain(st, lhs, rhs, source)) && Constrain(st, lhs, rhs, source).lvalues == st.lvalues
  {
  }

  lemma TagEvolves(st: TState, node: nat, source: InferenceSource)
    requires Valid(st.scope)
    ensures Evolves(st, Tag(st, node, source)) && Tag(st, node, source).lvalues == st.lvalues
  {
  }

  lemma FreshResultEvolves(st: TState, p: Primitive, source: InferenceSource)
    requires Valid(st.scope)
    ensures Evolves(st, FreshResult(st, p, source))
  {
    var s1, n := Fresh(st).0, Fresh(st).1;
    FreshEvolves(st);
    ConstrainEvolves(s1, n, KnownPrimitive(p), source);
    EvolvesTrans(st, s1, Constrain(s1, n, KnownPrimitive(p), source));
  }

  lemma BinaryTailEvolves(st: TState, op: Operator, l: nat, r: nat)
    requires Valid(st.scope) && op != Custom
    ensures BinaryTail(st, op, l, r).Done? && Evolves(st, BinaryTail(st, op, l, r).st)
  {
    var s := OperandConstraints(st, op, l, r);
    if IsEquality(op) {
      var s1 := Constrain(st, l, Variable(r), EqualityOperator);
      ConstrainEvolves(st, l, Variable(r), EqualityOperator);
      ConstrainEvolves(s1, r, Variable(l), EqualityOperator);
      EvolvesTrans(st, s1, s);
    } else {
      var s1 := Constrain(st, l, KnownPrimitive(Int), NumericOperator);
      ConstrainEvolves(st, l, KnownPrimitive(Int), NumericOperator);
      ConstrainEvolves(s1, r, KnownPrimitive(Int), NumericOperator);
      EvolvesTrans(st, s1, s);
    }
    FreshResultEvolves(s, ResultPrimitive(op), ResultSource(op));
    EvolvesTrans(st, s, FreshResult(s, ResultPrimitive(op), ResultSource(op)));
  }

  lemma IfBranchesEvolves(st: TState, l: nat, r: nat)
    requires Valid(st.scope)
    ensures Evolves(st, IfBranches(st, l, r))
  {
  }

  lemma CallTailEvolves(st: TState, callee: Identifier, params: map<string, InferredType>, result: nat)
    requires Valid(st.scope)
    ensures Evolves(st, CallTail(st, callee, params, result))
  {
    var s1 := Node(st, SlotId(callee.id)).0;
    NodeEvolves(st, SlotId(callee.id));
    EvolvesTrans(st, s1, CallTail(st, callee, params, result));
  }

  lemma DeclaredNodeEvolves(st: TState, ident: Identifier, ty: Option<ConcreteType>)
    requires Valid(st.scope)
    ensures Evolves(st, DeclaredNode(st, ident, ty).0) && DeclaredNode(st, ident, ty).0.lvalues == st.lvalues
  {
    var s1, vnode := Node(st, SlotId(ident.id)).0, Node(st, SlotId(ident.id)).1;
    NodeEvolves(st, SlotId(ident.id));
    if ty.Some? {
      ConstrainEvolves(s1, vnode, Known(ty.value), ExplicitDecl);
      EvolvesTrans(st, s1, DeclaredNode(st, ident, ty).0);
    }
  }


  // ---- Which trees the walk completes ----

  /** A visit of an expression completes exactly when the expression is handled. */
  lemma {:induction false} ExprCompletes(env: TEnv, st: TState, e: Expr)
    ensures TypeExpr(env, st, e).Done? <==> HandlesExpr(e)
    decreases e, 1
  {
    match e
    case Literal(_) =>
    case VarRef(_) =>
    case UnaryOp(op, inner) => UnaryCompletes(env, st, op, inner);
    case BinaryOp(op, left, right) => BinaryCompletes(env, st, op, left, right);
    case IfExpr(c, t, f) => IfExprCompletes(env, st, c, t, f);
    case FnCall(callee, args) => FnCallCompletes(env, st, callee, args);
    case Assignment(lvalue, rvalue) => AssignmentCompletes(env, st, lvalue, rvalue);
    case Declaration(ident, ty, value) => DeclarationCompletes(env, st, ident, ty, value);
  }

  lemma {:induction false} UnaryCompletes(env: TEnv, st: TState, op: Operator, inner: Expr)
    ensures TypeUnary(env, st, op, inner).Done? <==> HandlesExpr(UnaryOp(op, inner))
    decreases UnaryOp(op, inner), 0
  {
    ExprCompletes(env, st, inner);
  }

  lemma {:induction false} BinaryCompletes(env: TEnv, st: TState, op: Operator, left: Expr, right: Expr)
    ensures TypeBinary(env, st, op, left, right).Done? <==> HandlesExpr(BinaryOp(op, left, right))
    decreases BinaryOp(op, left, right), 0
  {
    ExprCompletes(env, st, left);
    var v1 := TypeExpr(env, st, left);
    if v1.Done? {
      ExprCompletes(env, v1.st, right);
    }
  }

  lemma {:induction false} IfExprCompletes(env: TEnv, st: TState, c: Expr, t: Expr, f: Expr)
    ensures TypeIfExpr(env, st, c, t, f).Done? <==> HandlesExpr(IfExpr(c, t, f))
    decreases IfExpr(c, t, f), 0
  {
    var s0 := st.(current := DefaultNode);
    ExprCompletes(env, s0, c);
    var v1 := TypeExpr(env, s0, c);
    if v1.Done? {
      var s1 := Constrain(v1.st, v1.st.current, KnownPrimitive(Bool), IfConditionalBool);
      ExprCompletes(env, s1, t);
      var v2 := TypeExpr(env, s1, t);
      if v2.Done? {
        ExprCompletes(env, v2.st, f);
      }
    }
  }

  lemma {:induction false} FnCallCompletes(env: TEnv, st: TState, callee: Identifier, args: FnCallArgs)
    ensures TypeFnCall(env, st, callee, args).Done? <==> HandlesExpr(FnCall(callee, args))
    decreases FnCall(callee, args), 0
  {
    if !IsDefault(callee.id) {
      CallArgsCompletes(env, Fresh(st).0, args);
    }
  }

  lemma {:induction false} CallArgsCompletes(env: TEnv, st: TState, args: FnCallArgs)
    ensures TypeCallArgs(env, st, args).ArgsDone? <==> HandlesArgs(args)
    decreases args
  {
    match args
    case SingleExpr(e) => ExprCompletes(env, st, e);
    case Arguments(list) => ArgumentListCompletes(env, st, list, map[]);
  }

  lemma {:induction false} ArgumentCompletes(env: TEnv, st: TState, arg: CallArgument)
    ensures TypeArgument(env, st, arg).Done? <==> HandlesArgument(arg)
    decreases arg
  {
    if arg.value.Some? {
      ExprCompletes(env, st, arg.value.value);
    }
  }

  lemma {:induction false} ArgumentListCompletes(env: TEnv, st: TState, list: seq<CallArgument>, params: map<string, InferredType>)
    ensures TypeArgumentList(env, st, list, params).ArgsDone? <==> forall i :: 0 <= i < |list| ==> HandlesArgument(list[i])
    decreases list
  {
    if list != [] {
      ArgumentCompletes(env, st, list[0]);
      var v := TypeArgument(env, st, list[0]);
      if v.Done? {
        ArgumentListCompletes(env, Tag(v.st, v.st.current, InferenceSource.CallArgument), list[1..],
                              params[list[0].name.name := Variable(v.st.current)]);
        assert forall i :: 0 < i < |list| ==> list[i] == list[1..][i - 1];
      }
    }
  }

  lemma {:induction false} AssignmentCompletes(env: TEnv, st: TState, lvalue: Identifier, rvalue: Expr)
    ensures TypeAssignment(env, st, lvalue, rvalue).Done? <==> HandlesExpr(Assignment(lvalue, rvalue))
    decreases Assignment(lvalue, rvalue), 0
  {
    if !IsDefault(lvalue.id) {
      ExprCompletes(env, Node(st, SlotId(lvalue.id)).0, rvalue);
    }
  }

  lemma {:induction false} DeclarationCompletes(env: TEnv, st: TState, ident: Identifier, ty: Option<ConcreteType>, value: Expr)
    ensures TypeDeclaration(env, st, ident, ty, value).Done? <==> HandlesExpr(Declaration(ident, ty, value))
    decreases Declaration(ident, ty, value), 0
  {
    ExprCompletes(env, DeclaredNode(st, ident, ty).0, value);
  }

  // ---- What a completed visit does to the state ----

  /** A completed visit of an expression leaves a later state: the store valid and grown, the lvalue stack exactly as it was. */
  lemma {:induction false} ExprEvolves(env: TEnv, st: TState, e: Expr)
    requires Valid(st.scope) && HandlesExpr(e)
    ensures TypeExpr(env, st, e).Done? && Evolves(st, TypeExpr(env, st, e).st) && TypeExpr(env, st, e).st.lvalues == st.lvalues
    decreases e, 1
  {
    match e
    case Literal(v) => FreshResultEvolves(st, LiteralPrimitive(v), InferenceSource.LiteralValue);
    case VarRef(ident) => if !IsDefault(ident.id) { NodeEvolves(st, SlotId(ident.id)); }
    case UnaryOp(op, inner) => UnaryEvolves(env, st, op, inner);
    case BinaryOp(op, left, right) => BinaryEvolves(env, st, op, left, right);
    case IfExpr(c, t, f) => IfExprEvolves(env, st, c, t, f);
    case FnCall(callee, args) => FnCallEvolves(env, st, callee, args);
    case Assignment(lvalue, rvalue) => AssignmentEvolves(env, st, lvalue, rvalue);
    case Declaration(ident, ty, value) => DeclarationEvolves(env, st, ident, ty, value);
  }

  lemma {:induction false} UnaryEvolves(env: TEnv, st: TState, op: Operator, inner: Expr)
    requires Valid(st.scope) && HandlesExpr(UnaryOp(op, inner))
    ensures TypeUnary(env, st, op, inner).Done? && Evolves(st, TypeUnary(env, st, op, inner).st) && TypeUnary(env, st, op, inner).st.lvalues == st.lvalues
    decreases UnaryOp(op, inner), 0
  {
    ExprEvolves(env, st, inner);
    var v := TypeExpr(env, st, inner);
    var s1 := Constrain(v.st, v.st.current, KnownPrimitive(Int), NumericOperator);
    ConstrainEvolves(v.st, v.st.current, KnownPrimitive(Int), NumericOperator);
    FreshResultEvolves(s1, Int, NumericOperator);
    EvolvesTrans(st, v.st, s1);
    EvolvesTrans(st, s1, NumericUnary(v.st));
  }

  lemma {:induction false} BinaryEvolves(env: TEnv, st: TState, op: Operator, left: Expr, right: Expr)
    requires Valid(st.scope) && HandlesExpr(BinaryOp(op, left, right))
    ensures TypeBinary(env, st, op, left, right).Done? && Evolves(st, TypeBinary(env, st, op, left, right).st) && TypeBinary(env, st, op, left, right).st.lvalues == st.lvalues
    decreases BinaryOp(op, left, right), 0
  {
    ExprEvolves(env, st, left);
    var v1 := TypeExpr(env, st, left);
    ExprEvolves(env, v1.st, right);
    var v2 := TypeExpr(env, v1.st, right);
    BinaryTailEvolves(v2.st, op, v1.st.current, v2.st.current);
    var r := BinaryTail(v2.st, op, v1.st.current, v2.st.current);
    assert TypeBinary(env, st, op, left, right) == r;
    EvolvesTrans(st, v1.st, v2.st);
    EvolvesTrans(st, v2.st, r.st);
  }

  lemma {:induction false} IfExprEvolves(env: TEnv, st: TState, c: Expr, t: Expr, f: Expr)
    requires Valid(st.scope) && HandlesExpr(IfExpr(c, t, f))
    ensures TypeIfExpr(env, st, c, t, f).Done? && Evolves(st, TypeIfExpr(env, st, c, t, f).st) && TypeIfExpr(env, st, c, t, f).st.lvalues == st.lvalues
    decreases IfExpr(c, t, f), 0
  {
    var s0 := st.(current := DefaultNode);
    ExprEvolves(env, s0, c);
    var v1 := TypeExpr(env, s0, c);
    var s1 := Constrain(v1.st, v1.st.current, KnownPrimitive(Bool), IfConditionalBool);
    ConstrainEvolves(v1.st, v1.st.current, KnownPrimitive(Bool), IfConditionalBool);
    ExprEvolves(env, s1, t);
    var v2 := TypeExpr(env, s1, t);
    ExprEvolves(env, v2.st, f);
    var v3 := TypeExpr(env, v2.st, f);
    var r := IfBranches(v3.st, v2.st.current, v3.st.current);
    IfBranchesEvolves(v3.st, v2.st.current, v3.st.current);
    assert TypeIfExpr(env, st, c, t, f) == Done(r);
    EvolvesTrans(st, v1.st, s1);
    EvolvesTrans(st, s1, v2.st);
    EvolvesTrans(st, v2.st, v3.st);
    EvolvesTrans(st, v3.st, r);
  }

  lemma {:induction false} FnCallEvolves(env: TEnv, st: TState, callee: Identifier, args: FnCallArgs)
    requires Valid(st.scope) && HandlesExpr(FnCall(callee, args))
    ensures TypeFnCall(env, st, callee, args).Done? && Evolves(st, TypeFnCall(env, st, callee, args).st) && TypeFnCall(env, st, callee, args).st.lvalues == st.lvalues
    decreases FnCall(callee, args), 0
  {
    if !IsDefault(callee.id) {
      var s1, result := Fresh(st).0, Fresh(st).1;
      FreshEvolves(st);
      CallArgsEvolves(env, s1, args);
      var a := TypeCallArgs(env, s1, args);
      CallTailEvolves(a.st, callee, a.params, result);
      EvolvesTrans(st, s1, a.st);
      EvolvesTrans(st, a.st, CallTail(a.st, callee, a.params, result));
    }
  }

  lemma {:induction false} CallArgsEvolves(env: TEnv, st: TState, args: FnCallArgs)
    requires Valid(st.scope) && HandlesArgs(args)
    ensures TypeCallArgs(env, st, args).ArgsDone? && Evolves(st, TypeCallArgs(env, st, args).st) && TypeCallArgs(env, st, args).st.lvalues == st.lvalues
    decreases args
  {
    match args
    case SingleExpr(e) =>
      ExprEvolves(env, st, e);
      var v := TypeExpr(env, st, e);
      TagEvolves(v.st, v.st.current, InferenceSource.CallArgument);
      EvolvesTrans(st, v.st, Tag(v.st, v.st.current, InferenceSource.CallArgument));
    case Arguments(list) => ArgumentListEvolves(env, st, list, map[]);
  }

  lemma {:induction false} ArgumentEvolves(env: TEnv, st: TState, arg: CallArgument)
    requires Valid(st.scope) && HandlesArgument(arg)
    ensures TypeArgument(env, st, arg).Done? && Evolves(st, TypeArgument(env, st, arg).st) && TypeArgument(env, st, arg).st.lvalues == st.lvalues
    decreases arg
  {
    if arg.value.Some? {
      ExprEvolves(env, st, arg.value.value);
    } else if !IsDefault(arg.name.id) {
      NodeEvolves(st, SlotId(arg.name.id));
    }
  }

  lemma {:induction false} ArgumentListEvolves(env: TEnv, st: TState, list: seq<CallArgument>, params: map<string, InferredType>)
    requires Valid(st.scope) && forall i :: 0 <= i < |list| ==> HandlesArgument(list[i])
    ensures TypeArgumentList(env, st, list, params).ArgsDone?
    ensures Evolves(st, TypeArgumentList(env, st, list, params).st)
    ensures TypeArgumentList(env, st, list, params).st.lvalues == st.lvalues
    decreases list
  {
    if list != [] {
      ArgumentEvolves(env, st, list[0]);
      var v := TypeArgument(env, st, list[0]);
      var s1 := Tag(v.st, v.st.current, InferenceSource.CallArgument);
      TagEvolves(v.st, v.st.current, InferenceSource.CallArgument);
      assert forall i :: 0 <= i < |list[1..]| ==> list[1..][i] == list[i + 1];
      ArgumentListEvolves(env, s1, list[1..], params[list[0].name.name := Variable(v.st.current)]);
      EvolvesTrans(st, v.st, s1);
      EvolvesTrans(st, s1, TypeArgumentList(env, st, list, params).st);
    }
  }

  lemma {:induction false} AssignmentEvolves(env: TEnv, st: TState, lvalue: Identifier, rvalue: Expr)
    requires Valid(st.scope) && HandlesExpr(Assignment(lvalue, rvalue))
    ensures TypeAssignment(env, st, lvalue, rvalue).Done? && Evolves(st, TypeAssignment(env, st, lvalue, rvalue).st) && TypeAssignment(env, st, lvalue, rvalue).st.lvalues == st.lvalues
    decreases Assignment(lvalue, rvalue), 0
  {
    if !IsDefault(lvalue.id) {
      var s1, lnode := Node(st, SlotId(lvalue.id)).0, Node(st, SlotId(lvalue.id)).1;
      NodeEvolves(st, SlotId(lvalue.id));
      ExprEvolves(env, s1, rvalue);
      var v := TypeExpr(env, s1, rvalue);
      ConstrainEvolves(v.st, lnode, Variable(v.st.current), AssignmentSource);
      EvolvesTrans(st, s1, v.st);
      EvolvesTrans(st, v.st, Constrain(v.st, lnode, Variable(v.st.current), AssignmentSource));
    }
  }

  lemma {:induction false} DeclarationEvolves(env: TEnv, st: TState, ident: Identifier, ty: Option<ConcreteType>, value: Expr)
    requires Valid(st.scope) && HandlesExpr(Declaration(ident, ty, value))
    ensures TypeDeclaration(env, st, ident, ty, value).Done? && Evolves(st, TypeDeclaration(env, st, ident, ty, value).st) && TypeDeclaration(env, st, ident, ty, value).st.lvalues == st.lvalues
    decreases Declaration(ident, ty, value), 0
  {
    var s1, vnode := DeclaredNode(st, ident, ty).0, DeclaredNode(st, ident, ty).1;
    DeclaredNodeEvolves(st, ident, ty);
    ExprEvolves(env, s1, value);
    var v := TypeExpr(env, s1, value);
    ConstrainEvolves(v.st, vnode, Variable(v.st.current), DeclarationSource);
    EvolvesTrans(st, s1, v.st);
    EvolvesTrans(st, v.st, Constrain(v.st, vnode, Variable(v.st.current), DeclarationSource));
  }

  // ---- Statements ----

  lemma {:induction false} StmtCompletes(env: TEnv, st: TState, s: Stmt)
    ensures TypeStmt(env, st, s).Done? <==> HandlesStmt(s)
    decreases s
  {
    match s
    case ExprStmt(e) => ExprCompletes(env, st, e);
    case DoStmt(b) => BlockCompletes(env, st, b);
    case IfStmt(ib) => IfBlockCompletes(env, st, ib);
    case ReturnStmt(value) =>
      if value.Some? {
        ExprCompletes(env, st.(current := DefaultNode), value.value);
      }
  }

  lemma {:induction false} StmtsCompletes(env: TEnv, st: TState, stmts: seq<Stmt>)
    ensures TypeStmts(env, st, stmts).Done? <==> HandlesStmts(stmts)
    decreases stmts
  {
    if stmts != [] {
      StmtCompletes(env, st, stmts[0]);
      var v := TypeStmt(env, st, stmts[0]);
      if v.Done? {
        StmtsCompletes(env, v.st, stmts[1..]);
        assert forall i :: 0 < i < |stmts| ==> stmts[i] == stmts[1..][i - 1];
      }
    }
  }

  lemma {:induction false} BlockCompletes(env: TEnv, st: TState, b: Block)
    ensures TypeBlock(env, st, b).Done? <==> HandlesBlock(b)
    decreases b
  {
    if !IsDefault(b.id) {
      StmtsCompletes(env, st, b.stmts);
    }
  }

  lemma {:induction false} ArmCompletes(env: TEnv, st: TState, arm: Conditional, typed: bool, node: nat)
    ensures TypeArm(env, st, arm, typed, node).Done? <==> HandlesArm(arm)
    decreases arm
  {
    ExprCompletes(env, st, arm.condition);
    var v := TypeExpr(env, st, arm.condition);
    if v.Done? {
      var s1 := Constrain(v.st, v.st.current, KnownPrimitive(Bool), IfConditionalBool).(current := DefaultNode);
      BlockCompletes(env, EnterArm(s1, typed, node), arm.block);
    }
  }

  lemma {:induction false} ConditionalsCompletes(env: TEnv, st: TState, cs: seq<Conditional>, typed: bool, node: nat)
    ensures TypeConditionals(env, st, cs, typed, node).Done? <==> forall i :: 0 <= i < |cs| ==> HandlesArm(cs[i])
    decreases cs
  {
    if cs != [] {
      assert cs[0] in cs;
      ArmCompletes(env, st, cs[0], typed, node);
      var v := TypeArm(env, st, cs[0], typed, node);
      if v.Done? {
        ConditionalsCompletes(env, v.st, cs[1..], typed, node);
        assert forall i :: 0 < i < |cs| ==> cs[i] == cs[1..][i - 1];
      }
    }
  }

  lemma {:induction false} IfBlockCompletes(env: TEnv, st: TState, ib: IfBlock)
    ensures TypeIfBlock(env, st, ib).Done? <==> HandlesIfBlock(ib)
    decreases ib
  {
    if !IsDefault(ib.id) {
      var typed := ib.elseBlock.Some? && st.lvalues != [];
      ConditionalsCompletes(env, st, ib.conditionals, typed, ib.typeNode);
      var v := TypeConditionals(env, st, ib.conditionals, typed, ib.typeNode);
      if v.Done? && ib.elseBlock.Some? {
        BlockCompletes(env, EnterArm(v.st, typed, ib.typeNode), ib.elseBlock.value);
      }
    }
  }

  /** A function declaration is visited to the end exactly when it is handled. */
  lemma FnDeclCompletes(env: TEnv, st: TState, f: FnDeclaration)
    ensures TypeFnDecl(env, st, f).Done? <==> HandlesFnDecl(env, f)
  {
    var fnId := SlotId(f.ident.id);
    if fnId != DefaultId && fnId in env.types {
      BlockCompletes(env, FnSignature(st, fnId, env.types[fnId], f.params), f.block);
    }
  }

  lemma {:induction false} StmtEvolves(env: TEnv, st: TState, s: Stmt)
    requires Valid(st.scope) && HandlesStmt(s)
    ensures TypeStmt(env, st, s).Done? && Evolves(st, TypeStmt(env, st, s).st)
    decreases s
  {
    match s
    case ExprStmt(e) => ExprEvolves(env, st, e);
    case DoStmt(b) => BlockEvolves(env, st, b);
    case IfStmt(ib) => IfBlockEvolves(env, st, ib);
    case ReturnStmt(value) => ReturnEvolves(env, st, value);
  }

  lemma {:induction false} StmtsEvolves(env: TEnv, st: TState, stmts: seq<Stmt>)
    requires Valid(st.scope) && HandlesStmts(stmts)
    ensures TypeStmts(env, st, stmts).Done? && Evolves(st, TypeStmts(env, st, stmts).st)
    decreases stmts
  {
    if stmts != [] {
      StmtEvolves(env, st, stmts[0]);
      var v := TypeStmt(env, st, stmts[0]);
      assert forall i :: 0 <= i < |stmts[1..]| ==> stmts[1..][i] == stmts[i + 1];
      StmtsEvolves(env, v.st, stmts[1..]);
      EvolvesTrans(st, v.st, TypeStmts(env, st, stmts).st);
    }
  }

  lemma {:induction false} BlockEvolves(env: TEnv, st: TState, b: Block)
    requires Valid(st.scope) && HandlesBlock(b)
    ensures TypeBlock(env, st, b).Done? && Evolves(st, TypeBlock(env, st, b).st)
    decreases b
  {
    if !IsDefault(b.id) {
      StmtsEvolves(env, st, b.stmts);
    }
  }

  lemma EnterArmEvolves(st: TState, typed: bool, node: nat)
    requires Valid(st.scope) && (typed ==> st.lvalues != [])
    ensures Evolves(st, EnterArm(st, typed, node)) && EnterArm(st, typed, node).lvalues != [] <== typed
  {
  }

  lemma {:induction false} ArmEvolves(env: TEnv, st: TState, arm: Conditional, typed: bool, node: nat)
    requires Valid(st.scope) && HandlesArm(arm) && (typed ==> st.lvalues != [])
    ensures TypeArm(env, st, arm, typed, node).Done? && Evolves(st, TypeArm(env, st, arm, typed, node).st)
    decreases arm
  {
    ExprEvolves(env, st, arm.condition);
    var v := TypeExpr(env, st, arm.condition);
    var s1 := Constrain(v.st, v.st.current, KnownPrimitive(Bool), IfConditionalBool).(current := DefaultNode);
    ConstrainEvolves(v.st, v.st.current, KnownPrimitive(Bool), IfConditionalBool);
    EvolvesTrans(st, v.st, s1);
    var s2 := EnterArm(s1, typed, node);
    EnterArmEvolves(s1, typed, node);
    EvolvesTrans(st, s1, s2);
    BlockEvolves(env, s2, arm.block);
    EvolvesTrans(st, s2, TypeBlock(env, s2, arm.block).st);
  }

  lemma {:induction false} ConditionalsEvolves(env: TEnv, st: TState, cs: seq<Conditional>, typed: bool, node: nat)
    requires Valid(st.scope) && (forall i :: 0 <= i < |cs| ==> HandlesArm(cs[i])) && (typed ==> st.lvalues != [])
    ensures TypeConditionals(env, st, cs, typed, node).Done?
    ensures Evolves(st, TypeConditionals(env, st, cs, typed, node).st)
    decreases cs
  {
    if cs != [] {
      assert cs[0] in cs;
      ArmEvolves(env, st, cs[0], typed, node);
      var v := TypeArm(env, st, cs[0], typed, node);
      assert forall i :: 0 <= i < |cs[1..]| ==> cs[1..][i] == cs[i + 1];
      ConditionalsEvolves(env, v.st, cs[1..], typed, node);
      EvolvesTrans(st, v.st, TypeConditionals(env, st, cs, typed, node).st);
    }
  }

  lemma {:induction false} IfBlockEvolves(env: TEnv, st: TState, ib: IfBlock)
    requires Valid(st.scope) && HandlesIfBlock(ib)
    ensures TypeIfBlock(env, st, ib).Done? && Evolves(st, TypeIfBlock(env, st, ib).st)
    decreases ib
  {
    if !IsDefault(ib.id) {
      var typed := ib.elseBlock.Some? && st.lvalues != [];
      ConditionalsEvolves(env, st, ib.conditionals, typed, ib.typeNode);
      var v := TypeConditionals(env, st, ib.conditionals, typed, ib.typeNode);
      if ib.elseBlock.Some? {
        var s1 := EnterArm(v.st, typed, ib.typeNode);
        EnterArmEvolves(v.st, typed, ib.typeNode);
        EvolvesTrans(st, v.st, s1);
        BlockEvolves(env, s1, ib.elseBlock.value);
        EvolvesTrans(st, s1, TypeBlock(env, s1, ib.elseBlock.value).st);
      }
    }
  }

  lemma {:induction false} ReturnEvolves(env: TEnv, st: TState, value: Option<Expr>)
    requires Valid(st.scope) && (value.Some? ==> HandlesExpr(value.value))
    ensures TypeReturn(env, st, value).Done? && Evolves(st, TypeReturn(env, st, value).st)
    decreases value
  {
    var s0 := st.(current := DefaultNode);
    if value.Some? {
      ExprEvolves(env, s0, value.value);
      var v := TypeExpr(env, s0, value.value);
      ConstrainEvolves(v.st, env.returnNode, Variable(v.st.current), ExplicitReturn);
      TagEvolves(v.st, env.returnNode, ExplicitReturn);
      EvolvesTrans(st, v.st, TypeReturn(env, st, value).st);
    }
  }

  lemma {:induction false} ParamsEvolve(st: TState, ps: seq<Param>)
    requires Valid(st.scope)
    ensures Evolves(st, TypeParams(st, ps)) && TypeParams(st, ps).lvalues == st.lvalues
    decreases ps
  {
    if ps != [] {
      var s1, n := Node(st, SlotId(ps[0].ident.id)).0, Node(st, SlotId(ps[0].ident.id)).1;
      NodeEvolves(st, SlotId(ps[0].ident.id));
      var s2 := Constrain(s1, n, Known(ps[0].ty), FnParameter);
      ConstrainEvolves(s1, n, Known(ps[0].ty), FnParameter);
      EvolvesTrans(st, s1, s2);
      ParamsEvolve(s2, ps[1..]);
      EvolvesTrans(st, s2, TypeParams(st, ps));
    }
  }

  lemma SignatureEvolves(st: TState, fnId: Id, ty: ConcreteType, ps: seq<Param>)
    requires Valid(st.scope)
    ensures Evolves(st, FnSignature(st, fnId, ty, ps))
  {
    var s1, fnNode := Node(st, fnId).0, Node(st, fnId).1;
    NodeEvolves(st, fnId);
    var s2 := Constrain(s1, fnNode, Known(ty), FunctionSignature);
    ConstrainEvolves(s1, fnNode, Known(ty), FunctionSignature);
    EvolvesTrans(st, s1, s2);
    ParamsEvolve(s2, ps);
    EvolvesTrans(st, s2, FnSignature(st, fnId, ty, ps));
  }

  /**
   * A handled function declaration is visited to the end, keeping the store
   * valid and only growing it; from an empty lvalue stack (a fresh checker)
   * no if-block inside it is typed, so the stack stays empty.
   */
  lemma FnDeclEvolves(env: TEnv, st: TState, f: FnDeclaration)
    requires Valid(st.scope) && HandlesFnDecl(env, f)
    ensures TypeFnDecl(env, st, f).Done? && Evolves(st, TypeFnDecl(env, st, f).st)
  {
    var fnId := SlotId(f.ident.id);
    if fnId != DefaultId && fnId in env.types {
      var s2 := FnSignature(st, fnId, env.types[fnId], f.params);
      SignatureEvolves(st, fnId, env.types[fnId], f.params);
      BlockEvolves(env, s2, f.block);
      var v := TypeBlock(env, s2, f.block);
      EvolvesTrans(st, s2, v.st);
      ConstrainEvolves(v.st, v.st.current, Known(f.returnType), ImplicitReturn);
      EvolvesTrans(st, v.st, TypeFnDecl(env, st, f).st);
    }
  }

  // ---- What each visit adds ----

  /**
   * `visit_var_ref`: an unresolved reference changes nothing; a resolved one
   * leaves in the register the node its id has, the same node every later
   * reference to that id gets, with no equation or source added and the
   * lvalue stack untouched.
   */
  lemma VarRefTyped(env: TEnv, st: TState, ident: Identifier)
    requires Valid(st.scope)
    ensures var r := TypeExpr(env, st, VarRef(ident));
      && r.Done?
      && (IsDefault(ident.id) ==> r.st == st)
      && (!IsDefault(ident.id) ==>
            var id := SlotId(ident.id);
            && id in r.st.scope.nodes && r.st.current == r.st.scope.nodes[id] && r.st.current != DefaultNode
            && (id in st.scope.nodes ==> r.st.current == st.scope.nodes[id] && r.st.scope == st.scope)
            && r.st.scope.equations == st.scope.equations && r.st.scope.sources == st.scope.sources
            && r.st.lvalues == st.lvalues
            && TypeExpr(env, r.st, VarRef(ident)).st == r.st)
  {
    if !IsDefault(ident.id) {
      GetNodeSpec(st.scope, SlotId(ident.id));
    }
  }

  /**
   * `visit_literal_expr`: a fresh node no variable has, exactly one equation
   * giving it the literal's primitive (booleans `bool`, numbers `int`, `()`
   * unit) and one source; the register takes the node.
   */
  lemma LiteralTyped(env: TEnv, st: TState, v: LiteralValue)
    requires Valid(st.scope)
    ensures var r := TypeExpr(env, st, Literal(v));
      && r.Done?
      && var n := r.st.current;
      && n == st.scope.next && n != DefaultNode
      && r.st.scope.nodes == st.scope.nodes
      && (forall id :: id in r.st.scope.nodes ==> r.st.scope.nodes[id] != n)
      && r.st.scope.equations == st.scope.equations + [TypeEquation(n, KnownPrimitive(LiteralPrimitive(v)))]
      && r.st.scope.sources == st.scope.sources + [SourceEntry(n, InferenceSource.LiteralValue)]
      && (v.BoolLiteral? ==> LiteralPrimitive(v) == Bool)
      && (v.FloatLiteral? ==> LiteralPrimitive(v) == Int)
      && (v.UnitLiteral? ==> LiteralPrimitive(v) == Unary)
  {
    FreshNodeSpec(st.scope);
  }

  /**
   * `visit_unary_op` with `+` or `-`: after the operand, the operand's node
   * and a fresh result node are both made `int`, and the result is left in
   * the register.
   */
  lemma UnaryTyped(env: TEnv, st: TState, op: Operator, inner: Expr)
    requires Valid(st.scope) && (op == Addition || op == Subtraction) && HandlesExpr(inner)
    ensures var v := TypeExpr(env, st, inner);
      && v.Done?
      && var r := TypeExpr(env, st, UnaryOp(op, inner));
      && r.Done?
      && var a, n := v.st.current, r.st.current;
      && n == v.st.scope.next
      && r.st.scope.equations == v.st.scope.equations + [TypeEquation(a, KnownPrimitive(Int)), TypeEquation(n, KnownPrimitive(Int))]
      && r.st.scope.sources == v.st.scope.sources + [SourceEntry(a, NumericOperator), SourceEntry(n, NumericOperator)]
  {
    ExprCompletes(env, st, inner);
  }

  /**
   * The `unreachable!` arms: a unary operator other than `+` and `-` stops
   * the walk with that operator, and so does a binary `Custom` once its
   * operands are visited; neither is recorded as a collected error.
   */
  lemma UnsupportedOperatorsAreFatal(env: TEnv, st: TState, op: Operator, inner: Expr, left: Expr, right: Expr)
    requires op != Addition && op != Subtraction
    requires HandlesExpr(left) && HandlesExpr(right)
    ensures TypeExpr(env, st, UnaryOp(op, inner)) == Fatal(op)
    ensures TypeExpr(env, st, BinaryOp(Custom, left, right)) == Fatal(Custom)
  {
    ExprCompletes(env, st, left);
    ExprCompletes(env, TypeExpr(env, st, left).st, right);
  }

  /**
   * The operator part of `visit_binary_op`, given the operands' nodes:
   * arithmetic makes both operands and a fresh result `int`, a comparison
   * makes both operands `int` and the result `bool`, and `==`/`!=` equate the
   * operands both ways and make the result `bool`. The fresh result is left
   * in the register.
   */
  lemma BinaryTailTyped(st: TState, op: Operator, l: nat, rr: nat)
    requires op != Custom
    ensures var r := BinaryTail(st, op, l, rr);
      && r.Done?
      && var n, base := r.st.current, st.scope;
      && n == base.next && r.st.scope.nodes == base.nodes
      && (IsArithmetic(op) ==>
            && r.st.scope.equations == base.equations + [TypeEquation(l, KnownPrimitive(Int)), TypeEquation(rr, KnownPrimitive(Int)), TypeEquation(n, KnownPrimitive(Int))]
            && r.st.scope.sources == base.sources + [SourceEntry(l, NumericOperator), SourceEntry(rr, NumericOperator), SourceEntry(n, NumericOperator)])
      && (IsComparison(op) ==>
            && r.st.scope.equations == base.equations + [TypeEquation(l, KnownPrimitive(Int)), TypeEquation(rr, KnownPrimitive(Int)), TypeEquation(n, KnownPrimitive(Bool))]
            && r.st.scope.sources == base.sources + [SourceEntry(l, NumericOperator), SourceEntry(rr, NumericOperator), SourceEntry(n, BooleanOperator)])
      && (IsEquality(op) ==>
            && r.st.scope.equations == base.equations + [TypeEquation(l, Variable(rr)), TypeEquation(rr, Variable(l)), TypeEquation(n, KnownPrimitive(Bool))]
            && r.st.scope.sources == base.sources + [SourceEntry(l, EqualityOperator), SourceEntry(rr, EqualityOperator), SourceEntry(n, EqualityOperator)])
  {
  }

  /**
   * `visit_binary_op`: the left operand is visited before the right, and the
   * operator's equations (BinaryTailTyped) follow on the operands' nodes.
   */
  lemma BinaryTyped(env: TEnv, st: TState, op: Operator, left: Expr, right: Expr)
    requires HandlesExpr(BinaryOp(op, left, right))
    ensures var v1 := TypeExpr(env, st, left);
      && v1.Done?
      && var v2 := TypeExpr(env, v1.st, right);
      && v2.Done?
      && TypeExpr(env, st, BinaryOp(op, left, right)) == BinaryTail(v2.st, op, v1.st.current, v2.st.current)
  {
    ExprCompletes(env, st, left);
    var v1 := TypeExpr(env, st, left);
    ExprCompletes(env, v1.st, right);
  }

  /** Every binary operator but `Custom` is arithmetic, a comparison or (in)equality, and only one of them. */
  lemma OperatorClasses(op: Operator)
    requires op != Custom
    ensures IsArithmetic(op) || IsComparison(op) || IsEquality(op)
    ensures !(IsArithmetic(op) && IsComparison(op)) && !(IsArithmetic(op) && IsEquality(op)) && !(IsComparison(op) && IsEquality(op))
  {
  }

  /**
   * `visit_if_expr`: the condition (visited from a reset register) is made
   * `bool`, then the true and the else branch are visited; the true
   * branch's node is equated with the else branch's, both are tagged, and
   * the register ends on the else branch.
   */
  lemma IfExprTyped(env: TEnv, st: TState, c: Expr, t: Expr, f: Expr)
    requires Valid(st.scope) && HandlesExpr(IfExpr(c, t, f))
    ensures var v1 := TypeExpr(env, st.(current := DefaultNode), c);
      && v1.Done?
      && var cond := v1.st.current;
      && var v2 := TypeExpr(env, Constrain(v1.st, cond, KnownPrimitive(Bool), IfConditionalBool), t);
      && v2.Done?
      && var v3 := TypeExpr(env, v2.st, f);
      && v3.Done?
      && var r := TypeExpr(env, st, IfExpr(c, t, f));
      && r.Done?
      && v1.st.scope.equations + [TypeEquation(cond, KnownPrimitive(Bool))] <= r.st.scope.equations
      && v1.st.scope.sources + [SourceEntry(cond, IfConditionalBool)] <= r.st.scope.sources
      && r.st.scope.equations == v3.st.scope.equations + [TypeEquation(v2.st.current, Variable(v3.st.current))]
      && r.st.scope.sources == v3.st.scope.sources + [SourceEntry(v2.st.current, IfBranchesSame), SourceEntry(v3.st.current, IfBranchesSame)]
      && r.st.current == v3.st.current
  {
    var s0 := st.(current := DefaultNode);
    ExprEvolves(env, s0, c);
    var v1 := TypeExpr(env, s0, c);
    var s1 := Constrain(v1.st, v1.st.current, KnownPrimitive(Bool), IfConditionalBool);
    ExprEvolves(env, s1, t);
    var v2 := TypeExpr(env, s1, t);
    ExprEvolves(env, v2.st, f);
    var v3 := TypeExpr(env, v2.st, f);
    assert TypeExpr(env, st, IfExpr(c, t, f)) == Done(IfBranches(v3.st, v2.st.current, v3.st.current));
    assert s1.scope.equations <= v3.st.scope.equations;
    assert s1.scope.sources <= v3.st.scope.sources;
  }

  /** The parameter names of a call's argument map: the empty name for a bare argument, the argument names otherwise. */
  function ArgNames(args: FnCallArgs): set<string>
  {
    match args
    case SingleExpr(_) => {""}
    case Arguments(list) => set i | 0 <= i < |list| :: list[i].name.name
  }

  lemma {:induction false} ArgumentListKeys(env: TEnv, st: TState, list: seq<CallArgument>, params: map<string, InferredType>)
    requires forall i :: 0 <= i < |list| ==> HandlesArgument(list[i])
    ensures TypeArgumentList(env, st, list, params).ArgsDone?
    ensures TypeArgumentList(env, st, list, params).params.Keys == params.Keys + ArgNames(Arguments(list))
    decreases list
  {
    if list != [] {
      ArgumentCompletes(env, st, list[0]);
      var v := TypeArgument(env, st, list[0]);
      assert forall i :: 0 <= i < |list[1..]| ==> list[1..][i] == list[i + 1];
      var p2 := params[list[0].name.name := Variable(v.st.current)];
      ArgumentListKeys(env, Tag(v.st, v.st.current, InferenceSource.CallArgument), list[1..], p2);
      assert ArgNames(Arguments(list)) == {list[0].name.name} + ArgNames(Arguments(list[1..])) by {
        forall x | x in ArgNames(Arguments(list))
          ensures x in {list[0].name.name} + ArgNames(Arguments(list[1..]))
        {
          var i :| 0 <= i < |list| && list[i].name.name == x;
          if i > 0 {
            assert list[1..][i - 1].name.name == x;
          }
        }
        forall x | x in ArgNames(Arguments(list[1..]))
          ensures x in ArgNames(Arguments(list))
        {
          var i :| 0 <= i < |list[1..]| && list[1..][i].name.name == x;
          assert list[i + 1].name.name == x;
        }
      }
    }
  }

  /**
   * `visit_fn_call` with a resolved callee: the fresh result node is taken
   * before the arguments are visited; the parameter map is keyed by `""` for
   * a bare argument and by the argument names otherwise; the callee's node is
   * equated with a function of that map returning the result, which is left
   * in the register.
   */
  lemma FnCallTyped(env: TEnv, st: TState, callee: Identifier, args: FnCallArgs)
    requires Valid(st.scope) && !IsDefault(callee.id) && HandlesArgs(args)
    ensures var result := st.scope.next;
      && var a := TypeCallArgs(env, Fresh(st).0, args);
      && a.ArgsDone?
      && a.params.Keys == ArgNames(args)
      && var r := TypeExpr(env, st, FnCall(callee, args));
      && r.Done?
      && SlotId(callee.id) in r.st.scope.nodes
      && r.st.scope.equations == a.st.scope.equations + [TypeEquation(r.st.scope.nodes[SlotId(callee.id)], Fn(a.params, Variable(result)))]
      && r.st.scope.sources == a.st.scope.sources + [SourceEntry(result, CallReturnType)]
      && r.st.current == result && result != DefaultNode
  {
    var s1 := Fresh(st).0;
    CallArgsCompletes(env, s1, args);
    if args.Arguments? {
      ArgumentListKeys(env, s1, args.args, map[]);
    }
  }

  /**
   * `visit_assignment` to a resolved name: the name's node (taken before the
   * value is visited) is equated with the value's node, and the register is
   * reset.
   */
  lemma AssignmentTyped(env: TEnv, st: TState, lvalue: Identifier, rvalue: Expr)
    requires Valid(st.scope) && !IsDefault(lvalue.id) && HandlesExpr(rvalue)
    ensures var s1 := Node(st, SlotId(lvalue.id)).0;
      && var v := TypeExpr(env, s1, rvalue);
      && v.Done?
      && var r := TypeExpr(env, st, Assignment(lvalue, rvalue));
      && r.Done?
      && SlotId(lvalue.id) in r.st.scope.nodes
      && var lnode := r.st.scope.nodes[SlotId(lvalue.id)];
      && r.st.scope.equations == v.st.scope.equations + [TypeEquation(lnode, Variable(v.st.current))]
      && r.st.scope.sources == v.st.scope.sources + [SourceEntry(lnode, AssignmentSource)]
      && r.st.current == DefaultNode
  {
    GetNodeSpec(st.scope, SlotId(lvalue.id));
    var s1 := Node(st, SlotId(lvalue.id)).0;
    ExprEvolves(env, s1, rvalue);
  }

  /** Assignments to, calls of, and blocks and if-blocks with an unresolved id are skipped: nothing changes. */
  lemma UnresolvedAreSkipped(env: TEnv, st: TState, ident: Identifier, e: Expr, args: FnCallArgs, b: Block, ib: IfBlock)
    requires IsDefault(ident.id) && IsDefault(b.id) && IsDefault(ib.id)
    ensures TypeExpr(env, st, Assignment(ident, e)) == Done(st)
    ensures TypeExpr(env, st, FnCall(ident, args)) == Done(st)
    ensures TypeBlock(env, st, b) == Done(st)
    ensures TypeIfBlock(env, st, ib) == Done(st)
  {
  }

  /**
   * `visit_declaration`: the variable's node gets the annotation's equation
   * only when there is an annotation, then (after the initializer) always
   * the initializer's node; the register is reset.
   */
  lemma DeclarationTyped(env: TEnv, st: TState, ident: Identifier, ty: Option<ConcreteType>, value: Expr)
    requires Valid(st.scope) && HandlesExpr(value)
    ensures var s1 := DeclaredNode(st, ident, ty).0;
      && var r := TypeExpr(env, st, Declaration(ident, ty, value));
      && r.Done?
      && SlotId(ident.id) in r.st.scope.nodes
      && var vnode := r.st.scope.nodes[SlotId(ident.id)];
      && s1.scope.equations == st.scope.equations + (if ty.Some? then [TypeEquation(vnode, Known(ty.value))] else [])
      && s1.scope.sources == st.scope.sources + (if ty.Some? then [SourceEntry(vnode, ExplicitDecl)] else [])
      && var v := TypeExpr(env, s1, value);
      && v.Done?
      && r.st.scope.equations == v.st.scope.equations + [TypeEquation(vnode, Variable(v.st.current))]
      && r.st.scope.sources == v.st.scope.sources + [SourceEntry(vnode, DeclarationSource)]
      && r.st.current == DefaultNode
  {
    GetNodeSpec(st.scope, SlotId(ident.id));
    var s1 := DeclaredNode(st, ident, ty).0;
    DeclaredNodeEvolves(st, ident, ty);
    ExprEvolves(env, s1, value);
  }

  /**
   * `visit_return_stmt`: without a value the return node is made unit; with
   * one, it is equated with the value's node unless it is the default node;
   * the `ExplicitReturn` source is recorded in every case.
   */
  lemma ReturnTyped(env: TEnv, st: TState, value: Option<Expr>)
    requires value.Some? ==> HandlesExpr(value.value)
    ensures var r := TypeReturn(env, st, value);
      && r.Done?
      && (value.None? ==>
            && r.st.scope.equations == st.scope.equations + [TypeEquation(env.returnNode, KnownPrimitive(Unary))]
            && r.st.scope.sources == st.scope.sources + [SourceEntry(env.returnNode, ExplicitReturn)])
      && (value.Some? ==>
            && var v := TypeExpr(env, st.(current := DefaultNode), value.value);
            && v.Done?
            && r.st.scope.equations == v.st.scope.equations
                 + (if env.returnNode != DefaultNode then [TypeEquation(env.returnNode, Variable(v.st.current))] else [])
            && r.st.scope.sources == v.st.scope.sources + [SourceEntry(env.returnNode, ExplicitReturn)])
  {
    if value.Some? {
      ExprCompletes(env, st.(current := DefaultNode), value.value);
    }
  }

  /** `get_id` never moves an id that already has a node. */
  predicate KeepsNodes(sc: TypeScope, sc2: TypeScope)
  {
    forall id :: id in sc.nodes ==> id in sc2.nodes && sc2.nodes[id] == sc.nodes[id]
  }

  lemma {:induction false} ParamsKeepNodes(st: TState, ps: seq<Param>)
    ensures KeepsNodes(st.scope, TypeParams(st, ps).scope)
    decreases ps
  {
    if ps != [] {
      var id0 := SlotId(ps[0].ident.id);
      var s1, n := Node(st, id0).0, Node(st, id0).1;
      var s2 := Constrain(s1, n, Known(ps[0].ty), FnParameter);
      ParamsKeepNodes(s2, ps[1..]);
    }
  }

  /**
   * The parameter loop of `visit_block_fn_decl`: exactly one equation and one
   * source per parameter, in order, each making the parameter's node its
   * declared type.
   */
  lemma {:induction false} ParamsTyped(st: TState, ps: seq<Param>)
    ensures var r := TypeParams(st, ps).scope;
      && |r.equations| == |st.scope.equations| + |ps| && st.scope.equations <= r.equations
      && |r.sources| == |st.scope.sources| + |ps| && st.scope.sources <= r.sources
      && forall k :: 0 <= k < |ps| ==>
           && SlotId(ps[k].ident.id) in r.nodes
           && r.equations[|st.scope.equations| + k] == TypeEquation(r.nodes[SlotId(ps[k].ident.id)], Known(ps[k].ty))
           && r.sources[|st.scope.sources| + k] == SourceEntry(r.nodes[SlotId(ps[k].ident.id)], FnParameter)
    decreases ps
  {
    if ps != [] {
      var id0 := SlotId(ps[0].ident.id);
      var s1, n := Node(st, id0).0, Node(st, id0).1;
      var s2 := Constrain(s1, n, Known(ps[0].ty), FnParameter);
      assert id0 in s2.scope.nodes && s2.scope.nodes[id0] == n;
      ParamsTyped(s2, ps[1..]);
      ParamsKeepNodes(s2, ps[1..]);
      var r := TypeParams(st, ps).scope;
      assert r == TypeParams(s2, ps[1..]).scope;
      assert r.equations[|st.scope.equations|] == TypeEquation(n, Known(ps[0].ty));
      assert r.sources[|st.scope.sources|] == SourceEntry(n, FnParameter);
      forall k | 0 < k < |ps|
        ensures ps[k] == ps[1..][k - 1]
      {
      }
    }
  }

  /**
   * The signature part of `visit_block_fn_decl`: first the function's node
   * is made its recorded type, then exactly one equation per parameter.
   */
  lemma FnSignatureTyped(st: TState, fnId: Id, ty: ConcreteType, ps: seq<Param>)
    ensures var r := FnSignature(st, fnId, ty, ps).scope;
      && fnId in r.nodes
      && |r.equations| == |st.scope.equations| + 1 + |ps|
      && |r.sources| == |st.scope.sources| + 1 + |ps|
      && st.scope.equations + [TypeEquation(r.nodes[fnId], Known(ty))] <= r.equations
      && st.scope.sources + [SourceEntry(r.nodes[fnId], FunctionSignature)] <= r.sources
      && forall k :: 0 <= k < |ps| ==>
           && SlotId(ps[k].ident.id) in r.nodes
           && r.equations[|st.scope.equations| + 1 + k] == TypeEquation(r.nodes[SlotId(ps[k].ident.id)], Known(ps[k].ty))
           && r.sources[|st.scope.sources| + 1 + k] == SourceEntry(r.nodes[SlotId(ps[k].ident.id)], FnParameter)
  {
    var s1, fnNode := Node(st, fnId).0, Node(st, fnId).1;
    var s2 := Constrain(s1, fnNode, Known(ty), FunctionSignature);
    assert fnId in s2.scope.nodes && s2.scope.nodes[fnId] == fnNode;
    ParamsTyped(s2, ps);
    ParamsKeepNodes(s2, ps);
  }

  /** A function declaration without an id, or without a recorded type, adds nothing. */
  lemma FnDeclSkipped(env: TEnv, st: TState, f: FnDeclaration)
    requires SlotId(f.ident.id) == DefaultId || SlotId(f.ident.id) !in env.types
    ensures TypeFnDecl(env, st, f) == Done(st)
  {
  }

  /**
   * `visit_block_fn_decl` after the signature: the block is visited, and the
   * implicit-return equation (the register's node is the declared return
   * type) is added exactly when the declared return type is not `()`.
   */
  lemma FnDeclTyped(env: TEnv, st: TState, f: FnDeclaration)
    requires SlotId(f.ident.id) != DefaultId && SlotId(f.ident.id) in env.types && HandlesBlock(f.block)
    ensures var fnId := SlotId(f.ident.id);
      && var b := TypeBlock(env, FnSignature(st, fnId, env.types[fnId], f.params), f.block);
      && b.Done?
      && var r := TypeFnDecl(env, st, f);
      && r.Done?
      && r.st.scope.equations == b.st.scope.equations
           + (if f.returnType != Primitive(Unary) then [TypeEquation(b.st.current, Known(f.returnType))] else [])
      && r.st.scope.sources == b.st.scope.sources
           + (if f.returnType != Primitive(Unary) then [SourceEntry(b.st.current, ImplicitReturn)] else [])
      && (|r.st.scope.equations| == |b.st.scope.equations| + 1 <==> f.returnType != Primitive(Unary))
  {
    var fnId := SlotId(f.ident.id);
    BlockCompletes(env, FnSignature(st, fnId, env.types[fnId], f.params), f.block);
  }

  /**
   * One arm of `visit_if_block`: after its condition is visited, the
   * condition's node is made `bool` before anything else is added; a typed
   * arm pushes the if-block's node.
   */
  lemma ArmTyped(env: TEnv, st: TState, arm: Conditional, typed: bool, node: nat)
    requires Valid(st.scope) && HandlesArm(arm) && (typed ==> st.lvalues != [])
    ensures var v := TypeExpr(env, st, arm.condition);
      && v.Done?
      && var r := TypeArm(env, st, arm, typed, node);
      && r.Done?
      && v.st.scope.equations + [TypeEquation(v.st.current, KnownPrimitive(Bool))] <= r.st.scope.equations
      && v.st.scope.sources + [SourceEntry(v.st.current, IfConditionalBool)] <= r.st.scope.sources
      && (typed ==> v.st.lvalues + [node] <= r.st.lvalues)
  {
    ExprEvolves(env, st, arm.condition);
    var v := TypeExpr(env, st, arm.condition);
    var s1 := Constrain(v.st, v.st.current, KnownPrimitive(Bool), IfConditionalBool).(current := DefaultNode);
    var s2 := EnterArm(s1, typed, node);
    EnterArmEvolves(s1, typed, node);
    BlockEvolves(env, s2, arm.block);
  }

  /** The nodes of the conditions of `cs`, in order, as the arm loop visits them. */
  function ConditionNodes(env: TEnv, st: TState, cs: seq<Conditional>, typed: bool, node: nat): seq<nat>
    decreases cs
  {
    if cs == [] then []
    else
      var v := TypeExpr(env, st, cs[0].condition);
      var a := TypeArm(env, st, cs[0], typed, node);
      if v.Fatal? || a.Fatal? then [] else [v.st.current] + ConditionNodes(env, a.st, cs[1..], typed, node)
  }

  /** The arm loop of `visit_if_block` makes every condition's node `bool`. */
  lemma {:induction false} ConditionalsTyped(env: TEnv, st: TState, cs: seq<Conditional>, typed: bool, node: nat)
    requires Valid(st.scope) && (forall i :: 0 <= i < |cs| ==> HandlesArm(cs[i])) && (typed ==> st.lvalues != [])
    ensures var r := TypeConditionals(env, st, cs, typed, node);
      && r.Done?
      && var ns := ConditionNodes(env, st, cs, typed, node);
      && |ns| == |cs|
      && forall k :: 0 <= k < |ns| ==>
           && TypeEquation(ns[k], KnownPrimitive(Bool)) in r.st.scope.equations
           && SourceEntry(ns[k], IfConditionalBool) in r.st.scope.sources
    decreases cs
  {
    if cs != [] {
      assert cs[0] in cs;
      ArmTyped(env, st, cs[0], typed, node);
      ArmEvolves(env, st, cs[0], typed, node);
      var v := TypeExpr(env, st, cs[0].condition);
      var a := TypeArm(env, st, cs[0], typed, node);
      assert forall i :: 0 <= i < |cs[1..]| ==> cs[1..][i] == cs[i + 1];
      ConditionalsTyped(env, a.st, cs[1..], typed, node);
      ConditionalsEvolves(env, a.st, cs[1..], typed, node);
      var r := TypeConditionals(env, st, cs, typed, node);
      var ns := ConditionNodes(env, st, cs, typed, node);
      assert r == TypeConditionals(env, a.st, cs[1..], typed, node);
      var eq0 := TypeEquation(v.st.current, KnownPrimitive(Bool));
      var src0 := SourceEntry(v.st.current, IfConditionalBool);
      assert a.st.scope.equations[|v.st.scope.equations|] == eq0;
      assert a.st.scope.sources[|v.st.scope.sources|] == src0;
      assert r.st.scope.equations[|v.st.scope.equations|] == eq0;
      assert r.st.scope.sources[|v.st.scope.sources|] == src0;
    }
  }

  /**
   * `visit_if_block` with an id: every condition's node is made `bool`; the
   * block is typed only when it has an else arm and the lvalue stack is
   * non-empty, and then its node is pushed and left in the register; from
   * an empty stack nothing is ever pushed.
   */
  lemma IfBlockTyped(env: TEnv, st: TState, ib: IfBlock)
    requires Valid(st.scope) && !IsDefault(ib.id) && HandlesIfBlock(ib)
    ensures var typed := ib.elseBlock.Some? && st.lvalues != [];
      && var r := TypeIfBlock(env, st, ib);
      && r.Done?
      && var ns := ConditionNodes(env, st, ib.conditionals, typed, ib.typeNode);
      && |ns| == |ib.conditionals|
      && (forall k :: 0 <= k < |ns| ==>
            && TypeEquation(ns[k], KnownPrimitive(Bool)) in r.st.scope.equations
            && SourceEntry(ns[k], IfConditionalBool) in r.st.scope.sources)
      && (typed ==> r.st.current == ib.typeNode && |st.lvalues| < |r.st.lvalues| && ib.typeNode in r.st.lvalues[|st.lvalues|..])
      && (st.lvalues == [] ==> r.st.lvalues == [])
  {
    var typed := ib.elseBlock.Some? && st.lvalues != [];
    ConditionalsTyped(env, st, ib.conditionals, typed, ib.typeNode);
    ConditionalsEvolves(env, st, ib.conditionals, typed, ib.typeNode);
    IfBlockEvolves(env, st, ib);
    var v := TypeConditionals(env, st, ib.conditionals, typed, ib.typeNode);
    if ib.elseBlock.Some? {
      var s1 := EnterArm(v.st, typed, ib.typeNode);
      BlockEvolves(env, s1, ib.elseBlock.value);
      var b := TypeBlock(env, s1, ib.elseBlock.value);
      if typed {
        assert b.st.lvalues[|v.st.lvalues|] == ib.typeNode;
        assert b.st.lvalues[|st.lvalues|..][|v.st.lvalues| - |st.lvalues|] == ib.typeNode;
      }
    }
  }

  // ---- The result type of `==` and `!=` (see README, Findings) ----

  /**
   * As written, `==` constrains its fresh result to `int`; used as an `if`
   * condition (`if a == b ...`), that node is also made `bool`, so the
   * equations give one node two different primitive types and the program
   * cannot be typed.
   */
  lemma EqualityResultAsWrittenClashes(st: TState, l: nat, r: nat)
    ensures var v := BinaryTailAsWritten(st, Equality, l, r);
      && v.Done?
      && var n := v.st.current;
      && var s := Constrain(v.st, n, KnownPrimitive(Bool), IfConditionalBool);
      && TypeEquation(n, KnownPrimitive(Int)) in s.scope.equations
      && TypeEquation(n, KnownPrimitive(Bool)) in s.scope.equations
      && ResultPrimitiveAsWritten(Equality) != ResultPrimitiveAsWritten(LessThan)
  {
    var v := BinaryTailAsWritten(st, Equality, l, r);
    var s := Constrain(v.st, v.st.current, KnownPrimitive(Bool), IfConditionalBool);
    assert s.scope.equations[|s.scope.equations| - 2] == TypeEquation(v.st.current, KnownPrimitive(Int));
  }
}
