/**
 * The name pass (`NameIdentifier`) as functions of its state: the id cursor,
 * the scope stack and the error list. Each function returns the new state and
 * the tree with its identifier slots filled in. The class in
 * name_identifier.dfy is proved to compute exactly these functions.
 *
 * Two steps of the source are kept in an as-written form beside the form the
 * rest of the model uses (see README, Findings): a function declaration's
 * scope is never popped, and a variable declaration is never defined.
 */
module NameResolution {
  import opened Wrappers
  import opened ScopedIds
  import opened Scopes
  import opened Ast

  /** The diagnostics the name pass collects (the message kind and the offending name). */
  datatype CheckError =
    | ArgumentAlreadyDeclared(name: string)
    | VariableAlreadyDeclared(name: string)
    | UnknownFunction(name: string)

  datatype NState = NState(cursor: Id, scopes: seq<Scope>, errors: seq<CheckError>)

  function AddError(st: NState, e: CheckError): NState
  {
    st.(errors := st.errors + [e])
  }

  /** `check_var_ref`: a reference that resolves takes the found id; otherwise nothing happens. */
  function ResolveVarRef(st: NState, ident: Identifier): (NState, Identifier)
  {
    match Lookup(st.scopes, ident.name)
    case Some(found) => (st, ident.(id := Some(found)))
    case None => (st, ident)
  }

  /**
   * The name check of `check_declaration`, run after the initializer: a name
   * that is already visible is an error; otherwise the declaration takes the
   * cursor's id, is defined in the innermost scope, and the cursor advances.
   */
  function DeclareVariable(st: NState, ident: Identifier): (NState, Identifier)
  {
    if Lookup(st.scopes, ident.name).Some? then
      (AddError(st, VariableAlreadyDeclared(ident.name)), ident)
    else
      (st.(cursor := Increment(st.cursor), scopes := Define(st.scopes, ident.name, st.cursor)),
       ident.(id := Some(st.cursor)))
  }

  /** `check_declaration` as written: the id is computed and dropped, the name is never defined. */
  function DeclareVariableAsWritten(st: NState, ident: Identifier): (NState, Identifier)
  {
    if Lookup(st.scopes, ident.name).Some? then
      (AddError(st, VariableAlreadyDeclared(ident.name)), ident)
    else
      (st.(cursor := Increment(st.cursor)), ident)
  }

  function ResolveExpr(st: NState, e: Expr): (NState, Expr)
    decreases e
  {
    match e
    case Literal(_) => (st, e)
    case VarRef(ident) =>
      var (s1, i1) := ResolveVarRef(st, ident);
      (s1, VarRef(i1))
    case UnaryOp(op, inner) =>
      var (s1, i1) := ResolveExpr(st, inner);
      (s1, UnaryOp(op, i1))
    case BinaryOp(op, left, right) =>
      var (s1, l1) := ResolveExpr(st, left);
      var (s2, r1) := ResolveExpr(s1, right);
      (s2, BinaryOp(op, l1, r1))
    case IfExpr(c, t, f) =>
      var (s1, c1) := ResolveExpr(st, c);
      var (s2, t1) := ResolveExpr(s1, t);
      var (s3, f1) := ResolveExpr(s2, f);
      (s3, IfExpr(c1, t1, f1))
    case FnCall(callee, args) =>
      (match Lookup(st.scopes, callee.name)
       case None => (AddError(st, UnknownFunction(callee.name)), e)
       case Some(fnId) =>
         var (s1, a1) := ResolveCallArgs(st, args);
         (s1, FnCall(callee.(id := Some(fnId)), a1)))
    case Assignment(lvalue, rvalue) =>
      var (s1, l1) := ResolveVarRef(st, lvalue);
      var (s2, r1) := ResolveExpr(s1, rvalue);
      (s2, Assignment(l1, r1))
    case Declaration(ident, ty, value) =>
      var (s1, v1) := ResolveExpr(st, value);
      var (s2, i1) := DeclareVariable(s1, ident);
      (s2, Declaration(i1, ty, v1))
  }

  function ResolveCallArgs(st: NState, args: FnCallArgs): (NState, FnCallArgs)
    decreases args
  {
    match args
    case SingleExpr(e) =>
      var (s1, e1) := ResolveExpr(st, e);
      (s1, SingleExpr(e1))
    case Arguments(list) =>
      var (s1, l1) := ResolveArgumentList(st, list);
      (s1, Arguments(l1))
  }

  /** One named argument: its value when it has one, else its name as a variable reference. */
  function ResolveArgument(st: NState, arg: CallArgument): (NState, CallArgument)
    decreases arg
  {
    match arg.value
    case Some(e) =>
      var (s1, e1) := ResolveExpr(st, e);
      (s1, arg.(value := Some(e1)))
    case None =>
      var (s1, n1) := ResolveVarRef(st, arg.name);
      (s1, arg.(name := n1))
  }

  /** Named arguments, in order. */
  function ResolveArgumentList(st: NState, args: seq<CallArgument>): (NState, seq<CallArgument>)
    decreases args
  {
    if args == [] then (st, [])
    else
      var (s1, a1) := ResolveArgument(st, args[0]);
      var (s2, rest) := ResolveArgumentList(s1, args[1..]);
      (s2, [a1] + rest)
  }

  function ResolveStmt(st: NState, s: Stmt): (NState, Stmt)
    decreases s
  {
    match s
    case ExprStmt(e) =>
      var (s1, e1) := ResolveExpr(st, e);
      (s1, ExprStmt(e1))
    case DoStmt(b) =>
      var (s1, b1) := ResolveBlock(st, b);
      (s1, DoStmt(b1))
    case IfStmt(ib) =>
      var (s1, cs) := ResolveConditionals(st, ib.conditionals);
      (match ib.elseBlock
       case None => (s1, IfStmt(ib.(conditionals := cs)))
       case Some(b) =>
         var (s2, b1) := ResolveBlock(s1, b);
         (s2, IfStmt(ib.(conditionals := cs, elseBlock := Some(b1)))))
    case ReturnStmt(v) =>
      (match v
       case None => (st, s)
       case Some(e) =>
         var (s1, e1) := ResolveExpr(st, e);
         (s1, ReturnStmt(Some(e1))))
  }

  function ResolveConditionals(st: NState, cs: seq<Conditional>): (NState, seq<Conditional>)
    decreases cs
  {
    if cs == [] then (st, [])
    else
      var Conditional(condition, block) := cs[0];
      assert cs[0] in cs && block < cs[0];
      var (s1, c1) := ResolveExpr(st, condition);
      var (s2, b1) := ResolveBlock(s1, block);
      var (s3, rest) := ResolveConditionals(s2, cs[1..]);
      (s3, [Conditional(c1, b1)] + rest)
  }

  function ResolveStmts(st: NState, stmts: seq<Stmt>): (NState, seq<Stmt>)
    decreases stmts
  {
    if stmts == [] then (st, [])
    else
      var (s1, x) := ResolveStmt(st, stmts[0]);
      var (s2, rest) := ResolveStmts(s1, stmts[1..]);
      (s2, [x] + rest)
  }

  /**
   * `check_block`: one cursor level and one scope for the statements, both
   * dropped afterwards, then the outer level advances past the block.
   */
  function ResolveBlock(st: NState, b: Block): (NState, Block)
    decreases b
  {
    var inner := st.(cursor := Push(st.cursor), scopes := PushScope(st.scopes));
    var (s1, stmts) := ResolveStmts(inner, b.stmts);
    (s1.(cursor := Increment(Pop(s1.cursor)), scopes := PopScope(s1.scopes)), b.(stmts := stmts))
  }

  /**
   * One parameter: a name already visible is a duplicate (an error, no id, the
   * cursor stays); otherwise the parameter takes the cursor's id, is defined
   * in the innermost scope, and the cursor advances.
   */
  function DeclareParam(st: NState, p: Param): (NState, Param)
  {
    if Lookup(st.scopes, p.ident.name).Some? then
      (AddError(st, ArgumentAlreadyDeclared(p.ident.name)), p)
    else
      (st.(cursor := Increment(st.cursor), scopes := Define(st.scopes, p.ident.name, st.cursor)),
       p.(ident := p.ident.(id := Some(st.cursor))))
  }

  function ResolveParams(st: NState, ps: seq<Param>): (NState, seq<Param>)
    decreases ps
  {
    if ps == [] then (st, [])
    else
      var (s1, p1) := DeclareParam(st, ps[0]);
      var (s2, rest) := ResolveParams(s1, ps[1..]);
      (s2, [p1] + rest)
  }

  /**
   * The body of `check_fn_declaration` for a function whose id is not the default: the
   * cursor restarts below the function's id, one scope is entered, and the
   * parameters and then the statements are checked in that same scope.
   */
  function ResolveFnBody(st: NState, f: FnDeclaration): (NState, FnDeclaration)
    requires SlotId(f.ident.id) != DefaultId
  {
    var entered := st.(cursor := Push(SlotId(f.ident.id)), scopes := PushScope(st.scopes));
    var (s1, ps) := ResolveParams(entered, f.params);
    var (s2, stmts) := ResolveStmts(s1, f.block.stmts);
    (s2, f.(params := ps, block := f.block.(stmts := stmts)))
  }

  /** `check_fn_declaration` as written: the function's scope is left on the stack. */
  function ResolveFnDeclarationAsWritten(st: NState, f: FnDeclaration): (NState, FnDeclaration)
  {
    if SlotId(f.ident.id) == DefaultId then (st, f) else ResolveFnBody(st, f)
  }

  /**
   * `check_fn_declaration` with the function's scope popped at the end. A
   * function whose id reads as the default (a duplicate the item pass
   * reported) is skipped.
   */
  function ResolveFnDeclaration(st: NState, f: FnDeclaration): (NState, FnDeclaration)
  {
    if SlotId(f.ident.id) == DefaultId then (st, f)
    else
      var (s1, f1) := ResolveFnBody(st, f);
      (s1.(scopes := PopScope(s1.scopes)), f1)
  }

  function ResolveItems(st: NState, items: seq<FnDeclaration>): (NState, seq<FnDeclaration>)
    decreases items
  {
    if items == [] then (st, [])
    else
      var (s1, f1) := ResolveFnDeclaration(st, items[0]);
      var (s2, rest) := ResolveItems(s1, items[1..]);
      (s2, [f1] + rest)
  }

  /** `check_unit`: increment, then push, check every item, then pop. */
  function ResolveUnit(st: NState, u: Unit): (NState, Unit)
  {
    var entered := st.(cursor := Push(Increment(st.cursor)));
    var (s1, items) := ResolveItems(entered, u.items);
    (s1.(cursor := Pop(s1.cursor)), Unit(items))
  }
}
