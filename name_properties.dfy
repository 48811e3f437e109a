/**
 * Properties of the name pass, proved about the functions of NameResolution
 * (and so, through the class's postconditions, about `NameIdentifier`).
 *
 * The central invariant is `Allocates`: a walk over an expression, a
 * statement or a statement list moves the cursor forward within its own
 * scope level, keeps every outer scope table, only appends errors, and the
 * ids it writes into declaration slots are pairwise distinct and lie between
 * the cursor's old and new positions. Blocks, parameter lists, functions and
 * units are then stated in terms of it.
 */
module NameProperties {
  import opened Wrappers
  import opened ScopedIds
  import opened Scopes
  import opened Ast
  import opened NameResolution

  // ---------------------------------------------------------------------------
  // The ids a tree holds in its declaration slots (parameters and `let` names)
  // ---------------------------------------------------------------------------

  function SlotIds(slot: Option<Id>): seq<Id>
  {
    if slot.Some? then [slot.value] else []
  }

  function ExprIds(e: Expr): seq<Id>
    decreases e
  {
    match e
    case Literal(_) => []
    case VarRef(_) => []
    case UnaryOp(_, inner) => ExprIds(inner)
    case BinaryOp(_, left, right) => ExprIds(left) + ExprIds(right)
    case IfExpr(c, t, f) => ExprIds(c) + ExprIds(t) + ExprIds(f)
    case FnCall(_, args) => CallArgsIds(args)
    case Assignment(_, rvalue) => ExprIds(rvalue)
    case Declaration(ident, _, value) => ExprIds(value) + SlotIds(ident.id)
  }

  function CallArgsIds(args: FnCallArgs): seq<Id>
    decreases args
  {
    match args
    case SingleExpr(e) => ExprIds(e)
    case Arguments(list) => ArgumentListIds(list)
  }

  function ArgumentListIds(args: seq<CallArgument>): seq<Id>
    decreases args
  {
    if args == [] then []
    else
      var CallArgument(_, value) := args[0];
      var first :=
        match value
        case None => []
        case Some(e) =>
          assert args[0] in args && e < args[0];
          ExprIds(e);
      first + ArgumentListIds(args[1..])
  }

  function StmtIds(s: Stmt): seq<Id>
    decreases s
  {
    match s
    case ExprStmt(e) => ExprIds(e)
    case DoStmt(b) => BlockIds(b)
    case IfStmt(ib) =>
      ConditionalsIds(ib.conditionals) + (match ib.elseBlock case None => [] case Some(b) => BlockIds(b))
    case ReturnStmt(v) => (match v case None => [] case Some(e) => ExprIds(e))
  }

  function ConditionalsIds(cs: seq<Conditional>): seq<Id>
    decreases cs
  {
    if cs == [] then []
    else
      var Conditional(condition, block) := cs[0];
      assert cs[0] in cs && block < cs[0];
      ExprIds(condition) + BlockIds(block) + ConditionalsIds(cs[1..])
  }

  function StmtsIds(stmts: seq<Stmt>): seq<Id>
    decreases stmts
  {
    if stmts == [] then [] else StmtIds(stmts[0]) + StmtsIds(stmts[1..])
  }

  function BlockIds(b: Block): seq<Id>
    decreases b
  {
    StmtsIds(b.stmts)
  }

  function ParamIds(ps: seq<Param>): seq<Id>
  {
    if ps == [] then [] else SlotIds(ps[0].ident.id) + ParamIds(ps[1..])
  }

  function FnIds(f: FnDeclaration): seq<Id>
  {
    ParamIds(f.params) + StmtsIds(f.block.stmts)
  }

  function ItemsIds(items: seq<FnDeclaration>): seq<Id>
  {
    if items == [] then [] else FnIds(items[0]) + ItemsIds(items[1..])
  }

  // ---------------------------------------------------------------------------
  // The allocation invariant
  // ---------------------------------------------------------------------------

  predicate Distinct(ids: seq<Id>)
  {
    forall i, j :: 0 <= i < j < |ids| ==> ids[i] != ids[j]
  }

  /** `c2` is `c` moved forward (or left in place) within the same scope level. */
  predicate Advanced(c: Id, c2: Id)
  {
    |c| >= 1 && |c2| == |c| && Parent(c2) == Parent(c) && Last(c) <= Last(c2)
  }

  /**
   * `id` was handed out at the level of cursor `c`, or inside a scope entered
   * there, while the cursor moved from `c` to `c2`.
   */
  predicate Within(id: Id, c: Id, c2: Id)
  {
    |c| >= 1 && |id| >= |c| && id[..|c| - 1] == Parent(c) && Last(c) <= id[|c| - 1] < Last(c2)
  }

  predicate Allocates(st: NState, st2: NState, ids: seq<Id>)
  {
    && Advanced(st.cursor, st2.cursor)
    && |st2.scopes| == |st.scopes| && Outer(st2.scopes) == Outer(st.scopes)
    && st.errors <= st2.errors
    && Distinct(ids)
    && forall k :: 0 <= k < |ids| ==> Within(ids[k], st.cursor, st2.cursor)
  }

  /** Two walks in a row allocate from disjoint ranges of the same level. */
  lemma AllocatesThen(a: NState, b: NState, c: NState, x: seq<Id>, y: seq<Id>)
    requires Allocates(a, b, x) && Allocates(b, c, y)
    ensures Allocates(a, c, x + y)
  {
    var d := |a.cursor| - 1;
    forall i, j | 0 <= i < j < |x + y|
      ensures (x + y)[i] != (x + y)[j]
    {
      if i < |x| <= j {
        assert (x + y)[i][d] < Last(b.cursor) <= (x + y)[j][d];
      }
    }
  }

  /** An id inside the scope entered at `c` counts as handed out at `c`'s level before `Increment(c)`. */
  lemma InsideIsWithin(id: Id, c: Id)
    requires |c| >= 1 && |id| > |c| && id[..|c|] == c
    ensures Within(id, c, Increment(c))
  {
    assert id[..|c| - 1] == id[..|c|][..|c| - 1];
    assert id[|c| - 1] == id[..|c|][|c| - 1];
  }

  lemma {:induction false} ExprAllocates(st: NState, e: Expr)
    requires |st.cursor| >= 1 && ExprIds(e) == []
    ensures Allocates(st, ResolveExpr(st, e).0, ExprIds(ResolveExpr(st, e).1))
    decreases e, 1
  {
    match e
    case Literal(_) =>
    case VarRef(_) =>
    case UnaryOp(_, inner) =>
      ExprAllocates(st, inner);
    case BinaryOp(_, _, _) =>
      BinaryOpAllocates(st, e);
    case IfExpr(_, _, _) =>
      IfExprAllocates(st, e);
    case FnCall(callee, args) =>
      if Lookup(st.scopes, callee.name).Some? {
        CallArgsAllocates(st, args);
      }
    case Assignment(_, rvalue) =>
      ExprAllocates(st, rvalue);
    case Declaration(_, _, _) =>
      DeclarationAllocates(st, e);
  }

  lemma {:induction false} BinaryOpAllocates(st: NState, e: Expr)
    requires e.BinaryOp? && |st.cursor| >= 1 && ExprIds(e) == []
    ensures Allocates(st, ResolveExpr(st, e).0, ExprIds(ResolveExpr(st, e).1))
    decreases e, 0
  {
    var s1, l1 := ResolveExpr(st, e.left).0, ResolveExpr(st, e.left).1;
    ExprAllocates(st, e.left);
    var s2, r1 := ResolveExpr(s1, e.right).0, ResolveExpr(s1, e.right).1;
    ExprAllocates(s1, e.right);
    assert ResolveExpr(st, e) == (s2, BinaryOp(e.op, l1, r1));
    AllocatesThen(st, s1, s2, ExprIds(l1), ExprIds(r1));
  }

  lemma {:induction false} IfExprAllocates(st: NState, e: Expr)
    requires e.IfExpr? && |st.cursor| >= 1 && ExprIds(e) == []
    ensures Allocates(st, ResolveExpr(st, e).0, ExprIds(ResolveExpr(st, e).1))
    decreases e, 0
  {
    var s1, c1 := ResolveExpr(st, e.condition).0, ResolveExpr(st, e.condition).1;
    ExprAllocates(st, e.condition);
    var s2, t1 := ResolveExpr(s1, e.trueExpr).0, ResolveExpr(s1, e.trueExpr).1;
    ExprAllocates(s1, e.trueExpr);
    var s3, f1 := ResolveExpr(s2, e.elseExpr).0, ResolveExpr(s2, e.elseExpr).1;
    ExprAllocates(s2, e.elseExpr);
    assert ResolveExpr(st, e) == (s3, IfExpr(c1, t1, f1));
    AllocatesThen(st, s1, s2, ExprIds(c1), ExprIds(t1));
    AllocatesThen(st, s2, s3, ExprIds(c1) + ExprIds(t1), ExprIds(f1));
  }

  lemma {:induction false} DeclarationAllocates(st: NState, e: Expr)
    requires e.Declaration? && |st.cursor| >= 1 && ExprIds(e) == []
    ensures Allocates(st, ResolveExpr(st, e).0, ExprIds(ResolveExpr(st, e).1))
    decreases e, 0
  {
    var s1, v1 := ResolveExpr(st, e.value).0, ResolveExpr(st, e.value).1;
    ExprAllocates(st, e.value);
    var s2, i1 := DeclareVariable(s1, e.ident).0, DeclareVariable(s1, e.ident).1;
    assert ResolveExpr(st, e) == (s2, Declaration(i1, e.typeDecl, v1));
    assert Allocates(s1, s2, SlotIds(i1.id));
    AllocatesThen(st, s1, s2, ExprIds(v1), SlotIds(i1.id));
  }

  lemma {:induction false} CallArgsAllocates(st: NState, args: FnCallArgs)
    requires |st.cursor| >= 1 && CallArgsIds(args) == []
    ensures Allocates(st, ResolveCallArgs(st, args).0, CallArgsIds(ResolveCallArgs(st, args).1))
    decreases args, 1
  {
    match args
    case SingleExpr(e) => ExprAllocates(st, e);
    case Arguments(list) => ArgumentListAllocates(st, list);
  }

  lemma {:induction false} ArgumentListAllocates(st: NState, args: seq<CallArgument>)
    requires |st.cursor| >= 1 && ArgumentListIds(args) == []
    ensures Allocates(st, ResolveArgumentList(st, args).0, ArgumentListIds(ResolveArgumentList(st, args).1))
    decreases args, 1
  {
    if args != [] {
      var a := args[0];
      var s1: NState, a1: CallArgument, firstIds: seq<Id>;
      if a.value.Some? {
        var e := a.value.value;
        assert a in args && e < a;
        ExprAllocates(st, e);
        var s, e1 := ResolveExpr(st, e).0, ResolveExpr(st, e).1;
        s1, a1, firstIds := s, a.(value := Some(e1)), ExprIds(e1);
      } else {
        s1, a1, firstIds := st, a.(name := ResolveVarRef(st, a.name).1), [];
      }
      var s2, rest := ResolveArgumentList(s1, args[1..]).0, ResolveArgumentList(s1, args[1..]).1;
      ArgumentListAllocates(s1, args[1..]);
      assert ResolveArgumentList(st, args) == (s2, [a1] + rest);
      var out := [a1] + rest;
      assert out[0] == a1 && out[1..] == rest;
      assert ArgumentListIds(out) == firstIds + ArgumentListIds(rest);
      AllocatesThen(st, s1, s2, firstIds, ArgumentListIds(rest));
    }
  }

  lemma {:induction false} StmtAllocates(st: NState, s: Stmt)
    requires |st.cursor| >= 1 && StmtIds(s) == []
    ensures Allocates(st, ResolveStmt(st, s).0, StmtIds(ResolveStmt(st, s).1))
    decreases s, 1
  {
    match s
    case ExprStmt(e) =>
      ExprAllocates(st, e);
    case DoStmt(b) =>
      BlockAllocates(st, b);
    case IfStmt(ib) =>
      var s1, cs := ResolveConditionals(st, ib.conditionals).0, ResolveConditionals(st, ib.conditionals).1;
      ConditionalsAllocates(st, ib.conditionals);
      if ib.elseBlock.Some? {
        var b := ib.elseBlock.value;
        var s2, b1 := ResolveBlock(s1, b).0, ResolveBlock(s1, b).1;
        BlockAllocates(s1, b);
        AllocatesThen(st, s1, s2, ConditionalsIds(cs), BlockIds(b1));
      }
    case ReturnStmt(v) =>
      if v.Some? {
        ExprAllocates(st, v.value);
      }
  }

  lemma {:induction false} ConditionalsAllocates(st: NState, cs: seq<Conditional>)
    requires |st.cursor| >= 1 && ConditionalsIds(cs) == []
    ensures Allocates(st, ResolveConditionals(st, cs).0, ConditionalsIds(ResolveConditionals(st, cs).1))
    decreases cs, 1
  {
    if cs != [] {
      var Conditional(condition, block) := cs[0];
      assert cs[0] in cs && block < cs[0];
      var s1, c1 := ResolveExpr(st, condition).0, ResolveExpr(st, condition).1;
      ExprAllocates(st, condition);
      var s2, b1 := ResolveBlock(s1, block).0, ResolveBlock(s1, block).1;
      BlockAllocates(s1, block);
      var s3, rest := ResolveConditionals(s2, cs[1..]).0, ResolveConditionals(s2, cs[1..]).1;
      ConditionalsAllocates(s2, cs[1..]);
      AllocatesThen(st, s1, s2, ExprIds(c1), BlockIds(b1));
      AllocatesThen(st, s2, s3, ExprIds(c1) + BlockIds(b1), ConditionalsIds(rest));
      var out := [Conditional(c1, b1)] + rest;
      assert out[0] == Conditional(c1, b1) && out[1..] == rest;
    }
  }

  lemma {:induction false} StmtsAllocates(st: NState, stmts: seq<Stmt>)
    requires |st.cursor| >= 1 && StmtsIds(stmts) == []
    ensures Allocates(st, ResolveStmts(st, stmts).0, StmtsIds(ResolveStmts(st, stmts).1))
    decreases stmts, 1
  {
    if stmts != [] {
      var s1, x := ResolveStmt(st, stmts[0]).0, ResolveStmt(st, stmts[0]).1;
      StmtAllocates(st, stmts[0]);
      var s2, rest := ResolveStmts(s1, stmts[1..]).0, ResolveStmts(s1, stmts[1..]).1;
      StmtsAllocates(s1, stmts[1..]);
      AllocatesThen(st, s1, s2, StmtIds(x), StmtsIds(rest));
      var out := [x] + rest;
      assert out[0] == x && out[1..] == rest;
    }
  }

  /**
   * `check_block`: the scope stack comes back exactly as it was, the cursor
   * comes back to its own level advanced by one, and every id handed out
   * inside lies strictly inside the block's scope, distinct from the others.
   */
  lemma {:induction false} BlockAllocates(st: NState, b: Block)
    requires |st.cursor| >= 1 && BlockIds(b) == []
    ensures var s2, b2 := ResolveBlock(st, b).0, ResolveBlock(st, b).1;
      && s2.cursor == Increment(st.cursor)
      && s2.scopes == st.scopes
      && (forall k :: 0 <= k < |BlockIds(b2)| ==>
            |BlockIds(b2)[k]| > |st.cursor| && IsPrefix(st.cursor, BlockIds(b2)[k]))
      && Allocates(st, s2, BlockIds(b2))
    decreases b, 1
  {
    var c := st.cursor;
    var inner := st.(cursor := Push(c), scopes := PushScope(st.scopes));
    var s1, stmts := ResolveStmts(inner, b.stmts).0, ResolveStmts(inner, b.stmts).1;
    StmtsAllocates(inner, b.stmts);
    var s2, b2 := ResolveBlock(st, b).0, ResolveBlock(st, b).1;
    assert Pop(s1.cursor) == c;
    var ids := BlockIds(b2);
    assert ids == StmtsIds(stmts);
    forall k | 0 <= k < |ids|
      ensures |ids[k]| > |c| && IsPrefix(c, ids[k]) && Within(ids[k], c, s2.cursor)
    {
      assert Within(ids[k], Push(c), s1.cursor);
      InsideIsWithin(ids[k], c);
    }
  }

  // ---------------------------------------------------------------------------
  // Parameters
  // ---------------------------------------------------------------------------

  /** The errors a parameter list reports: one per parameter left without an id, in order. */
  function DuplicateErrors(ps: seq<Param>): seq<CheckError>
  {
    if ps == [] then []
    else (if ps[0].ident.id.None? then [ArgumentAlreadyDeclared(ps[0].ident.name)] else []) + DuplicateErrors(ps[1..])
  }

  /** A name that is already visible keeps its binding through a parameter list. */
  lemma {:induction false} ParamsKeepVisible(st: NState, ps: seq<Param>, n: string)
    requires Lookup(st.scopes, n).Some?
    ensures Lookup(ResolveParams(st, ps).0.scopes, n) == Lookup(st.scopes, n)
    decreases ps
  {
    if ps != [] {
      var s1, _ := DeclareParam(st, ps[0]).0, DeclareParam(st, ps[0]).1;
      assert Lookup(s1.scopes, n) == Lookup(st.scopes, n);
      ParamsKeepVisible(s1, ps[1..], n);
    }
  }

  /** One parameter: either nothing is handed out, or the cursor itself, after which the cursor moves on. */
  lemma DeclareParamAllocates(st: NState, p: Param)
    requires |st.cursor| >= 1 && p.ident.id.None?
    ensures var s1, p1 := DeclareParam(st, p).0, DeclareParam(st, p).1; Allocates(st, s1, SlotIds(p1.ident.id))
  {
  }

  /** The parameter loop, one step at a time. */
  lemma ResolveParamsStep(st: NState, ps: seq<Param>)
    requires ps != []
    ensures var s1, p1 := DeclareParam(st, ps[0]).0, DeclareParam(st, ps[0]).1; var s2, rest := ResolveParams(s1, ps[1..]).0, ResolveParams(s1, ps[1..]).1;
      ResolveParams(st, ps) == (s2, [p1] + rest)
  {
  }

  lemma ParamListCons(p: Param, rest: seq<Param>)
    ensures ParamIds([p] + rest) == SlotIds(p.ident.id) + ParamIds(rest)
    ensures DuplicateErrors([p] + rest) ==
      (if p.ident.id.None? then [ArgumentAlreadyDeclared(p.ident.name)] else []) + DuplicateErrors(rest)
  {
    var out := [p] + rest;
    assert out[0] == p && out[1..] == rest;
  }

  /** One parameter, stated by whether it took an id. */
  lemma DeclareParamStep(st: NState, p: Param)
    requires p.ident.id.None?
    ensures var s1, p1 := DeclareParam(st, p).0, DeclareParam(st, p).1;
      && (p1.ident.id.None? ==> s1.cursor == st.cursor && s1.errors == st.errors + [ArgumentAlreadyDeclared(p.ident.name)])
      && (p1.ident.id.Some? ==> p1.ident.id.value == st.cursor && s1.cursor == Increment(st.cursor) && s1.errors == st.errors)
      && (p1.ident.id.None? <==> Lookup(st.scopes, p.ident.name).Some?)
  {
  }

  /** An earlier parameter of the list has the same name as parameter `k`. */
  predicate NameTakenEarlier(ps: seq<Param>, k: int)
    requires 0 <= k < |ps|
  {
    exists j :: 0 <= j < k && ps[j].ident.name == ps[k].ident.name
  }

  lemma NameTakenEarlierShift(ps: seq<Param>, k: int)
    requires 0 < k < |ps|
    ensures NameTakenEarlier(ps, k) <==> ps[0].ident.name == ps[k].ident.name || NameTakenEarlier(ps[1..], k - 1)
  {
    if NameTakenEarlier(ps[1..], k - 1) {
      var j :| 0 <= j < k - 1 && ps[1..][j].ident.name == ps[1..][k - 1].ident.name;
      assert ps[j + 1].ident.name == ps[k].ident.name;
    }
    if NameTakenEarlier(ps, k) && ps[0].ident.name != ps[k].ident.name {
      var j :| 0 <= j < k && ps[j].ident.name == ps[k].ident.name;
      assert ps[1..][j - 1].ident.name == ps[1..][k - 1].ident.name;
    }
  }

  /** After one parameter, a name is visible when it was before or is that parameter's. */
  lemma DeclareParamVisibility(st: NState, p: Param, n: string)
    requires st.scopes != []
    ensures var s1 := DeclareParam(st, p).0;
      && s1.scopes != []
      && (Lookup(s1.scopes, n).Some? <==> Lookup(st.scopes, n).Some? || n == p.ident.name)
  {
  }

  /**
   * The parameter loop rejects exactly the parameters whose name is already
   * visible when it reaches them: bound in an enclosing scope, or taken by an
   * earlier parameter of the same list.
   */
  lemma {:induction false} ParamsRejectVisibleNames(st: NState, ps: seq<Param>)
    requires st.scopes != [] && ParamIds(ps) == []
    ensures var ps2 := ResolveParams(st, ps).1;
      && |ps2| == |ps|
      && forall k :: 0 <= k < |ps| ==>
           (ps2[k].ident.id.None? <==> Lookup(st.scopes, ps[k].ident.name).Some? || NameTakenEarlier(ps, k))
    decreases ps
  {
    if ps != [] {
      var s1, p1 := DeclareParam(st, ps[0]).0, DeclareParam(st, ps[0]).1;
      var rest := ResolveParams(s1, ps[1..]).1;
      ResolveParamsStep(st, ps);
      DeclareParamStep(st, ps[0]);
      DeclareParamVisibility(st, ps[0], "");
      assert ParamIds(ps[1..]) == [];
      ParamsRejectVisibleNames(s1, ps[1..]);
      var ps2 := [p1] + rest;
      forall k | 0 <= k < |ps|
        ensures ps2[k].ident.id.None? <==> Lookup(st.scopes, ps[k].ident.name).Some? || NameTakenEarlier(ps, k)
      {
        if k > 0 {
          assert ps2[k] == rest[k - 1] && ps[1..][k - 1] == ps[k];
          DeclareParamVisibility(st, ps[0], ps[k].ident.name);
          NameTakenEarlierShift(ps, k);
        }
      }
    }
  }

  /**
   * The parameter loop of `check_fn_declaration`: the ids the parameters
   * take are distinct and handed out at the cursor's level.
   */
  lemma {:induction false} ParamsAllocate(st: NState, ps: seq<Param>)
    requires |st.cursor| >= 1 && ParamIds(ps) == []
    ensures var s2, ps2 := ResolveParams(st, ps).0, ResolveParams(st, ps).1; Allocates(st, s2, ParamIds(ps2))
    decreases ps
  {
    if ps != [] {
      var s1, p1 := DeclareParam(st, ps[0]).0, DeclareParam(st, ps[0]).1;
      var s2, rest := ResolveParams(s1, ps[1..]).0, ResolveParams(s1, ps[1..]).1;
      ResolveParamsStep(st, ps);
      ParamListCons(p1, rest);
      DeclareParamAllocates(st, ps[0]);
      ParamsAllocate(s1, ps[1..]);
      AllocatesThen(st, s1, s2, SlotIds(p1.ident.id), ParamIds(rest));
    }
  }

  /**
   * A parameter whose name is already visible gets no id and one "Argument
   * ... is already declared" error; the errors of the loop are exactly one
   * per parameter left without an id, in order.
   */
  lemma {:induction false} ParamsReportDuplicates(st: NState, ps: seq<Param>)
    requires ParamIds(ps) == []
    ensures var s2, ps2 := ResolveParams(st, ps).0, ResolveParams(st, ps).1; s2.errors == st.errors + DuplicateErrors(ps2)
    decreases ps
  {
    if ps != [] {
      var s1, p1 := DeclareParam(st, ps[0]).0, DeclareParam(st, ps[0]).1;
      var s2, rest := ResolveParams(s1, ps[1..]).0, ResolveParams(s1, ps[1..]).1;
      ResolveParamsStep(st, ps);
      ParamListCons(p1, rest);
      DeclareParamStep(st, ps[0]);
      ParamsReportDuplicates(s1, ps[1..]);
      var e := if p1.ident.id.None? then [ArgumentAlreadyDeclared(ps[0].ident.name)] else [];
      assert s1.errors == st.errors + e;
      AppendAssoc(st.errors, e, DuplicateErrors(rest));
    }
  }

  /** The parameter loop changes nothing in a parameter but its id slot. */
  lemma {:induction false} ParamsFillSlots(st: NState, ps: seq<Param>)
    ensures var ps2 := ResolveParams(st, ps).1;
      && |ps2| == |ps|
      && forall k :: 0 <= k < |ps| ==> ps2[k] == ps[k].(ident := ps[k].ident.(id := ps2[k].ident.id))
    decreases ps
  {
    if ps != [] {
      var s1, p1 := DeclareParam(st, ps[0]).0, DeclareParam(st, ps[0]).1;
      var s2, rest := ResolveParams(s1, ps[1..]).0, ResolveParams(s1, ps[1..]).1;
      ResolveParamsStep(st, ps);
      ParamListCons(p1, rest);
      ParamsFillSlots(s1, ps[1..]);
      var out := [p1] + rest;
      forall k | 1 <= k < |ps|
        ensures out[k] == ps[k].(ident := ps[k].ident.(id := out[k].ident.id))
      {
        assert out[k] == rest[k - 1] && ps[k] == ps[1..][k - 1];
      }
    }
  }

  /** `id` is `k` increments past cursor `c`, at `c`'s own level. */
  predicate AtLevel(id: Id, c: Id, k: nat)
  {
    |id| == |c| && Parent(id) == Parent(c) && Last(id) == Last(c) + k
  }

  /**
   * Each parameter that gets an id takes the cursor as it stands, and the
   * cursor is then incremented: the ids handed out are consecutive at the
   * cursor's level (so their last components strictly increase), and the
   * cursor ends just past the last of them.
   */
  lemma {:induction false} ParamIdsAreConsecutive(st: NState, ps: seq<Param>)
    requires |st.cursor| >= 1 && ParamIds(ps) == []
    ensures var s2, ids := ResolveParams(st, ps).0, ParamIds(ResolveParams(st, ps).1);
      && AtLevel(s2.cursor, st.cursor, |ids|)
      && forall k :: 0 <= k < |ids| ==> AtLevel(ids[k], st.cursor, k)
    decreases ps
  {
    if ps != [] {
      var c := st.cursor;
      var s1, p1 := DeclareParam(st, ps[0]).0, DeclareParam(st, ps[0]).1;
      var s2, rest := ResolveParams(s1, ps[1..]).0, ResolveParams(s1, ps[1..]).1;
      var later := ParamIds(rest);
      assert ResolveParams(st, ps).0 == s2 && ParamIds(ResolveParams(st, ps).1) == SlotIds(p1.ident.id) + later by {
        ResolveParamsStep(st, ps);
        ParamListCons(p1, rest);
      }
      assert p1.ident.id.None? ==> s1.cursor == c by {
        DeclareParamStep(st, ps[0]);
      }
      assert p1.ident.id.Some? ==> p1.ident.id.value == c && s1.cursor == Increment(c) by {
        DeclareParamStep(st, ps[0]);
      }
      assert AtLevel(s2.cursor, s1.cursor, |later|) && forall k :: 0 <= k < |later| ==> AtLevel(later[k], s1.cursor, k) by {
        ParamIdsAreConsecutive(s1, ps[1..]);
      }
      if p1.ident.id.None? {
        assert SlotIds(p1.ident.id) + later == later;
      } else {
        var ids := [c] + later;
        assert SlotIds(p1.ident.id) + later == ids;
        assert AtLevel(s2.cursor, c, |ids|);
        forall k | 0 <= k < |ids|
          ensures AtLevel(ids[k], c, k)
        {
          if k > 0 {
            assert ids[k] == later[k - 1];
          }
        }
      }
    }
  }

  /** After the parameter loop, each parameter that got an id is what its name resolves to. */
  lemma {:induction false} ParamsBindNames(st: NState, ps: seq<Param>)
    requires st.scopes != []
    ensures var s2, ps2 := ResolveParams(st, ps).0, ResolveParams(st, ps).1;
      && |ps2| == |ps|
      && forall k :: 0 <= k < |ps2| && ps2[k].ident.id != ps[k].ident.id ==>
           Lookup(s2.scopes, ps2[k].ident.name) == ps2[k].ident.id
    decreases ps
  {
    if ps != [] {
      var p := ps[0];
      var s1, p1 := DeclareParam(st, p).0, DeclareParam(st, p).1;
      var s2, rest := ResolveParams(s1, ps[1..]).0, ResolveParams(s1, ps[1..]).1;
      ParamsBindNames(s1, ps[1..]);
      var out := [p1] + rest;
      assert ResolveParams(st, ps) == (s2, out);
      if p1 != p {
        ParamsKeepVisible(s1, ps[1..], p.ident.name);
      }
      forall k | 0 <= k < |out| && out[k].ident.id != ps[k].ident.id
        ensures Lookup(s2.scopes, out[k].ident.name) == out[k].ident.id
      {
        if k > 0 {
          assert out[k] == rest[k - 1] && ps[k] == ps[1..][k - 1];
        }
      }
    }
  }

  // ---------------------------------------------------------------------------
  // Function declarations and units
  // ---------------------------------------------------------------------------

  /**
   * A function with an id: the cursor ends one level below the function's
   * id, one scope is left on top of the stack, and every id handed out in
   * the parameters and the body lies strictly inside the function's id and
   * is distinct from the others.
   */
  lemma FnBodyAllocates(st: NState, f: FnDeclaration)
    requires ProcessedId(f).Some? && FnIds(f) == []
    ensures var s2, f2 := ResolveFnBody(st, f).0, ResolveFnBody(st, f).1; var fid := ProcessedId(f).value;
      && |s2.cursor| == |fid| + 1 && Parent(s2.cursor) == fid
      && |s2.scopes| == |st.scopes| + 1 && Outer(s2.scopes) == st.scopes
      && st.errors <= s2.errors
      && f2.ident == f.ident
      && Distinct(FnIds(f2))
      && forall k :: 0 <= k < |FnIds(f2)| ==> |FnIds(f2)[k]| > |fid| && IsPrefix(fid, FnIds(f2)[k])
  {
    var fid := ProcessedId(f).value;
    var entered := st.(cursor := Push(fid), scopes := PushScope(st.scopes));
    var s1, ps := ResolveParams(entered, f.params).0, ResolveParams(entered, f.params).1;
    ParamsAllocate(entered, f.params);
    var s2, stmts := ResolveStmts(s1, f.block.stmts).0, ResolveStmts(s1, f.block.stmts).1;
    StmtsAllocates(s1, f.block.stmts);
    AllocatesThen(entered, s1, s2, ParamIds(ps), StmtsIds(stmts));
    var f2 := ResolveFnBody(st, f).1;
    var ids := FnIds(f2);
    assert ids == ParamIds(ps) + StmtsIds(stmts);
    forall k | 0 <= k < |ids|
      ensures |ids[k]| > |fid| && IsPrefix(fid, ids[k])
    {
      assert Within(ids[k], entered.cursor, s2.cursor);
    }
  }

  /**
   * `check_fn_declaration` (with its scope popped): a function whose id reads
   * as the default is skipped with nothing changed; otherwise the scope stack comes back
   * exactly as it was and the ids handed out are distinct and inside the
   * function's id.
   */
  lemma FnDeclarationResolves(st: NState, f: FnDeclaration)
    requires FnIds(f) == []
    ensures var s2, f2 := ResolveFnDeclaration(st, f).0, ResolveFnDeclaration(st, f).1;
      && (ProcessedId(f).None? ==> s2 == st && f2 == f)
      && s2.scopes == st.scopes
      && st.errors <= s2.errors
      && f2.ident == f.ident
      && (ProcessedId(f).Some? ==> |s2.cursor| == |ProcessedId(f).value| + 1 && Parent(s2.cursor) == ProcessedId(f).value)
      && Distinct(FnIds(f2))
      && forall k :: 0 <= k < |FnIds(f2)| ==>
           ProcessedId(f).Some? && |FnIds(f2)[k]| > |ProcessedId(f).value| && IsPrefix(ProcessedId(f).value, FnIds(f2)[k])
  {
    if ProcessedId(f).Some? {
      FnBodyAllocates(st, f);
    }
  }

  /**
   * The id of a function that `check_fn_declaration` processes: None for a
   * function whose id reads as the default, which it skips.
   */
  function ProcessedId(f: FnDeclaration): Option<Id>
  {
    if SlotId(f.ident.id) == DefaultId then None else f.ident.id
  }

  /** The id of the last function in `items` that is processed. */
  function LastFnId(items: seq<FnDeclaration>): Option<Id>
  {
    if items == [] then None
    else
      var later := LastFnId(items[1..]);
      if later.Some? then later else ProcessedId(items[0])
  }

  /** No processed function's id lies inside another's (the item pass hands them out that way). */
  predicate SeparateFnIds(items: seq<FnDeclaration>)
  {
    forall i, j :: 0 <= i < |items| && 0 <= j < |items| && i != j && ProcessedId(items[i]).Some? && ProcessedId(items[j]).Some? ==>
      !IsPrefix(ProcessedId(items[i]).value, ProcessedId(items[j]).value)
  }

  /** Every processed function's id is non-empty and starts with a non-zero component. */
  predicate FnIdsStartAboveZero(items: seq<FnDeclaration>)
  {
    forall k :: 0 <= k < |items| && ProcessedId(items[k]).Some? ==>
      ProcessedId(items[k]).value != [] && ProcessedId(items[k]).value[0] != 0
  }

  /** Two prefixes of one id are comparable. */
  lemma PrefixesAreNested(a: Id, b: Id, x: Id)
    requires IsPrefix(a, x) && IsPrefix(b, x) && |a| <= |b|
    ensures IsPrefix(a, b)
  {
    assert b[..|a|] == x[..|b|][..|a|];
  }

  /** `x` lies strictly inside the id of one of the functions in `items`. */
  predicate InsideSomeFn(x: Id, items: seq<FnDeclaration>)
  {
    exists k :: 0 <= k < |items| && ProcessedId(items[k]).Some? && |x| > |ProcessedId(items[k]).value| && IsPrefix(ProcessedId(items[k]).value, x)
  }

  /** The item loop of `check_unit`, one step at a time. */
  lemma ResolveItemsStep(st: NState, items: seq<FnDeclaration>)
    requires items != []
    ensures var s1, f1 := ResolveFnDeclaration(st, items[0]).0, ResolveFnDeclaration(st, items[0]).1;
      var s2, rest := ResolveItems(s1, items[1..]).0, ResolveItems(s1, items[1..]).1;
      && ResolveItems(st, items) == (s2, [f1] + rest)
      && ItemsIds([f1] + rest) == FnIds(f1) + ItemsIds(rest)
  {
    var f1 := ResolveFnDeclaration(st, items[0]).1;
    var rest := ResolveItems(ResolveFnDeclaration(st, items[0]).0, items[1..]).1;
    var out := [f1] + rest;
    assert out[0] == f1 && out[1..] == rest;
  }

  /**
   * The item loop leaves the scope stack as it was, only appends errors,
   * keeps every function's name and id, and leaves the cursor one level
   * below the id of the last function it processed.
   */
  lemma {:induction false} ItemsKeepScopes(st: NState, items: seq<FnDeclaration>)
    requires forall k :: 0 <= k < |items| ==> FnIds(items[k]) == []
    ensures var s2, items2 := ResolveItems(st, items).0, ResolveItems(st, items).1;
      && s2.scopes == st.scopes
      && st.errors <= s2.errors
      && |items2| == |items|
      && (forall k :: 0 <= k < |items| ==> items2[k].ident == items[k].ident)
      && (LastFnId(items).None? ==> s2.cursor == st.cursor)
      && (LastFnId(items).Some? ==> |s2.cursor| == |LastFnId(items).value| + 1 && Parent(s2.cursor) == LastFnId(items).value)
    decreases items
  {
    if items != [] {
      var s1, f1 := ResolveFnDeclaration(st, items[0]).0, ResolveFnDeclaration(st, items[0]).1;
      var s2, rest := ResolveItems(s1, items[1..]).0, ResolveItems(s1, items[1..]).1;
      ResolveItemsStep(st, items);
      FnDeclarationResolves(st, items[0]);
      ItemsKeepScopes(s1, items[1..]);
      var out := [f1] + rest;
      forall k | 1 <= k < |items|
        ensures out[k].ident == items[k].ident
      {
        assert out[k] == rest[k - 1] && items[k] == items[1..][k - 1];
      }
    }
  }

  /** Every id the item loop hands out lies strictly inside the id of the function it was handed out in. */
  lemma {:induction false} ItemsIdsInsideFns(st: NState, items: seq<FnDeclaration>)
    requires forall k :: 0 <= k < |items| ==> FnIds(items[k]) == []
    ensures forall x :: x in ItemsIds(ResolveItems(st, items).1) ==> InsideSomeFn(x, items)
    decreases items
  {
    if items != [] {
      var s1, f1 := ResolveFnDeclaration(st, items[0]).0, ResolveFnDeclaration(st, items[0]).1;
      var rest := ResolveItems(s1, items[1..]).1;
      ResolveItemsStep(st, items);
      FnDeclarationResolves(st, items[0]);
      ItemsIdsInsideFns(s1, items[1..]);
      forall x | x in FnIds(f1) + ItemsIds(rest)
        ensures InsideSomeFn(x, items)
      {
        if x in FnIds(f1) {
          var k :| 0 <= k < |FnIds(f1)| && FnIds(f1)[k] == x;
          assert ProcessedId(items[0]).Some?;
        } else {
          assert InsideSomeFn(x, items[1..]);
          var k :| 0 <= k < |items| - 1 && ProcessedId(items[1..][k]).Some? && |x| > |ProcessedId(items[1..][k]).value| && IsPrefix(ProcessedId(items[1..][k]).value, x);
          assert items[k + 1] == items[1..][k];
        }
      }
    }
  }

  /** When no function's id lies inside another's, the ids handed out across all functions are pairwise distinct. */
  lemma {:induction false} ItemsIdsDistinct(st: NState, items: seq<FnDeclaration>)
    requires forall k :: 0 <= k < |items| ==> FnIds(items[k]) == []
    requires SeparateFnIds(items)
    ensures Distinct(ItemsIds(ResolveItems(st, items).1))
    decreases items
  {
    if items != [] {
      var s1, f1 := ResolveFnDeclaration(st, items[0]).0, ResolveFnDeclaration(st, items[0]).1;
      var rest := ResolveItems(s1, items[1..]).1;
      assert ItemsIds(ResolveItems(st, items).1) == FnIds(f1) + ItemsIds(rest) by {
        ResolveItemsStep(st, items);
      }
      var fid := ProcessedId(items[0]);
      assert Distinct(FnIds(f1)) && forall k :: 0 <= k < |FnIds(f1)| ==> fid.Some? && IsPrefix(fid.value, FnIds(f1)[k]) by {
        FnDeclarationResolves(st, items[0]);
      }
      SeparateTail(items);
      assert Distinct(ItemsIds(rest)) && forall y :: y in ItemsIds(rest) ==> InsideSomeFn(y, items[1..]) by {
        ItemsIdsDistinct(s1, items[1..]);
        ItemsIdsInsideFns(s1, items[1..]);
      }
      if FnIds(f1) == [] {
        assert FnIds(f1) + ItemsIds(rest) == ItemsIds(rest);
      } else {
        FirstFnIdsApart(items, FnIds(f1), ItemsIds(rest));
      }
    }
  }

  lemma SeparateTail(items: seq<FnDeclaration>)
    requires items != [] && SeparateFnIds(items)
    ensures SeparateFnIds(items[1..])
  {
    forall i, j | 0 <= i < |items[1..]| && 0 <= j < |items[1..]| && i != j
      ensures items[1..][i] == items[i + 1] && items[1..][j] == items[j + 1]
    {
    }
  }

  /**
   * The ids handed out in the first function and those handed out in the
   * later ones together are distinct when each part is and the function ids
   * are separate.
   */
  lemma FirstFnIdsApart(items: seq<FnDeclaration>, a: seq<Id>, b: seq<Id>)
    requires items != [] && SeparateFnIds(items) && ProcessedId(items[0]).Some?
    requires Distinct(a) && forall k :: 0 <= k < |a| ==> IsPrefix(ProcessedId(items[0]).value, a[k])
    requires Distinct(b) && forall y :: y in b ==> InsideSomeFn(y, items[1..])
    ensures Distinct(a + b)
  {
    forall x, y | x in a && y in b
      ensures x != y
    {
      var k :| 0 <= k < |a| && a[k] == x;
      FirstFnApart(items, x);
    }
    DistinctConcat(a, b);
  }


  /** Two distinct lists with no id in common make a distinct list. */
  lemma DistinctConcat(a: seq<Id>, b: seq<Id>)
    requires Distinct(a) && Distinct(b)
    requires forall x, y :: x in a && y in b ==> x != y
    ensures Distinct(a + b)
  {
    forall i, j | 0 <= i < j < |a + b|
      ensures (a + b)[i] != (a + b)[j]
    {
      if i < |a| <= j {
        assert (a + b)[i] == a[i] && a[i] in a;
        assert (a + b)[j] == b[j - |a|] && b[j - |a|] in b;
      } else if j < |a| {
        assert (a + b)[i] == a[i] && (a + b)[j] == a[j];
      } else {
        assert (a + b)[i] == b[i - |a|] && (a + b)[j] == b[j - |a|];
      }
    }
  }

  /** An id inside the first function's id is inside no later function's id when the ids are separate. */
  lemma FirstFnApart(items: seq<FnDeclaration>, x: Id)
    requires items != [] && SeparateFnIds(items)
    requires ProcessedId(items[0]).Some? && IsPrefix(ProcessedId(items[0]).value, x)
    ensures !InsideSomeFn(x, items[1..])
  {
    if InsideSomeFn(x, items[1..]) {
      var fid := ProcessedId(items[0]).value;
      var k :| 0 <= k < |items[1..]| && ProcessedId(items[1..][k]).Some? && |x| > |ProcessedId(items[1..][k]).value| && IsPrefix(ProcessedId(items[1..][k]).value, x);
      var gid := ProcessedId(items[1..][k]).value;
      assert items[k + 1] == items[1..][k];
      if |fid| <= |gid| {
        PrefixesAreNested(fid, gid, x);
      } else {
        PrefixesAreNested(gid, fid, x);
      }
    }
  }

  /**
   * `check_unit`: the scope stack is left as it was. The cursor comes back to
   * its own depth advanced by one when no function is processed; otherwise
   * it ends at the last processed function's id, because a function
   * declaration does not restore the cursor. Every id handed out inside lies
   * in some function's id, so when the function ids start above zero so do
   * all of them, and when no function id lies inside another the ids of the
   * whole unit are pairwise distinct.
   */
  lemma UnitResolves(st: NState, u: Unit)
    requires |st.cursor| >= 1
    requires forall k :: 0 <= k < |u.items| ==> FnIds(u.items[k]) == []
    ensures var s2, u2 := ResolveUnit(st, u).0, ResolveUnit(st, u).1;
      && s2.scopes == st.scopes
      && st.errors <= s2.errors
      && (LastFnId(u.items).None? ==> s2.cursor == Increment(st.cursor))
      && (LastFnId(u.items).Some? ==> s2.cursor == LastFnId(u.items).value)
      && (FnIdsStartAboveZero(u.items) ==> forall x :: x in ItemsIds(u2.items) ==> x != [] && x[0] != 0)
      && (SeparateFnIds(u.items) ==> Distinct(ItemsIds(u2.items)))
  {
    var entered := st.(cursor := Push(Increment(st.cursor)));
    var s1, items := ResolveItems(entered, u.items).0, ResolveItems(entered, u.items).1;
    assert ResolveUnit(st, u).0 == s1.(cursor := Pop(s1.cursor)) && ResolveUnit(st, u).1.items == items;
    assert s1.scopes == st.scopes && st.errors <= s1.errors
      && (LastFnId(u.items).None? ==> s1.cursor == entered.cursor)
      && (LastFnId(u.items).Some? ==> |s1.cursor| == |LastFnId(u.items).value| + 1 && Parent(s1.cursor) == LastFnId(u.items).value) by {
      ItemsKeepScopes(entered, u.items);
    }
    if SeparateFnIds(u.items) {
      ItemsIdsDistinct(entered, u.items);
    }
    if FnIdsStartAboveZero(u.items) {
      assert forall x :: x in ItemsIds(items) ==> InsideSomeFn(x, u.items) by {
        ItemsIdsInsideFns(entered, u.items);
      }
      forall x | x in ItemsIds(items)
        ensures x != [] && x[0] != 0
      {
        var k :| 0 <= k < |u.items| && ProcessedId(u.items[k]).Some? && |x| > |ProcessedId(u.items[k]).value| && IsPrefix(ProcessedId(u.items[k]).value, x);
        assert x[0] == x[..|ProcessedId(u.items[k]).value|][0];
      }
    }
  }


  // ---------------------------------------------------------------------------
  // Declarations, references and calls
  // ---------------------------------------------------------------------------

  /**
   * `check_declaration`: the initializer is resolved first, so it cannot see
   * the name being declared. Then a name that is already visible gives one
   * "already declared" error and leaves the cursor where the initializer
   * left it; a new name advances the cursor exactly once and a reference to
   * it right after resolves to the declaration's own id.
   */
  lemma DeclarationBindsName(st: NState, name: string, ty: Option<Types.ConcreteType>, value: Expr)
    requires st.scopes != [] && |st.cursor| >= 1 && ExprIds(value) == []
    ensures var s1 := ResolveExpr(st, value).0;
      var s2, d := ResolveExpr(st, Declaration(Identifier(name, None), ty, value)).0, ResolveExpr(st, Declaration(Identifier(name, None), ty, value)).1;
      var s3, r := ResolveExpr(s2, VarRef(Identifier(name, None))).0, ResolveExpr(s2, VarRef(Identifier(name, None))).1;
      && (Lookup(s1.scopes, name).Some? ==>
            s2.errors == s1.errors + [VariableAlreadyDeclared(name)] && s2.cursor == s1.cursor && d.ident.id.None?)
      && (Lookup(s1.scopes, name).None? ==>
            s2.errors == s1.errors && s2.cursor == Increment(s1.cursor)
            && d.ident.id == Some(s1.cursor) && r == VarRef(d.ident) && s3 == s2)
  {
    ExprAllocates(st, value);
  }

  /** The initializer of `let x = x` does not see the `x` being declared. */
  lemma InitializerDoesNotSeeItsOwnName(st: NState, name: string, ty: Option<Types.ConcreteType>)
    requires Lookup(st.scopes, name).None?
    ensures var s2, d := ResolveExpr(st, Declaration(Identifier(name, None), ty, VarRef(Identifier(name, None)))).0, ResolveExpr(st, Declaration(Identifier(name, None), ty, VarRef(Identifier(name, None)))).1;
      d.value == VarRef(Identifier(name, None)) && (st.scopes != [] ==> d.ident.id == Some(st.cursor))
  {
  }

  /** A variable reference as the class resolves it: the innermost binding, if any. */
  function Resolved(scopes: seq<Scope>, ident: Identifier): Identifier
  {
    match Lookup(scopes, ident.name)
    case Some(found) => ident.(id := Some(found))
    case None => ident
  }

  /** Each argument with its name resolved as a variable reference in `scopes`. */
  function ResolvedNames(scopes: seq<Scope>, args: seq<CallArgument>): seq<CallArgument>
  {
    seq(|args|, k requires 0 <= k < |args| => args[k].(name := Resolved(scopes, args[k].name)))
  }

  /**
   * `check_fn_call` with implicit-name arguments only: an unknown callee is
   * one "Unknown function" error and nothing else (no argument is visited);
   * a known callee takes the callee's id, and each argument name is resolved
   * as a variable reference in the caller's scope, with no other change.
   */
  /**
   * `check_fn_call`: a callee no scope binds reports one "Unknown function"
   * error and the arguments are not visited at all; a bound callee takes the
   * bound id and the call's state and arguments are those of visiting the
   * arguments alone.
   */
  lemma FnCallResolves(st: NState, callee: Identifier, args: FnCallArgs)
    ensures var r := ResolveExpr(st, FnCall(callee, args));
      && (Lookup(st.scopes, callee.name).None? ==>
            r == (st.(errors := st.errors + [UnknownFunction(callee.name)]), FnCall(callee, args)))
      && (Lookup(st.scopes, callee.name).Some? ==>
            && r.0 == ResolveCallArgs(st, args).0
            && r.1 == FnCall(callee.(id := Lookup(st.scopes, callee.name)), ResolveCallArgs(st, args).1))
  {
  }

  lemma {:induction false} ImplicitArgumentsResolve(st: NState, callee: Identifier, args: seq<CallArgument>)
    requires forall k :: 0 <= k < |args| ==> args[k].value.None?
    ensures var call := FnCall(callee, Arguments(args));
      ResolveExpr(st, call) ==
        match Lookup(st.scopes, callee.name)
        case None => (st.(errors := st.errors + [UnknownFunction(callee.name)]), call)
        case Some(fnId) =>
          (st, FnCall(callee.(id := Some(fnId)), Arguments(ResolvedNames(st.scopes, args))))
    decreases args
  {
    ArgumentListResolvesNames(st, args);
  }

  lemma {:induction false} ArgumentListResolvesNames(st: NState, args: seq<CallArgument>)
    requires forall k :: 0 <= k < |args| ==> args[k].value.None?
    ensures ResolveArgumentList(st, args) ==
      (st, ResolvedNames(st.scopes, args))
    decreases args
  {
    if args != [] {
      var tail := args[1..];
      ArgumentListResolvesNames(st, tail);
      var a1 := args[0].(name := Resolved(st.scopes, args[0].name));
      assert ResolveVarRef(st, args[0].name) == (st, Resolved(st.scopes, args[0].name));
      var all := ResolvedNames(st.scopes, args);
      var rest := ResolvedNames(st.scopes, tail);
      assert args[0].value.None?;
      assert ResolveArgumentList(st, args) == (ResolveArgumentList(st, tail).0, [a1] + ResolveArgumentList(st, tail).1);
      assert all == [a1] + rest by {
        forall k | 1 <= k < |args|
          ensures all[k] == rest[k - 1]
        {
          assert tail[k - 1] == args[k];
        }
      }
    } else {
      assert |ResolvedNames(st.scopes, args)| == 0;
    }
  }

  // ---------------------------------------------------------------------------
  // The two steps kept as written (README, Findings)
  // ---------------------------------------------------------------------------

  /**
   * As written, a function's scope is never popped, so a parameter name of
   * one function is still visible in the next: two functions `f(x)` and
   * `g(x)` report `x` as already declared in `g`. With the scope popped,
   * they report nothing.
   */
  lemma FnScopeLeaksIntoNextFunction()
    ensures var globals := [map["f" := [1, 1], "g" := [1, 2]]];
      var st := NState([1, 0], globals, []);
      var f := FnDeclaration(Identifier("f", Some([1, 1])), [Param(Identifier("x", None), Types.Primitive(Types.Int))], Types.Primitive(Types.Unary), Block(None, []));
      var g := FnDeclaration(Identifier("g", Some([1, 2])), [Param(Identifier("x", None), Types.Primitive(Types.Int))], Types.Primitive(Types.Unary), Block(None, []));
      && ResolveFnDeclarationAsWritten(ResolveFnDeclarationAsWritten(st, f).0, g).0.errors == [ArgumentAlreadyDeclared("x")]
      && ResolveFnDeclaration(ResolveFnDeclaration(st, f).0, g).0.errors == []
  {
    var globals := [map["f" := [1, 1], "g" := [1, 2]]];
    var st := NState([1, 0], globals, []);
    var f := FnDeclaration(Identifier("f", Some([1, 1])), [Param(Identifier("x", None), Types.Primitive(Types.Int))], Types.Primitive(Types.Unary), Block(None, []));
    var g := FnDeclaration(Identifier("g", Some([1, 2])), [Param(Identifier("x", None), Types.Primitive(Types.Int))], Types.Primitive(Types.Unary), Block(None, []));
    var s1 := ResolveFnDeclarationAsWritten(st, f).0;
    assert Lookup(s1.scopes, "x").Some?;
    var t1 := ResolveFnDeclaration(st, f).0;
    assert t1.scopes == globals;
    assert Lookup(PushScope(t1.scopes), "x").None?;
  }

  /**
   * As written, a declaration hands out an id but never defines the name:
   * a later reference does not resolve and a second `let` of the same name
   * is not reported. With the name defined, the reference resolves to the
   * declaration's id and the second `let` is an error.
   */
  lemma DeclarationIsNeverDefined(st: NState, name: string)
    requires st.scopes != [] && Lookup(st.scopes, name).None?
    ensures var x := Identifier(name, None);
      var w1, _ := DeclareVariableAsWritten(st, x).0, DeclareVariableAsWritten(st, x).1;
      var c1, d := DeclareVariable(st, x).0, DeclareVariable(st, x).1;
      && ResolveVarRef(w1, x).1.id.None?
      && DeclareVariableAsWritten(w1, x).0.errors == st.errors
      && ResolveVarRef(c1, x).1.id == d.id == Some(st.cursor)
      && DeclareVariable(c1, x).0.errors == st.errors + [VariableAlreadyDeclared(name)]
  {
  }
}
