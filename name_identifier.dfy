/**
 * `NameIdentifier`: the name pass as the source runs it, a walk that moves a
 * mutable id cursor, pushes and pops the shared `ScopeBuilder`, appends to
 * the error list and fills identifier slots. Each method is proved to leave
 * the state (and return the tree) that the matching function of
 * NameResolution describes; the properties of those functions are proved in
 * name_properties.dfy.
 */
module NameIdentifiers {
  import opened Wrappers
  import opened ScopedIds
  import opened Scopes
  import opened Ast
  import opened NameResolution

  // One step of each loop: the function applied to the suffix from `i` is the
  // first element's result followed by the function on the suffix from `i + 1`.

  lemma ArgumentListFrom(st: NState, list: seq<CallArgument>, i: nat)
    requires i < |list|
    ensures var s1, a1 := ResolveArgument(st, list[i]).0, ResolveArgument(st, list[i]).1;
      && ResolveArgumentList(st, list[i..]).0 == ResolveArgumentList(s1, list[i + 1..]).0
      && ResolveArgumentList(st, list[i..]).1 == [a1] + ResolveArgumentList(s1, list[i + 1..]).1
  {
    assert list[i..][0] == list[i] && list[i..][1..] == list[i + 1..];
  }

  lemma ConditionalsFrom(st: NState, cs: seq<Conditional>, i: nat)
    requires i < |cs|
    ensures var s1, c1 := ResolveExpr(st, cs[i].condition).0, ResolveExpr(st, cs[i].condition).1;
      var s2, b1 := ResolveBlock(s1, cs[i].block).0, ResolveBlock(s1, cs[i].block).1;
      && ResolveConditionals(st, cs[i..]).0 == ResolveConditionals(s2, cs[i + 1..]).0
      && ResolveConditionals(st, cs[i..]).1 == [Conditional(c1, b1)] + ResolveConditionals(s2, cs[i + 1..]).1
  {
    assert cs[i..][0] == cs[i] && cs[i..][1..] == cs[i + 1..];
  }

  lemma StmtsFrom(st: NState, stmts: seq<Stmt>, i: nat)
    requires i < |stmts|
    ensures var s1, x := ResolveStmt(st, stmts[i]).0, ResolveStmt(st, stmts[i]).1;
      && ResolveStmts(st, stmts[i..]).0 == ResolveStmts(s1, stmts[i + 1..]).0
      && ResolveStmts(st, stmts[i..]).1 == [x] + ResolveStmts(s1, stmts[i + 1..]).1
  {
    assert stmts[i..][0] == stmts[i] && stmts[i..][1..] == stmts[i + 1..];
  }

  lemma ParamsFrom(st: NState, ps: seq<Param>, i: nat)
    requires i < |ps|
    ensures var s1, p1 := DeclareParam(st, ps[i]).0, DeclareParam(st, ps[i]).1;
      && ResolveParams(st, ps[i..]).0 == ResolveParams(s1, ps[i + 1..]).0
      && ResolveParams(st, ps[i..]).1 == [p1] + ResolveParams(s1, ps[i + 1..]).1
  {
    assert ps[i..][0] == ps[i] && ps[i..][1..] == ps[i + 1..];
  }

  lemma ItemsFrom(st: NState, items: seq<FnDeclaration>, i: nat)
    requires i < |items|
    ensures var s1, f1 := ResolveFnDeclaration(st, items[i]).0, ResolveFnDeclaration(st, items[i]).1;
      && ResolveItems(st, items[i..]).0 == ResolveItems(s1, items[i + 1..]).0
      && ResolveItems(st, items[i..]).1 == [f1] + ResolveItems(s1, items[i + 1..]).1
  {
    assert items[i..][0] == items[i] && items[i..][1..] == items[i + 1..];
  }

  class NameIdentifier {
    /** The scope stack shared with the item pass. */
    const builder: ScopeBuilder
    var errors: seq<CheckError>
    /** The id cursor (`current_id`). */
    var currentId: Id

    constructor (builder: ScopeBuilder)
      ensures this.builder == builder && errors == [] && currentId == DefaultId
    {
      this.builder := builder;
      errors := [];
      currentId := DefaultId;
    }

    ghost function State(): NState
      reads this, builder
    {
      NState(currentId, builder.scopes, errors)
    }

    /** `check_var_ref`: changes nothing but the identifier's slot. */
    method CheckVarRef(ident: Identifier) returns (r: Identifier)
      ensures ResolveVarRef(State(), ident).0 == State() && r == ResolveVarRef(State(), ident).1
    {
      var found := builder.Get(ident.name);
      r := if found.Some? then ident.(id := found) else ident;
    }

    method CheckExpression(e: Expr) returns (r: Expr)
      modifies this, builder
      ensures State() == ResolveExpr(old(State()), e).0 && r == ResolveExpr(old(State()), e).1
      decreases e, 0
    {
      match e
      case Literal(_) =>
        r := e;
      case VarRef(ident) =>
        var i1 := CheckVarRef(ident);
        r := VarRef(i1);
      case UnaryOp(op, inner) =>
        var i1 := CheckExpression(inner);
        r := UnaryOp(op, i1);
      case BinaryOp(op, left, right) =>
        var l1 := CheckExpression(left);
        var r1 := CheckExpression(right);
        r := BinaryOp(op, l1, r1);
      case IfExpr(c, t, f) =>
        var c1 := CheckExpression(c);
        var t1 := CheckExpression(t);
        var f1 := CheckExpression(f);
        r := IfExpr(c1, t1, f1);
      case FnCall(callee, args) =>
        r := CheckFnCall(callee, args);
      case Assignment(lvalue, rvalue) =>
        var l1 := CheckVarRef(lvalue);
        var r1 := CheckExpression(rvalue);
        r := Assignment(l1, r1);
      case Declaration(ident, ty, value) =>
        r := CheckDeclaration(ident, ty, value);
    }

    /** `check_declaration`: the initializer first, then the name. */
    method CheckDeclaration(ident: Identifier, ty: Option<Types.ConcreteType>, value: Expr) returns (r: Expr)
      modifies this, builder
      ensures State() == ResolveExpr(old(State()), Declaration(ident, ty, value)).0
      ensures r == ResolveExpr(old(State()), Declaration(ident, ty, value)).1
      decreases value, 1
    {
      var v1 := CheckExpression(value);
      ghost var s1 := State();
      ghost var declared := DeclareVariable(s1, ident);
      assert ResolveExpr(old(State()), Declaration(ident, ty, value)).0 == declared.0;
      assert ResolveExpr(old(State()), Declaration(ident, ty, value)).1 == Declaration(declared.1, ty, v1);
      var found := builder.Get(ident.name);
      if found.Some? {
        errors := errors + [VariableAlreadyDeclared(ident.name)];
        r := Declaration(ident, ty, v1);
      } else {
        var declId := currentId;
        currentId := Increment(currentId);
        builder.DefineLocal(ident.name, declId);
        r := Declaration(ident.(id := Some(declId)), ty, v1);
      }
    }

    /** `check_fn_call`: a known callee takes its id and its arguments are checked; an unknown one is an error. */
    method CheckFnCall(callee: Identifier, args: FnCallArgs) returns (r: Expr)
      modifies this, builder
      ensures State() == ResolveExpr(old(State()), FnCall(callee, args)).0
      ensures r == ResolveExpr(old(State()), FnCall(callee, args)).1
      decreases args, 1
    {
      var found := builder.Get(callee.name);
      if found.None? {
        errors := errors + [UnknownFunction(callee.name)];
        r := FnCall(callee, args);
        return;
      }
      var fnIdent := callee.(id := found);
      match args
      case SingleExpr(e) =>
        var e1 := CheckExpression(e);
        r := FnCall(fnIdent, SingleExpr(e1));
      case Arguments(list) =>
        var l1 := CheckArgumentList(list);
        r := FnCall(fnIdent, Arguments(l1));
    }

    /** One named argument of a call. */
    method CheckArgument(arg: CallArgument) returns (r: CallArgument)
      modifies this, builder
      ensures State() == ResolveArgument(old(State()), arg).0 && r == ResolveArgument(old(State()), arg).1
      decreases arg, 0
    {
      if arg.value.Some? {
        var e1 := CheckExpression(arg.value.value);
        r := arg.(value := Some(e1));
      } else {
        var n1 := CheckVarRef(arg.name);
        r := arg.(name := n1);
      }
    }

    /** The named arguments of a call, in order. */
    method CheckArgumentList(list: seq<CallArgument>) returns (r: seq<CallArgument>)
      modifies this, builder
      ensures State() == ResolveArgumentList(old(State()), list).0 && r == ResolveArgumentList(old(State()), list).1
      decreases list, 0
    {
      ghost var s0 := State();
      assert list[0..] == list;
      r := [];
      var i := 0;
      while i < |list|
        invariant 0 <= i <= |list|
        invariant ResolveArgumentList(s0, list).0 == ResolveArgumentList(State(), list[i..]).0
        invariant ResolveArgumentList(s0, list).1 == r + ResolveArgumentList(State(), list[i..]).1
      {
        ArgumentListFrom(State(), list, i);
        assert list[i] in list;
        var a1 := CheckArgument(list[i]);
        AppendAssoc(r, [a1], ResolveArgumentList(State(), list[i + 1..]).1);
        r := r + [a1];
        i := i + 1;
      }
      assert list[i..] == [];
    }

    method CheckStatement(s: Stmt) returns (r: Stmt)
      modifies this, builder
      ensures State() == ResolveStmt(old(State()), s).0 && r == ResolveStmt(old(State()), s).1
      decreases s, 0
    {
      match s
      case ExprStmt(e) =>
        var e1 := CheckExpression(e);
        r := ExprStmt(e1);
      case DoStmt(b) =>
        var b1 := CheckBlock(b);
        r := DoStmt(b1);
      case IfStmt(ib) =>
        var cs := CheckConditionals(ib.conditionals);
        if ib.elseBlock.Some? {
          var b1 := CheckBlock(ib.elseBlock.value);
          r := IfStmt(ib.(conditionals := cs, elseBlock := Some(b1)));
        } else {
          r := IfStmt(ib.(conditionals := cs));
        }
      case ReturnStmt(v) =>
        if v.Some? {
          var e1 := CheckExpression(v.value);
          r := ReturnStmt(Some(e1));
        } else {
          r := s;
        }
    }

    /** The `if` and `else if` arms of an if-block, in order: each condition, then its block. */
    method CheckConditionals(cs: seq<Conditional>) returns (r: seq<Conditional>)
      modifies this, builder
      ensures State() == ResolveConditionals(old(State()), cs).0 && r == ResolveConditionals(old(State()), cs).1
      decreases cs, 0
    {
      ghost var s0 := State();
      assert cs[0..] == cs;
      r := [];
      var i := 0;
      while i < |cs|
        invariant 0 <= i <= |cs|
        invariant ResolveConditionals(s0, cs).0 == ResolveConditionals(State(), cs[i..]).0
        invariant ResolveConditionals(s0, cs).1 == r + ResolveConditionals(State(), cs[i..]).1
      {
        ConditionalsFrom(State(), cs, i);
        assert cs[i] in cs && cs[i].block < cs[i];
        var cond := CheckExpression(cs[i].condition);
        var block := CheckBlock(cs[i].block);
        AppendAssoc(r, [Conditional(cond, block)], ResolveConditionals(State(), cs[i + 1..]).1);
        r := r + [Conditional(cond, block)];
        i := i + 1;
      }
      assert cs[i..] == [];
    }

    /** The statements of a block, in order. */
    method CheckStmts(stmts: seq<Stmt>) returns (r: seq<Stmt>)
      modifies this, builder
      ensures State() == ResolveStmts(old(State()), stmts).0 && r == ResolveStmts(old(State()), stmts).1
      decreases stmts, 0
    {
      ghost var s0 := State();
      assert stmts[0..] == stmts;
      r := [];
      var i := 0;
      while i < |stmts|
        invariant 0 <= i <= |stmts|
        invariant ResolveStmts(s0, stmts).0 == ResolveStmts(State(), stmts[i..]).0
        invariant ResolveStmts(s0, stmts).1 == r + ResolveStmts(State(), stmts[i..]).1
      {
        StmtsFrom(State(), stmts, i);
        assert stmts[i] in stmts;
        var x := CheckStatement(stmts[i]);
        AppendAssoc(r, [x], ResolveStmts(State(), stmts[i + 1..]).1);
        r := r + [x];
        i := i + 1;
      }
      assert stmts[i..] == [];
    }

    /** `check_block`. */
    method CheckBlock(b: Block) returns (r: Block)
      modifies this, builder
      ensures State() == ResolveBlock(old(State()), b).0 && r == ResolveBlock(old(State()), b).1
      decreases b, 1
    {
      currentId := Push(currentId);
      builder.NewScope();
      var stmts := CheckStmts(b.stmts);
      builder.Pop();
      currentId := Pop(currentId);
      currentId := Increment(currentId);
      r := b.(stmts := stmts);
    }

    /** One parameter of `check_fn_declaration`: a duplicate is reported, a new name takes the cursor's id. */
    method CheckParam(p: Param) returns (r: Param)
      modifies this, builder
      ensures State() == DeclareParam(old(State()), p).0 && r == DeclareParam(old(State()), p).1
    {
      var declared := builder.Get(p.ident.name);
      if declared.Some? {
        errors := errors + [ArgumentAlreadyDeclared(p.ident.name)];
        r := p;
      } else {
        var paramId := currentId;
        currentId := Increment(currentId);
        builder.DefineLocal(p.ident.name, paramId);
        r := p.(ident := p.ident.(id := Some(paramId)));
      }
    }

    /** The parameter loop of `check_fn_declaration`. */
    method CheckParams(ps: seq<Param>) returns (r: seq<Param>)
      modifies this, builder
      ensures State() == ResolveParams(old(State()), ps).0 && r == ResolveParams(old(State()), ps).1
    {
      ghost var s0 := State();
      assert ps[0..] == ps;
      r := [];
      var i := 0;
      while i < |ps|
        invariant 0 <= i <= |ps|
        invariant ResolveParams(s0, ps).0 == ResolveParams(State(), ps[i..]).0
        invariant ResolveParams(s0, ps).1 == r + ResolveParams(State(), ps[i..]).1
      {
        ParamsFrom(State(), ps, i);
        var p := CheckParam(ps[i]);
        AppendAssoc(r, [p], ResolveParams(State(), ps[i + 1..]).1);
        r := r + [p];
        i := i + 1;
      }
      assert ps[i..] == [];
    }

    /** `check_fn_declaration`, with the function's scope popped once its body is checked. */
    method CheckFnDeclaration(f: FnDeclaration) returns (r: FnDeclaration)
      modifies this, builder
      ensures State() == ResolveFnDeclaration(old(State()), f).0 && r == ResolveFnDeclaration(old(State()), f).1
    {
      var fnId := SlotId(f.ident.id);
      if fnId == DefaultId {
        return f;
      }
      ghost var st := State();
      currentId := fnId;
      currentId := Push(currentId);
      builder.NewScope();
      assert State() == st.(cursor := Push(fnId), scopes := PushScope(st.scopes));
      var params := CheckParams(f.params);
      var stmts := CheckStmts(f.block.stmts);
      r := f.(params := params, block := f.block.(stmts := stmts));
      assert ResolveFnBody(st, f).0 == State() && ResolveFnBody(st, f).1 == r;
      builder.Pop();
    }

    /** The item loop of `check_unit`. */
    method CheckItems(items: seq<FnDeclaration>) returns (r: seq<FnDeclaration>)
      modifies this, builder
      ensures State() == ResolveItems(old(State()), items).0 && r == ResolveItems(old(State()), items).1
    {
      ghost var s0 := State();
      assert items[0..] == items;
      r := [];
      var i := 0;
      while i < |items|
        invariant 0 <= i <= |items|
        invariant ResolveItems(s0, items).0 == ResolveItems(State(), items[i..]).0
        invariant ResolveItems(s0, items).1 == r + ResolveItems(State(), items[i..]).1
      {
        ItemsFrom(State(), items, i);
        var f := CheckFnDeclaration(items[i]);
        AppendAssoc(r, [f], ResolveItems(State(), items[i + 1..]).1);
        r := r + [f];
        i := i + 1;
      }
      assert items[i..] == [];
    }

    /** `check_unit`. */
    method CheckUnit(u: Unit) returns (r: Unit)
      modifies this, builder
      ensures State() == ResolveUnit(old(State()), u).0 && r == ResolveUnit(old(State()), u).1
    {
      ghost var st := State();
      currentId := Increment(currentId);
      currentId := Push(currentId);
      assert State() == st.(cursor := Push(Increment(st.cursor)));
      var items := CheckItems(u.items);
      currentId := Pop(currentId);
      r := Unit(items);
    }
  }
}
