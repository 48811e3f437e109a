# protosnirk identification passes, modelled in Dafny

protosnirk is a small compiled language. Its front-end checks a parsed unit in
passes. This project models two of them.

1. **Name identification** (`NameIdentifier`, `src/check/scope/name_identifier.rs`).
   A walk over the syntax tree that moves a hierarchical id cursor
   (`ScopedId`: `push`, `pop`, `increment`) and a stack of name tables
   (`ScopeBuilder`: `new_scope`, `pop`, `get`, `define_local`). It gives every
   parameter and local declaration the cursor's current id and then advances
   the cursor. It resolves variable references and callees to ids already
   handed out. It reports duplicate parameters, duplicate variables and
   unknown functions.
2. **Type-equation emission** (`ExprTypeChecker`, `src/check/types/expr_checker.rs`).
   A walk over function bodies that maps ids to type-graph nodes, allocates
   fresh nodes for literal, operator and call results, and appends type
   equations `lhs = Known(type) | Variable(node) | Fn{params, return}`, each
   with a diagnostic source tag. A result register holds the node of the last
   expression visited, and an lvalue stack holds the nodes of if-blocks whose
   arms produce their value.

Each pass has three layers:

- **Specification functions.** `NameResolution` and `ExprTyping` give each
  visit as a function from the pass's state to the new state (and, for
  names, to the tree with its identifier slots filled).
- **Classes.** `NameIdentifiers.NameIdentifier` and
  `ExprCheckers.ExprTypeChecker` mutate their fields step by step, with
  loops over parameters, statements, conditionals and call arguments.
  Every method is proved to leave exactly the state that the matching
  function describes. In three places the classes and the specification
  functions they equal carry the corrected behaviour listed under
  "## Findings", not the code as written: a function's scope is popped
  after its body, a local declaration defines its name and fills its slot,
  and `==`/`!=` give a `bool` result. The as-written forms are kept beside
  them with lemmas showing where they go wrong.
- **Properties.** `NameProperties` and `ExprProperties` prove what the
  source promises about those functions: ids are distinct and nested
  correctly, scope depth is restored, which errors are reported, and which
  equations and sources each visit adds.

The source does not compile as written. It uses two names for several
things, and the model treats each pair as one:

- `current_type`/`var_type_id` is one result register.
- `lvalue`/`lvalue_ty_id` is one stack.
- `graph.add_inference(a, b, src)` is an equation on `a` followed by a
  source on `a`.
- `builder`/`table_builder` is one scope builder.
- `set_id`/`set_index` writes one identifier slot.

An identifier's slot is `Option<Id>`. `None` is the state the parser leaves,
and reading it gives the default id `[0]`. An `unreachable!` in the type pass
is a `Fatal(op)` result of the specification functions. It aborts the pass
and is not a collected error. The checker's methods require the
`Handles…` predicates, which are proved to hold exactly on the trees where
no `unreachable!` is reached.

Two readings of the code that the model relies on:

- A function whose id reads as the default is skipped, whether its slot is
  empty or holds `[0]` (name_identifier.rs:66-69).
- `get` is modelled as a lookup through the whole scope stack, so a name
  that shadows an outer one is reported as a duplicate. This is an
  assumption: `ScopeBuilder` is not part of this model, and the
  whole-stack reading is the one that makes the same `get` resolve
  references to outer names (name_identifier.rs:177).

## Model

| member | source | states |
|---|---|---|
| ScopedIds.Push | src/check/scope/name_identifier.rs:113-116 | entering a scope adds one innermost level at 0 under the current id |
| ScopedIds.Pop | src/check/scope/name_identifier.rs:120-121 | leaving a scope drops exactly the innermost level; the result is a prefix of the cursor |
| ScopedIds.Increment | src/check/scope/name_identifier.rs:44-47 | the next id stays in the same scope and its last component grows by one; the default id `[0]` becomes `[1]`, so a unit's ids never start with 0 |
| ScopedIds.BeforeIrreflexive | src/check/scope/name_identifier.rs:95-96 | the order ids are handed out in is strict: no id comes before itself |
| ScopedIds.BeforeTransitive | src/check/scope/name_identifier.rs:95-96 | the hand-out order is transitive |
| ScopedIds.PrefixIsBefore | src/check/scope/name_identifier.rs:113-122 | an id inside a scope sorts after the scope's own id |
| ScopedIds.IncrementIsLater | src/check/scope/name_identifier.rs:139-140 | each increment hands out an id strictly later than the previous one |
| ScopedIds.IncrementsAreOrdered | src/check/scope/name_identifier.rs:95-100 | ids handed out at increasing times in one scope are strictly ordered and hence distinct |
| Scopes.Lookup | src/check/scope/name_identifier.rs:82 | `get` finds a name iff some table on the stack binds it, and returns the binding of the innermost such table |
| Scopes.PushScope | src/check/scope/name_identifier.rs:76 | `new_scope` adds one empty table; every lookup is unchanged |
| Scopes.PopScope | src/check/scope/name_identifier.rs:120 | `pop` removes exactly the innermost table |
| Scopes.Define | src/check/scope/name_identifier.rs:99 | `define_local` makes the name resolve to the id; every other name resolves as before; the outer tables are untouched |
| Scopes.PopUndoesScope | src/check/scope/name_identifier.rs:113-123 | pushing a table, defining in it and popping it gives back the original stack |
| Scopes.ScopeBuilder.NewScope | src/check/scope/name_identifier.rs:76 | the stack becomes `PushScope` of the old stack |
| Scopes.ScopeBuilder.Pop | src/check/scope/name_identifier.rs:120 | the stack becomes `PopScope` of the old stack |
| Scopes.ScopeBuilder.Get | src/check/scope/name_identifier.rs:130 | the loop from the innermost table outwards returns `Lookup` of the stack |
| Scopes.ScopeBuilder.DefineLocal | src/check/scope/name_identifier.rs:99 | the stack becomes `Define` of the old stack |
| NameIdentifiers.NameIdentifier.constructor | src/check/scope/name_identifier.rs:25-33 | a fresh checker has the default cursor and no errors, over the given builder |
| NameIdentifiers.NameIdentifier.CheckVarRef | src/check/scope/name_identifier.rs:175-181 | only the identifier's slot changes; it takes the found id when the name resolves |
| NameIdentifiers.NameIdentifier.CheckExpression | src/check/scope/name_identifier.rs:125-181 | the state and tree after any expression are those `ResolveExpr` gives |
| NameIdentifiers.NameIdentifier.CheckDeclaration | src/check/scope/name_identifier.rs:125-142 | the initializer first, then the name check; the result equals `ResolveExpr` on the declaration |
| NameIdentifiers.NameIdentifier.CheckFnCall | src/check/scope/name_identifier.rs:144-173 | a known callee takes its id and its arguments are checked; an unknown one is an error; equal to `ResolveExpr` on the call |
| NameIdentifiers.NameIdentifier.CheckArgument | src/check/scope/name_identifier.rs:154-164 | an argument's value, or else its name as a variable reference; equal to `ResolveArgument` |
| NameIdentifiers.NameIdentifier.CheckArgumentList | src/check/scope/name_identifier.rs:153-165 | the argument loop equals `ResolveArgumentList` |
| NameIdentifiers.NameIdentifier.CheckStatement | src/check/scope/name_identifier.rs:107-109 | one statement equals `ResolveStmt` |
| NameIdentifiers.NameIdentifier.CheckConditionals | src/check/scope/name_identifier.rs:113-123 | the if/else-if arms, condition then block, equal `ResolveConditionals` |
| NameIdentifiers.NameIdentifier.CheckStmts | src/check/scope/name_identifier.rs:117-119 | the statement loop equals `ResolveStmts` |
| NameIdentifiers.NameIdentifier.CheckBlock | src/check/scope/name_identifier.rs:113-123 | `check_block` equals `ResolveBlock` |
| NameIdentifiers.NameIdentifier.CheckParam | src/check/scope/name_identifier.rs:79-100 | one parameter equals `DeclareParam` |
| NameIdentifiers.NameIdentifier.CheckParams | src/check/scope/name_identifier.rs:78-101 | the parameter loop equals `ResolveParams` |
| NameIdentifiers.NameIdentifier.CheckFnDeclaration | src/check/scope/name_identifier.rs:55-111 | `check_fn_declaration`, with its scope popped at the end, equals `ResolveFnDeclaration` |
| NameIdentifiers.NameIdentifier.CheckItems | src/check/scope/name_identifier.rs:49-51 | the item loop equals `ResolveItems` |
| NameIdentifiers.NameIdentifier.CheckUnit | src/check/scope/name_identifier.rs:43-53 | `check_unit` equals `ResolveUnit` |
| NameProperties.ExprAllocates | src/check/scope/name_identifier.rs:125-181 | on an expression with no ids yet, the ids it hands out are distinct and lie at or inside the cursor's level between the old and new cursor; the scope depth is kept; errors are only appended |
| NameProperties.BinaryOpAllocates | src/check/scope/name_identifier.rs:125-181 | the same for a binary operation: the left operand's ids and the right's are disjoint |
| NameProperties.IfExprAllocates | src/check/scope/name_identifier.rs:125-181 | the same for an if-expression's three parts |
| NameProperties.DeclarationAllocates | src/check/scope/name_identifier.rs:125-142 | the same for a declaration: the initializer's ids and the declared id are distinct |
| NameProperties.CallArgsAllocates | src/check/scope/name_identifier.rs:149-166 | the same for a call's arguments |
| NameProperties.ArgumentListAllocates | src/check/scope/name_identifier.rs:153-165 | the same for a list of named arguments |
| NameProperties.StmtAllocates | src/check/scope/name_identifier.rs:107-123 | the same for one statement |
| NameProperties.ConditionalsAllocates | src/check/scope/name_identifier.rs:113-123 | the same for the arms of an if-block |
| NameProperties.StmtsAllocates | src/check/scope/name_identifier.rs:117-119 | the same for a statement list |
| NameProperties.BlockAllocates | src/check/scope/name_identifier.rs:113-123 | the scope stack comes back unchanged, the cursor comes back to its level advanced by one, and every id handed out inside lies strictly inside the block's scope and is distinct |
| NameProperties.DeclareParamAllocates | src/check/scope/name_identifier.rs:82-100 | one parameter hands out nothing, or the cursor itself before moving on |
| NameProperties.ParamsAllocate | src/check/scope/name_identifier.rs:78-101 | the parameters' ids are distinct and handed out at the cursor's level |
| NameProperties.DeclareParamStep | src/check/scope/name_identifier.rs:82-100 | one parameter gets no id exactly when its name is visible; then one "already declared" error and no cursor move, else the cursor's id and one increment |
| NameProperties.ParamsRejectVisibleNames | src/check/scope/name_identifier.rs:78-101 | the loop leaves a parameter without an id exactly when its name is bound in an enclosing scope or by an earlier parameter of the same list |
| NameProperties.ParamsReportDuplicates | src/check/scope/name_identifier.rs:82-93 | the loop's errors are exactly one "already declared" error per parameter left without an id, in order, and nothing else (which parameters those are is `ParamsRejectVisibleNames`) |
| NameProperties.ParamsFillSlots | src/check/scope/name_identifier.rs:78-101 | the loop changes nothing in a parameter except its id slot |
| NameProperties.ParamIdsAreConsecutive | src/check/scope/name_identifier.rs:95-100 | the k-th id handed out is the cursor incremented k times (strictly increasing last components), and the cursor ends one past the last |
| NameProperties.ParamsBindNames | src/check/scope/name_identifier.rs:99-100 | after the loop, each parameter that took an id is what its name resolves to |
| NameProperties.FnBodyAllocates | src/check/scope/name_identifier.rs:71-110 | the cursor ends one level below the function's id, one scope is left on the stack, and the ids handed out are distinct and strictly inside the function's id |
| NameProperties.FnDeclarationResolves | src/check/scope/name_identifier.rs:55-111 | a function whose id reads as the default (an empty slot or `[0]`) changes nothing; otherwise (scope popped) the stack comes back unchanged and the ids are distinct and inside the function's id |
| NameProperties.ItemsKeepScopes | src/check/scope/name_identifier.rs:49-51 | the item loop keeps the stack, only appends errors, keeps each function's identifier, and leaves the cursor one level below the last processed function's id (unchanged when none is processed) |
| NameProperties.ItemsIdsInsideFns | src/check/scope/name_identifier.rs:49-51 | every id the item loop hands out lies strictly inside the id of one of the functions |
| NameProperties.ItemsIdsDistinct | src/check/scope/name_identifier.rs:49-51 | when no function id lies inside another, all ids handed out across the functions are pairwise distinct |
| NameProperties.UnitResolves | src/check/scope/name_identifier.rs:43-53 | the stack is kept; the cursor ends advanced by one at its own depth when no function is processed, else at the last function's id; every id is inside some function, so none starts with 0 when the function ids do not; ids are distinct when function ids are separate |
| NameProperties.DeclarationBindsName | src/check/scope/name_identifier.rs:125-142 | after the initializer: a visible name gives one "already declared" error, no id and an unmoved cursor; a new name takes the cursor's id, advances it once, and a later reference resolves to that id |
| NameProperties.InitializerDoesNotSeeItsOwnName | src/check/scope/name_identifier.rs:126-127 | in `let x = x`, the initializer's `x` does not resolve to the `x` being declared |
| NameProperties.FnCallResolves | src/check/scope/name_identifier.rs:144-173 | for any arguments: an unknown callee gives exactly one "Unknown function" error and visits no argument; a known one takes the bound id and the call's state and arguments are those of visiting the arguments alone |
| NameProperties.ImplicitArgumentsResolve | src/check/scope/name_identifier.rs:144-173 | with only implicit-name arguments: an unknown callee gives exactly one "Unknown function" error; a known one takes the callee's id and resolves each implicit argument name as a variable reference, nothing else changing |
| NameProperties.ArgumentListResolvesNames | src/check/scope/name_identifier.rs:159-163 | implicit-name arguments are resolved in the caller's scope with no change to the state |
| NameProperties.FnScopeLeaksIntoNextFunction | src/check/scope/name_identifier.rs:74-110 | as written, `f(x)` followed by `g(x)` reports `x` as already declared in `g`; with the scope popped, nothing is reported |
| NameProperties.DeclarationIsNeverDefined | src/check/scope/name_identifier.rs:139-141 | as written, a later reference to a declared name does not resolve and a second `let` is not reported; defined, it resolves to the declaration's id and the second `let` is an error |
| TypeScopes.GetNodeSpec | src/check/types/expr_checker.rs:203 | `get_id` keeps the store valid and only grows it; an id keeps its node; a new id gets a node no other id has and never the default node; asking again changes nothing |
| TypeScopes.FreshNodeSpec | src/check/types/expr_checker.rs:473 | `fresh_id` keeps the store valid and returns a node no id has and above every node handed out so far |
| TypeScopes.TypeScopeBuilder.GetId | src/check/types/expr_checker.rs:203 | the store and node returned are those of `GetNode` |
| TypeScopes.TypeScopeBuilder.FreshId | src/check/types/expr_checker.rs:473 | the store and node returned are those of `FreshNode` |
| TypeScopes.TypeScopeBuilder.AddEquation | src/check/types/expr_checker.rs:178-181 | exactly one equation is appended |
| TypeScopes.TypeScopeBuilder.AddSource | src/check/types/expr_checker.rs:193-194 | exactly one source is appended |
| TypeScopes.TypeScopeBuilder.GetType | src/check/types/expr_checker.rs:51-55 | returns a type iff one is recorded for the id, and that type |
| ExprCheckers.ExprTypeChecker.constructor | src/check/types/expr_checker.rs:26-36 | a fresh checker has the default node in its register and an empty lvalue stack |
| ExprCheckers.ExprTypeChecker.AddConstraint | src/check/types/expr_checker.rs:71-72 | `add_inference` is one equation and one source on the same node |
| ExprCheckers.ExprTypeChecker.VisitExpression | src/check/types/expr_checker.rs:198-553 | on a handled expression the walk ends in the state `TypeExpr` gives |
| ExprCheckers.ExprTypeChecker.VisitLiteralExpr | src/check/types/expr_checker.rs:471-501 | the state is `TypeLiteral` of the old state |
| ExprCheckers.ExprTypeChecker.VisitVarRef | src/check/types/expr_checker.rs:199-206 | the state is `TypeVarRef`: an unresolved reference changes nothing, a resolved one puts its node in the register |
| ExprCheckers.ExprTypeChecker.VisitUnaryOp | src/check/types/expr_checker.rs:273-304 | for `+` and `-` the state is the one `TypeUnary` gives |
| ExprCheckers.ExprTypeChecker.VisitBinaryOp | src/check/types/expr_checker.rs:306-416 | for every operator but `Custom` the state is the one `TypeBinary` gives |
| ExprCheckers.ExprTypeChecker.AddOperatorEquations | src/check/types/expr_checker.rs:316-415 | the operator's equations on the operands' nodes equal `BinaryTail` |
| ExprCheckers.ExprTypeChecker.AddOperandEquations | src/check/types/expr_checker.rs:317-334 | the operand equations equal `OperandConstraints` for the operator's class |
| ExprCheckers.ExprTypeChecker.AddResultNode | src/check/types/expr_checker.rs:399-410 | a fresh node with one equation and one source becomes the register's node (`FreshResult`) |
| ExprCheckers.ExprTypeChecker.VisitIfExpr | src/check/types/expr_checker.rs:208-271 | the state is the one `TypeIfExpr` gives |
| ExprCheckers.ExprTypeChecker.AddBranchEquations | src/check/types/expr_checker.rs:257-270 | the branch equation and both `IfBranchesSame` sources (`IfBranches`) |
| ExprCheckers.ExprTypeChecker.VisitFnCall | src/check/types/expr_checker.rs:503-553 | the state is the one `TypeFnCall` gives |
| ExprCheckers.ExprTypeChecker.VisitArgument | src/check/types/expr_checker.rs:520-535 | one named argument equals `TypeArgument` |
| ExprCheckers.ExprTypeChecker.VisitArguments | src/check/types/expr_checker.rs:519-537 | the argument loop returns the parameter map and state `TypeArgumentList` gives |
| ExprCheckers.ExprTypeChecker.VisitAssignment | src/check/types/expr_checker.rs:418-436 | the state is the one `TypeAssignment` gives |
| ExprCheckers.ExprTypeChecker.VisitDeclaration | src/check/types/expr_checker.rs:438-469 | the state is the one `TypeDeclaration` gives |
| ExprCheckers.ExprTypeChecker.VisitStatement | src/check/types/expr_checker.rs:111-196 | one statement equals `TypeStmt` |
| ExprCheckers.ExprTypeChecker.VisitStmts | src/check/types/expr_checker.rs:103-108 | the statement loop equals `TypeStmts` |
| ExprCheckers.ExprTypeChecker.VisitBlock | src/check/types/expr_checker.rs:103-108 | the state is the one `TypeBlock` gives |
| ExprCheckers.ExprTypeChecker.EnterArm | src/check/types/expr_checker.rs:141-146 | a typed arm pushes the if-block's node and resets the register |
| ExprCheckers.ExprTypeChecker.VisitArm | src/check/types/expr_checker.rs:133-147 | one arm equals `TypeArm` |
| ExprCheckers.ExprTypeChecker.VisitConditionals | src/check/types/expr_checker.rs:132-148 | the arm loop equals `TypeConditionals` |
| ExprCheckers.ExprTypeChecker.VisitIfBlock | src/check/types/expr_checker.rs:119-161 | the state is the one `TypeIfBlock` gives |
| ExprCheckers.ExprTypeChecker.VisitReturnStmt | src/check/types/expr_checker.rs:163-195 | the state is the one `TypeReturn` gives |
| ExprCheckers.ExprTypeChecker.VisitParams | src/check/types/expr_checker.rs:74-86 | the parameter loop equals `TypeParams` |
| ExprCheckers.ExprTypeChecker.VisitBlockFnDecl | src/check/types/expr_checker.rs:45-97 | the state is the one `TypeFnDecl` gives |
| ExprProperties.ExprCompletes | src/check/types/expr_checker.rs:273-414 | a visit of an expression reaches no `unreachable!` iff the expression is handled |
| ExprProperties.UnaryCompletes | src/check/types/expr_checker.rs:275-302 | a unary operation completes iff its operator is `+` or `-` and its operand completes |
| ExprProperties.BinaryCompletes | src/check/types/expr_checker.rs:306-416 | a binary operation completes iff both operands do and the operator is not `Custom` |
| ExprProperties.IfExprCompletes | src/check/types/expr_checker.rs:238-255 | an if-expression completes iff its three parts do |
| ExprProperties.FnCallCompletes | src/check/types/expr_checker.rs:503-538 | a call completes iff its callee is unresolved or its arguments complete |
| ExprProperties.CallArgsCompletes | src/check/types/expr_checker.rs:508-538 | a call's arguments complete iff each is handled |
| ExprProperties.ArgumentCompletes | src/check/types/expr_checker.rs:521-530 | one argument completes iff its value (if any) does |
| ExprProperties.ArgumentListCompletes | src/check/types/expr_checker.rs:520-536 | the argument loop completes iff every argument does |
| ExprProperties.AssignmentCompletes | src/check/types/expr_checker.rs:418-424 | an assignment completes iff its target is unresolved or its value completes |
| ExprProperties.DeclarationCompletes | src/check/types/expr_checker.rs:438-459 | a declaration completes iff its initializer does |
| ExprProperties.StmtCompletes | src/check/types/expr_checker.rs:111-196 | a statement completes iff it is handled |
| ExprProperties.StmtsCompletes | src/check/types/expr_checker.rs:103-108 | a statement list completes iff every statement does |
| ExprProperties.BlockCompletes | src/check/types/expr_checker.rs:103-108 | a block completes iff it has no id or its statements complete |
| ExprProperties.ArmCompletes | src/check/types/expr_checker.rs:133-147 | an arm completes iff its condition and block do |
| ExprProperties.ConditionalsCompletes | src/check/types/expr_checker.rs:132-148 | the arm loop completes iff every arm does |
| ExprProperties.IfBlockCompletes | src/check/types/expr_checker.rs:119-161 | an if-block completes iff it has no id or all its arms and its else block complete |
| ExprProperties.FnDeclCompletes | src/check/types/expr_checker.rs:45-97 | a function declaration completes iff it is skipped or its block completes |
| ExprProperties.ExprEvolves | src/check/types/expr_checker.rs:198-553 | a completed expression visit keeps the store valid, only grows it, and leaves the lvalue stack exactly as it was (expressions hold no if-blocks) |
| ExprProperties.UnaryEvolves | src/check/types/expr_checker.rs:273-304 | the same for a unary operation |
| ExprProperties.BinaryEvolves | src/check/types/expr_checker.rs:306-416 | the same for a binary operation |
| ExprProperties.IfExprEvolves | src/check/types/expr_checker.rs:208-271 | the same for an if-expression |
| ExprProperties.FnCallEvolves | src/check/types/expr_checker.rs:503-553 | the same for a call |
| ExprProperties.CallArgsEvolves | src/check/types/expr_checker.rs:508-538 | the same for a call's arguments |
| ExprProperties.ArgumentEvolves | src/check/types/expr_checker.rs:521-535 | the same for one named argument |
| ExprProperties.ArgumentListEvolves | src/check/types/expr_checker.rs:520-536 | the same for the argument loop |
| ExprProperties.AssignmentEvolves | src/check/types/expr_checker.rs:418-436 | the same for an assignment |
| ExprProperties.DeclarationEvolves | src/check/types/expr_checker.rs:438-469 | the same for a declaration |
| ExprProperties.StmtEvolves | src/check/types/expr_checker.rs:111-196 | a completed statement keeps the store valid, only grows it, only pushes onto the lvalue stack, and never onto an empty one |
| ExprProperties.StmtsEvolves | src/check/types/expr_checker.rs:103-108 | the same for a statement list |
| ExprProperties.BlockEvolves | src/check/types/expr_checker.rs:103-108 | the same for a block |
| ExprProperties.EnterArmEvolves | src/check/types/expr_checker.rs:141-146 | entering a typed arm on a non-empty stack only pushes onto it |
| ExprProperties.ArmEvolves | src/check/types/expr_checker.rs:133-147 | the same for one arm |
| ExprProperties.ConditionalsEvolves | src/check/types/expr_checker.rs:132-148 | the same for the arm loop |
| ExprProperties.IfBlockEvolves | src/check/types/expr_checker.rs:119-161 | the same for an if-block |
| ExprProperties.ReturnEvolves | src/check/types/expr_checker.rs:163-195 | the same for a return statement |
| ExprProperties.ParamsEvolve | src/check/types/expr_checker.rs:74-86 | the parameter loop keeps the store valid and only grows it |
| ExprProperties.SignatureEvolves | src/check/types/expr_checker.rs:67-86 | the signature part keeps the store valid and only grows it |
| ExprProperties.FnDeclEvolves | src/check/types/expr_checker.rs:45-97 | a handled function declaration completes and keeps the store valid and growing; from an empty lvalue stack the stack stays empty |
| ExprProperties.VarRefTyped | src/check/types/expr_checker.rs:199-206 | an unresolved reference changes nothing; a resolved one puts its id's node in the register, the node any earlier or later reference to the id gets, adding no equation or source |
| ExprProperties.LiteralTyped | src/check/types/expr_checker.rs:471-501 | a fresh node that no variable has, exactly one equation on it (`bool` for booleans, `int` for numbers, unit for `()`) and one `LiteralValue` source; the register takes it |
| ExprProperties.UnaryTyped | src/check/types/expr_checker.rs:276-297 | after the operand, the operand's node and a fresh result are both `int` with `NumericOperator`; the register takes the result |
| ExprProperties.UnsupportedOperatorsAreFatal | src/check/types/expr_checker.rs:300-302 | a unary operator other than `+`/`-` stops the walk with that operator, and so does `Custom` as a binary operator once its operands are visited |
| ExprProperties.BinaryTailTyped | src/check/types/expr_checker.rs:316-411 | arithmetic makes both operands and a fresh result `int`; a comparison makes both operands `int` and the result `bool`; `==`/`!=` equate the operands both ways and make the result `bool`; the exact equation and source lists, and the register takes the result |
| ExprProperties.BinaryTyped | src/check/types/expr_checker.rs:310-314 | the left operand is visited before the right, and the operator's equations follow on their nodes |
| ExprProperties.OperatorClasses | src/check/types/expr_checker.rs:316-414 | every binary operator but `Custom` is in exactly one of the arithmetic, comparison and equality arms |
| ExprProperties.IfExprTyped | src/check/types/expr_checker.rs:238-270 | from a reset register, the condition's node is made `bool`; the true branch's node is equated with the else branch's; both get `IfBranchesSame`; the register ends on the else branch |
| ExprProperties.ArgumentListKeys | src/check/types/expr_checker.rs:519-537 | the argument loop's map has exactly the argument names added to the keys it started with |
| ExprProperties.FnCallTyped | src/check/types/expr_checker.rs:503-553 | the result node is taken before the arguments; the map is keyed by `""` for a bare argument and by the names otherwise; the callee's node equals `Fn(params, Variable(result))` and the result is tagged `CallReturnType` and left in the register |
| ExprProperties.AssignmentTyped | src/check/types/expr_checker.rs:418-436 | the target's node, taken before the value is visited, is equated with the value's node and tagged; the register is reset |
| ExprProperties.UnresolvedAreSkipped | src/check/types/expr_checker.rs:421 | an assignment to, or a call of, an unresolved name, and a block or if-block without an id, leave the state unchanged |
| ExprProperties.DeclarationTyped | src/check/types/expr_checker.rs:438-469 | the variable's node gets the annotation equation only when annotated, then always the initializer's node with `DeclarationSource`; the register is reset |
| ExprProperties.ReturnTyped | src/check/types/expr_checker.rs:163-195 | a valueless return makes the return node unit; a valued one equates it with the value's node unless it is the default node; `ExplicitReturn` is recorded either way |
| ExprProperties.ParamsKeepNodes | src/check/types/expr_checker.rs:74-86 | the parameter loop never moves an id that already has a node |
| ExprProperties.ParamsTyped | src/check/types/expr_checker.rs:74-86 | exactly one equation and one `FnParameter` source per parameter, in order, each making the parameter's node its declared type |
| ExprProperties.FnSignatureTyped | src/check/types/expr_checker.rs:67-86 | first the function's node is made its recorded type with `FunctionSignature`, then one equation per parameter |
| ExprProperties.FnDeclSkipped | src/check/types/expr_checker.rs:46-55 | a function with the default id or no recorded type adds nothing |
| ExprProperties.FnDeclTyped | src/check/types/expr_checker.rs:63-96 | after the block, the implicit-return equation is added exactly when the declared return type is not `()` |
| ExprProperties.ArmTyped | src/check/types/expr_checker.rs:133-147 | after its condition, an arm first makes the condition's node `bool`; a typed arm pushes the if-block's node |
| ExprProperties.ConditionalsTyped | src/check/types/expr_checker.rs:132-148 | every condition's node is made `bool` |
| ExprProperties.IfBlockTyped | src/check/types/expr_checker.rs:119-161 | every condition is made `bool`; the block is typed only with an else arm and a non-empty lvalue stack, and then its node is pushed and left in the register; an empty stack stays empty |
| ExprProperties.EqualityResultAsWrittenClashes | src/check/types/expr_checker.rs:336-341 | as written, the result of `a == b` used as an if condition is given both `int` and `bool` |

## Left out

- The definitions of `ScopedId`, `ScopeBuilder` and `TypeScopeBuilder` are not part of this model. They are modelled from how the two passes use them.
- The item pass, which defines function names, gives functions their ids and records their types, is not modelled. Its results are inputs: the initial scope tables and the `types` map.
- `first_check_item` (name_identifier.rs:35-39) is an empty match that does not compile; it is not modelled.
- `ident.set_type_id` (expr_checker.rs:204) is not modelled. The node is still recorded against the id in the store.
- `TypeExprIdentifier` (expr_checker.rs:444-448) is not modelled. A declaration's annotation is given as the concrete type it names.
- `get_named_type("()")` (expr_checker.rs:65) is not modelled. The declared return type is compared with the unit primitive directly.
- The implicit-return lines (expr_checker.rs:93-95) use names that are never defined (`fn_ret_ty`, `inference`). They are modelled as an equation making the register's node the declared return type, with the `ImplicitReturn` source.
- `graph.add_variable` and `graph.add_concrete` (expr_checker.rs:67-68, 80-81) are both modelled as the id's node. The concrete side is the equation's `Known` right-hand side.
- `graph.add_type` for `bool` (expr_checker.rs:128-130) is modelled as the right-hand side `Known(bool)`.
- `return_ty_id` is never assigned in the source. It is a constant node the checker is built with.
- `ExprTypeChecker.errors` is never written in the core. It is not modelled.
- Tokens and identifiers carried by diagnostic sources and errors are dropped. A source is its kind, and an error is its kind and the name involved.
- Logging (`trace!`) is left out.
- The type solver, LLVM code generation, the driver and the test harness are outside the two passes and not modelled.
- `unreachable!` is a `Fatal` result, not a panic. The checker's methods require the trees on which it is never reached, and that precondition is proved to be exactly that.
- Literal values are carried but never inspected; floating point plays no part.
- NameProperties.UnitResolves: the cursor depth is restored after the unit only when no function is processed. `check_fn_declaration` overwrites the cursor with the function's id and does not restore it (name_identifier.rs:72, 110), so afterwards the cursor is the last function's id.
- NameProperties.UnitResolves: "no id starts with 0" is proved given that the function ids themselves do not start with 0. Those ids come from the item pass, which is not modelled.
- NameProperties.ItemsIdsDistinct: distinctness across functions is proved given that no function id lies inside another, a property of the item pass.
- The name-side lemmas assume the tree has no ids assigned yet, as the parser leaves it.
- CheckDeclaration: carries the corrected `check_declaration`, which defines the name and fills the slot with the declaration's id; name_identifier.rs:139-141 does neither (as written: `NameResolution.DeclareVariableAsWritten`, see Findings).
- CheckFnDeclaration: carries the corrected `check_fn_declaration`, which pops the function's scope after the body; name_identifier.rs:74-110 never pops it (as written: `NameResolution.ResolveFnDeclarationAsWritten`, see Findings).
- FnDeclarationResolves: "the stack comes back unchanged" holds for the corrected function-scope pop; as written each processed function leaves its table on the stack (see Findings).
- ItemsKeepScopes: "keeps the stack" holds for the corrected function-scope pop; as written each processed function leaves one table behind.
- UnitResolves: "the stack is kept" holds for the corrected function-scope pop; as written each processed function leaves one table behind.
- VisitBinaryOp: for `==` and `!=` the result node is made `bool`, the corrected form; expr_checker.rs:340 makes it `int` (as written: `ExprTyping.BinaryTailAsWritten`, see Findings).
- AddOperatorEquations: equals the corrected `BinaryTail`, with a `bool` result for `==` and `!=`; expr_checker.rs:340 gives `int`.
- The visitor's default walks (`ASTVisitor`'s default `check_stmt`, `check_if_block`, `check_assignment`, `check_binary_op` and the like, `visit::walk_block`, `walk_do_block`, and the `visit_expression`/`visit_stmt` dispatch) are not part of this model. They are modelled as an in-order traversal: an assignment's target before its value, each if-arm's condition then its block as a block, a `do` block as a block.
- ExprProperties.BinaryTailTyped: states the corrected `bool` result for `==` and `!=`. The as-written `int` is kept in `ExprTyping.BinaryTailAsWritten` (see Findings).

## Findings

| source | as written | input that shows it | evidently intended | confidence | as-written member | corrected member |
|---|---|---|---|---|---|---|
| src/check/scope/name_identifier.rs:74-110 | `check_fn_declaration` pushes a scope for the parameters and body and never pops it | two functions `f(x)` then `g(x)`: `g`'s `x` is reported as "Argument x is already declared" | pop the function's scope after its body, as `check_block` does | not executed | NameResolution.ResolveFnDeclarationAsWritten, NameProperties.FnScopeLeaksIntoNextFunction | NameResolution.ResolveFnDeclaration, NameProperties.FnDeclarationResolves |
| src/check/scope/name_identifier.rs:139-141 | `check_declaration` computes the id, advances the cursor, and neither defines the name nor sets the id | `let x = 1` then `x`: the reference stays unresolved, and a second `let x` is not reported | `define_local(name, decl_id)` and `set_id(decl_id)` | not executed | NameResolution.DeclareVariableAsWritten, NameProperties.DeclarationIsNeverDefined | NameResolution.DeclareVariable, NameProperties.DeclarationBindsName |
| src/check/types/expr_checker.rs:336-341 | the result of `==` and `!=` is constrained to `int` | `if a == b => ...`: the result node gets both `int` and `bool` | `bool`, as the comment at line 337 and the comparison arm say | not executed | ExprTyping.BinaryTailAsWritten, ExprProperties.EqualityResultAsWrittenClashes | ExprTyping.BinaryTail, ExprProperties.BinaryTailTyped |
