/**
 * `ScopeBuilder`: the stack of name tables of the name pass. The innermost
 * table is the last element; lookup walks from the innermost table outwards.
 */
module Scopes {
  import opened Wrappers
  import opened ScopedIds

  type Scope = map<string, Id>

  /**
   * `get`: the binding of `name` in the innermost table that has one, or None
   * when no table on the stack binds it.
   */
  function Lookup(scopes: seq<Scope>, name: string): (r: Option<Id>)
    ensures r.Some? <==> exists i :: 0 <= i < |scopes| && name in scopes[i]
    ensures r.Some? ==> exists i :: 0 <= i < |scopes| && name in scopes[i] && r.value == scopes[i][name]
                                  && forall j :: i < j < |scopes| ==> name !in scopes[j]
    decreases |scopes|
  {
    if scopes == [] then None
    else if name in scopes[|scopes| - 1] then Some(scopes[|scopes| - 1][name])
    else Lookup(scopes[..|scopes| - 1], name)
  }

  /** Every table but the innermost. */
  function Outer(scopes: seq<Scope>): seq<Scope>
  {
    if scopes == [] then [] else scopes[..|scopes| - 1]
  }

  /** `new_scope`: push an empty table. */
  function PushScope(scopes: seq<Scope>): (r: seq<Scope>)
    ensures |r| == |scopes| + 1 && Outer(r) == scopes
    ensures forall n :: Lookup(r, n) == Lookup(scopes, n)
  {
    var r := scopes + [map[]];
    assert r[..|r| - 1] == scopes;
    r
  }

  /** `pop`: discard the innermost table and every binding it holds. */
  function PopScope(scopes: seq<Scope>): (r: seq<Scope>)
    ensures r == Outer(scopes)
    ensures scopes != [] ==> |r| + 1 == |scopes|
  {
    Outer(scopes)
  }

  /**
   * `define_local`: bind `name` in the innermost table. With no table on the
   * stack there is nowhere to define it and the stack is left alone.
   */
  function Define(scopes: seq<Scope>, name: string, id: Id): (r: seq<Scope>)
    ensures |r| == |scopes| && Outer(r) == Outer(scopes)
    ensures scopes != [] ==> Lookup(r, name) == Some(id)
    ensures forall n :: n != name ==> Lookup(r, n) == Lookup(scopes, n)
  {
    if scopes == [] then scopes
    else
      var r := Outer(scopes) + [scopes[|scopes| - 1][name := id]];
      assert r[..|r| - 1] == Outer(scopes);
      r
  }

  /** Leaving a scope undoes entering it, whatever was defined in between. */
  lemma PopUndoesScope(scopes: seq<Scope>, name: string, id: Id)
    ensures PopScope(PushScope(scopes)) == scopes
    ensures PopScope(Define(PushScope(scopes), name, id)) == scopes
  {
  }

  class ScopeBuilder {
    var scopes: seq<Scope>

    /** A builder over the given tables (the item pass has defined the function names). */
    constructor (globals: seq<Scope>)
      ensures scopes == globals
    {
      scopes := globals;
    }

    method NewScope()
      modifies this
      ensures scopes == PushScope(old(scopes))
    {
      scopes := scopes + [map[]];
    }

    method Pop()
      modifies this
      ensures scopes == PopScope(old(scopes))
    {
      if scopes != [] {
        scopes := scopes[..|scopes| - 1];
      }
    }

    /** Walk the tables from the innermost outwards. */
    method Get(name: string) returns (r: Option<Id>)
      ensures r == Lookup(scopes, name)
    {
      var i := |scopes|;
      while i > 0
        invariant 0 <= i <= |scopes|
        invariant Lookup(scopes, name) == Lookup(scopes[..i], name)
      {
        if name in scopes[i - 1] {
          return Some(scopes[i - 1][name]);
        }
        assert scopes[..i][..i - 1] == scopes[..i - 1];
        i := i - 1;
      }
      return None;
    }

    method DefineLocal(name: string, id: Id)
      modifies this
      ensures scopes == Define(old(scopes), name, id)
    {
      if scopes != [] {
        var last := |scopes| - 1;
        scopes := scopes[..last] + [scopes[last][name := id]];
      }
    }
  }
}
