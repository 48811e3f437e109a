/**
 * `TypeScopeBuilder`: the store the type pass writes into. It maps each
 * `ScopedId` to a type-graph node (creating the node the first time the id is
 * asked for), hands out fresh nodes for expression results, and collects the
 * type equations with their diagnostic sources. It also holds the concrete
 * types the item pass found for declared functions.
 *
 * Nodes are naturals handed out in increasing order from 1; node 0 is the
 * default node (`NodeIndex::default()`), never handed out.
 */
module TypeScopes {
  import opened Wrappers
  import opened ScopedIds
  import opened Types

  datatype TypeScope = TypeScope(
    nodes: map<Id, nat>,
    next: nat,
    equations: seq<TypeEquation>,
    sources: seq<SourceEntry>)

  /** An empty store: no ids known, the first node to hand out is 1. */
  const EmptyScope := TypeScope(map[], 1, [], [])

  /**
   * Every node the store has handed out is below `next` and above the default
   * node, and no two ids share a node.
   */
  predicate Valid(sc: TypeScope)
  {
    && sc.next >= 1
    && (forall id :: id in sc.nodes ==> 1 <= sc.nodes[id] < sc.next)
    && (forall a, b :: a in sc.nodes && b in sc.nodes && a != b ==> sc.nodes[a] != sc.nodes[b])
  }

  /**
   * `sc2` extends `sc`: no id changes its node, the counter never goes back,
   * and equations and sources are only appended.
   */
  predicate Grows(sc: TypeScope, sc2: TypeScope)
  {
    && sc.next <= sc2.next
    && (forall id :: id in sc.nodes ==> id in sc2.nodes && sc2.nodes[id] == sc.nodes[id])
    && sc.equations <= sc2.equations
    && sc.sources <= sc2.sources
  }

  lemma GrowsTrans(a: TypeScope, b: TypeScope, c: TypeScope)
    requires Grows(a, b) && Grows(b, c)
    ensures Grows(a, c)
  {
  }

  /** `get_id`: the node of `id`, created from the counter on first use. */
  function GetNode(sc: TypeScope, id: Id): (TypeScope, nat)
  {
    if id in sc.nodes then (sc, sc.nodes[id])
    else (sc.(nodes := sc.nodes[id := sc.next], next := sc.next + 1), sc.next)
  }

  /** `fresh_id`: a node no id and no earlier fresh call has. */
  function FreshNode(sc: TypeScope): (TypeScope, nat)
  {
    (sc.(next := sc.next + 1), sc.next)
  }

  function WithEquation(sc: TypeScope, lhs: nat, rhs: InferredType): TypeScope
  {
    sc.(equations := sc.equations + [TypeEquation(lhs, rhs)])
  }

  function WithSource(sc: TypeScope, node: nat, source: InferenceSource): TypeScope
  {
    sc.(sources := sc.sources + [SourceEntry(node, source)])
  }

  /**
   * `get_id` keeps the store valid and only grows it; the node it returns is
   * the id's existing node when there is one and otherwise a node no other id
   * has, and asking again gives the same node without changing anything.
   */
  lemma GetNodeSpec(sc: TypeScope, id: Id)
    requires Valid(sc)
    ensures var sc2, n := GetNode(sc, id).0, GetNode(sc, id).1;
      && Valid(sc2) && Grows(sc, sc2)
      && id in sc2.nodes && sc2.nodes[id] == n && n != DefaultNode
      && (id in sc.nodes ==> sc2 == sc)
      && (id !in sc.nodes ==> forall other :: other in sc.nodes ==> sc.nodes[other] != n)
      && GetNode(sc2, id) == (sc2, n)
  {
    if id !in sc.nodes {
      var sc2 := GetNode(sc, id).0;
      forall a, b | a in sc2.nodes && b in sc2.nodes && a != b
        ensures sc2.nodes[a] != sc2.nodes[b]
      {
        if a != id && b != id {
          assert sc2.nodes[a] == sc.nodes[a] && sc2.nodes[b] == sc.nodes[b];
        }
      }
    }
  }

  /** `fresh_id` keeps the store valid and returns a node above every node handed out so far. */
  lemma FreshNodeSpec(sc: TypeScope)
    requires Valid(sc)
    ensures var sc2, n := FreshNode(sc).0, FreshNode(sc).1;
      && Valid(sc2) && Grows(sc, sc2)
      && n != DefaultNode && n >= sc.next && n < sc2.next
      && forall id :: id in sc2.nodes ==> sc2.nodes[id] != n
  {
  }

  class TypeScopeBuilder {
    var nodes: map<Id, nat>
    var next: nat
    var equations: seq<TypeEquation>
    var sources: seq<SourceEntry>
    /** The concrete types the item pass recorded for declared functions (`get_type`). */
    const types: map<Id, ConcreteType>

    constructor (types: map<Id, ConcreteType>)
      ensures Scope() == EmptyScope && this.types == types
    {
      nodes := map[];
      next := 1;
      equations := [];
      sources := [];
      this.types := types;
    }

    ghost function Scope(): TypeScope
      reads this
    {
      TypeScope(nodes, next, equations, sources)
    }

    method GetId(id: Id) returns (n: nat)
      modifies this
      ensures Scope() == GetNode(old(Scope()), id).0 && n == GetNode(old(Scope()), id).1
    {
      if id in nodes {
        n := nodes[id];
      } else {
        n := next;
        nodes := nodes[id := n];
        next := next + 1;
      }
    }

    method FreshId() returns (n: nat)
      modifies this
      ensures Scope() == FreshNode(old(Scope())).0 && n == FreshNode(old(Scope())).1
    {
      n := next;
      next := next + 1;
    }

    method AddEquation(lhs: nat, rhs: InferredType)
      modifies this
      ensures Scope() == WithEquation(old(Scope()), lhs, rhs)
    {
      equations := equations + [TypeEquation(lhs, rhs)];
    }

    method AddSource(node: nat, source: InferenceSource)
      modifies this
      ensures Scope() == WithSource(old(Scope()), node, source)
    {
      sources := sources + [SourceEntry(node, source)];
    }

    /** `get_type`: the recorded concrete type of a function id, if any. */
    method GetType(id: Id) returns (r: Option<ConcreteType>)
      ensures r.Some? <==> id in types
      ensures r.Some? ==> r.value == types[id]
    {
      r := if id in types then Some(types[id]) else None;
    }
  }
}
