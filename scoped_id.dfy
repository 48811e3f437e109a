/**
 * `ScopedId`: a hierarchical id, one component per nested scope, used both as
 * the name pass's cursor and as the frozen id stored on an identifier.
 *
 * The cursor operations used by the name pass are `push` (enter a scope),
 * `pop` (leave it) and `increment` (hand out the next id in the current scope).
 * The id of a fresh cursor is the all-zero path `[0]`; `increment` on it gives
 * `[1]`, so a unit that increments before pushing never starts at 0.
 */
module ScopedIds {

  /** A path through nested scopes. */
  type Id = seq<nat>

  /** `ScopedId::default()`. */
  const DefaultId: Id := [0]

  /** The id of the enclosing scope: every level but the innermost. */
  function Parent(c: Id): Id
  {
    if c == [] then [] else c[..|c| - 1]
  }

  /** The innermost component, read as 0 for the empty path. */
  function Last(c: Id): nat
  {
    if c == [] then 0 else c[|c| - 1]
  }

  /** `a` is a (not necessarily proper) prefix of `b`: `b` lies inside scope `a`. */
  predicate IsPrefix(a: Id, b: Id)
  {
    |a| <= |b| && b[..|a|] == a
  }

  /** Enter a scope: append a new innermost level at 0. */
  function Push(c: Id): (r: Id)
    ensures |r| == |c| + 1 && Parent(r) == c && Last(r) == 0
  {
    c + [0]
  }

  /** Leave a scope: drop the innermost level (nothing to drop on the empty path). */
  function Pop(c: Id): (r: Id)
    ensures IsPrefix(r, c)
    ensures c != [] ==> |r| + 1 == |c|
  {
    Parent(c)
  }

  /**
   * Hand out the next id in the current scope: bump the innermost level.
   * The empty path is read as `[0]`, so it becomes `[1]`.
   */
  function Increment(c: Id): (r: Id)
    ensures |r| == if c == [] then 1 else |c|
    ensures Parent(r) == Parent(c) && Last(r) == Last(c) + 1
  {
    if c == [] then [1] else Parent(c) + [Last(c) + 1]
  }

  /**
   * The order ids are handed out in: lexicographic on the path, an enclosing
   * scope's id before every id inside it.
   */
  predicate Before(a: Id, b: Id)
  {
    if a == [] then b != []
    else if b == [] then false
    else a[0] < b[0] || (a[0] == b[0] && Before(a[1..], b[1..]))
  }

  lemma {:induction false} BeforeIrreflexive(a: Id)
    ensures !Before(a, a)
  {
    if a != [] {
      BeforeIrreflexive(a[1..]);
    }
  }

  lemma {:induction false} BeforeTransitive(a: Id, b: Id, c: Id)
    requires Before(a, b) && Before(b, c)
    ensures Before(a, c)
  {
    if a != [] && b != [] && c != [] && a[0] == b[0] && b[0] == c[0] {
      BeforeTransitive(a[1..], b[1..], c[1..]);
    }
  }

  /** An id sorts after the scope it lies in. */
  lemma {:induction false} PrefixIsBefore(a: Id, b: Id)
    requires IsPrefix(a, b) && a != b
    ensures Before(a, b)
  {
    if a != [] {
      assert a[1..] == b[1..][..|a| - 1];
      PrefixIsBefore(a[1..], b[1..]);
    }
  }

  /** Each `increment` hands out an id that sorts strictly after the previous one. */
  lemma {:induction false} IncrementIsLater(c: Id)
    ensures Before(c, Increment(c))
  {
    if |c| > 1 {
      assert Increment(c)[1..] == Increment(c[1..]);
      IncrementIsLater(c[1..]);
    }
  }

  /** `n` increments from the same cursor. */
  function IncrementN(c: Id, n: nat): Id
  {
    if n == 0 then c else Increment(IncrementN(c, n - 1))
  }

  /** Ids handed out at increasing times within one scope are strictly ordered, hence distinct. */
  lemma {:induction false} IncrementsAreOrdered(c: Id, m: nat, n: nat)
    requires m < n
    ensures Before(IncrementN(c, m), IncrementN(c, n))
    ensures IncrementN(c, m) != IncrementN(c, n)
    decreases n
  {
    var a, b, z := IncrementN(c, m), IncrementN(c, n - 1), IncrementN(c, n);
    IncrementIsLater(b);
    if m < n - 1 {
      IncrementsAreOrdered(c, m, n - 1);
      BeforeTransitive(a, b, z);
    } else {
      assert a == b;
    }
    assert Before(a, z);
    BeforeIrreflexive(a);
  }
}
