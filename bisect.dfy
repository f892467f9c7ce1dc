/**
 * The three operations of Python's `bisect` module that the ring uses on its
 * ascending list of positions: `bisect_left`, `bisect_right` and `insort`
 * (which is `insort_right`). A Python list that is mutated in place is
 * modelled as a sequence value that the caller reassigns.
 */
module Bisect {

  /** Ascending, possibly with repeats: what `bisect` demands of its list. */
  ghost predicate Sorted(a: seq<nat>) {
    forall i, j :: 0 <= i < j < |a| ==> a[i] <= a[j]
  }

  /** Strictly ascending: ascending and without repeats. */
  ghost predicate StrictlySorted(a: seq<nat>) {
    forall i, j :: 0 <= i < j < |a| ==> a[i] < a[j]
  }

  /** The set of values held in a sequence. */
  ghost function Elems(a: seq<nat>): set<nat> {
    set x | x in a
  }

  /** Only the empty sequence holds no values. */
  lemma ElemsEmpty(a: seq<nat>)
    ensures Elems(a) == {} <==> a == []
  {
    if a != [] {
      assert a[0] in Elems(a);
    }
  }

  /**
   * `bisect_left(a, x)`: the leftmost index at which `x` could be inserted
   * keeping `a` ascending; every element before it is smaller than `x`.
   */
  method BisectLeft(a: seq<nat>, x: nat) returns (k: nat)
    requires Sorted(a)
    ensures k <= |a|
    ensures forall j :: 0 <= j < k ==> a[j] < x
    ensures forall j :: k <= j < |a| ==> x <= a[j]
  {
    var lo, hi := 0, |a|;
    while lo < hi
      invariant 0 <= lo <= hi <= |a|
      invariant forall j :: 0 <= j < lo ==> a[j] < x
      invariant forall j :: hi <= j < |a| ==> x <= a[j]
    {
      var mid := (lo + hi) / 2;
      if a[mid] < x {
        lo := mid + 1;
      } else {
        hi := mid;
      }
    }
    k := lo;
  }

  /**
   * `bisect_right(a, x)`: the rightmost index at which `x` could be inserted
   * keeping `a` ascending; every element from it on is larger than `x`.
   */
  method BisectRight(a: seq<nat>, x: nat) returns (k: nat)
    requires Sorted(a)
    ensures k <= |a|
    ensures forall j :: 0 <= j < k ==> a[j] <= x
    ensures forall j :: k <= j < |a| ==> x < a[j]
  {
    var lo, hi := 0, |a|;
    while lo < hi
      invariant 0 <= lo <= hi <= |a|
      invariant forall j :: 0 <= j < lo ==> a[j] <= x
      invariant forall j :: hi <= j < |a| ==> x < a[j]
    {
      var mid := (lo + hi) / 2;
      if x < a[mid] {
        hi := mid;
      } else {
        lo := mid + 1;
      }
    }
    k := lo;
  }

  /**
   * `insort(a, x)`: `a` with `x` inserted at `bisect_right(a, x)`. The result
   * is ascending and a permutation of `a` plus `x`; inserting a value not yet
   * present into a strictly ascending list keeps it strictly ascending.
   */
  method Insort(a: seq<nat>, x: nat) returns (b: seq<nat>)
    requires Sorted(a)
    ensures Sorted(b)
    ensures multiset(b) == multiset(a) + multiset{x}
    ensures Elems(b) == Elems(a) + {x}
    ensures StrictlySorted(a) && x !in a ==> StrictlySorted(b)
  {
    var k := BisectRight(a, x);
    b := a[..k] + [x] + a[k..];
    InsertIndex(a, k, x);
    InsertSorted(a, k, x);
    InsertMultiset(a, k, x);
    if StrictlySorted(a) && x !in a {
      InsertStrict(a, k, x);
    }
  }

  lemma InsertSorted(a: seq<nat>, k: nat, x: nat)
    requires Sorted(a) && k <= |a|
    requires forall j :: 0 <= j < k ==> a[j] <= x
    requires forall j :: k <= j < |a| ==> x < a[j]
    ensures Sorted(a[..k] + [x] + a[k..])
  {
  }

  lemma InsertStrict(a: seq<nat>, k: nat, x: nat)
    requires StrictlySorted(a) && k <= |a| && x !in a
    requires forall j :: 0 <= j < k ==> a[j] <= x
    requires forall j :: k <= j < |a| ==> x < a[j]
    ensures StrictlySorted(a[..k] + [x] + a[k..])
  {
  }

  /** Inserting adds exactly one occurrence of `x`, so `x` is the only new value. */
  lemma InsertMultiset(a: seq<nat>, k: nat, x: nat)
    requires k <= |a|
    ensures multiset(a[..k] + [x] + a[k..]) == multiset(a) + multiset{x}
    ensures Elems(a[..k] + [x] + a[k..]) == Elems(a) + {x}
  {
    var b := a[..k] + [x] + a[k..];
    assert a == a[..k] + a[k..];
    assert multiset(b) == multiset(a[..k]) + multiset{x} + multiset(a[k..]);
    forall y ensures y in b <==> y in a || y == x {
      assert y in b <==> y in multiset(b);
      assert y in a <==> y in multiset(a);
    }
  }

  /** Where each element of `a` lands once `x` is inserted at `k`. */
  lemma InsertIndex(a: seq<nat>, k: nat, x: nat)
    requires k <= |a|
    ensures var b := a[..k] + [x] + a[k..];
      |b| == |a| + 1 && b[k] == x &&
      (forall i :: 0 <= i < k ==> b[i] == a[i]) &&
      (forall i :: k < i < |b| ==> b[i] == a[i - 1])
  {
  }

  /**
   * `del a[k]` on a strictly ascending list keeps it strictly ascending and
   * removes exactly the value `a[k]`.
   */
  lemma DeleteAt(a: seq<nat>, k: nat)
    requires StrictlySorted(a) && k < |a|
    ensures StrictlySorted(a[..k] + a[k + 1..])
    ensures Elems(a[..k] + a[k + 1..]) == Elems(a) - {a[k]}
  {
  }

  /**
   * A strictly ascending sequence is determined by its set of values: two
   * such sequences holding the same values are equal.
   */
  lemma {:induction false} SortedUnique(a: seq<nat>, b: seq<nat>)
    requires StrictlySorted(a) && StrictlySorted(b)
    requires Elems(a) == Elems(b)
    ensures a == b
  {
    if a == [] {
      ElemsEmpty(b);
    } else {
      assert a[0] in Elems(b);
      assert b != [];
      assert b[0] in Elems(a);
      assert a[0] == b[0];
      assert Elems(a[1..]) == Elems(a) - {a[0]} by {
        assert a == [a[0]] + a[1..];
      }
      assert Elems(b[1..]) == Elems(b) - {b[0]} by {
        assert b == [b[0]] + b[1..];
      }
      SortedUnique(a[1..], b[1..]);
      assert a == [a[0]] + a[1..];
      assert b == [b[0]] + b[1..];
    }
  }
}
