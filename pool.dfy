/**
 * Slot handles of a fixed MEMB pool.  The neighbor list holds handles
 * (indices) of pool slots; these facts relate how many distinct handles a
 * list can hold to the size of the pool.
 */
module Pool {
  /** No handle occurs twice. */
  predicate Distinct(s: seq<nat>) {
    forall i, j :: 0 <= i < j < |s| ==> s[i] != s[j]
  }

  /** Every handle names one of the `n` slots. */
  predicate Below(s: seq<nat>, n: nat) {
    forall i :: 0 <= i < |s| ==> s[i] < n
  }

  /** The list without its entry at position `k`. */
  function Without(s: seq<nat>, k: nat): (r: seq<nat>)
    requires k < |s|
    ensures |r| == |s| - 1
    ensures forall i :: 0 <= i < |r| ==> r[i] == if i < k then s[i] else s[i + 1]
  {
    s[..k] + s[k + 1..]
  }

  /**
   * Unlinking the handle at position `k` from a list of distinct handles
   * leaves distinct handles into the same pool, and removes exactly the
   * handle `s[k]`.
   */
  lemma WithoutFacts(s: seq<nat>, n: nat, k: nat)
    requires Distinct(s) && Below(s, n) && k < |s|
    ensures Distinct(Without(s, k)) && Below(Without(s, k), n)
    ensures forall t :: t in Without(s, k) <==> t in s && t != s[k]
  {
    assert s == s[..k] + [s[k]] + s[k + 1..];
  }

  /** The handles of the `n` slots of a pool. */
  function Slots(n: nat): (r: set<nat>)
    ensures forall t: nat :: t in r <==> t < n
    ensures |r| == n
  {
    if n == 0 then {} else Slots(n - 1) + {n - 1}
  }

  /** The slots a list of handles refers to. */
  function Held(s: seq<nat>): (r: set<nat>)
    ensures forall x :: x in r <==> x in s
  {
    set x | x in s
  }

  /** The set of handles a list holds has one element per position when no handle repeats. */
  lemma {:induction false} DistinctCard(s: seq<nat>)
    requires Distinct(s)
    ensures |Held(s)| == |s|
  {
    if s != [] {
      var tail := s[1..];
      assert s == [s[0]] + tail;
      assert Distinct(tail);
      assert s[0] !in tail;
      DistinctCard(tail);
      assert Held(s) == Held(tail) + {s[0]};
    }
  }

  /** A subset is no larger than its superset, and as large only when the two are equal. */
  lemma {:induction false} SubsetCard(a: set<nat>, b: set<nat>)
    requires a <= b
    ensures |a| <= |b|
    ensures |a| == |b| ==> a == b
  {
    if b != {} {
      var x :| x in b;
      SubsetCard(a - {x}, b - {x});
    }
  }

  /**
   * A list of distinct handles into an `n`-slot pool holds at most `n` of
   * them, and it holds exactly `n` precisely when it covers every slot.
   */
  lemma Pigeonhole(s: seq<nat>, n: nat)
    requires Distinct(s) && Below(s, n)
    ensures |s| <= n
    ensures |s| == n <==> forall t :: 0 <= t < n ==> t in s
  {
    var held := Held(s);
    DistinctCard(s);
    assert held <= Slots(n);
    SubsetCard(held, Slots(n));
    assert (forall t :: 0 <= t < n ==> t in s) ==> held == Slots(n);
    assert held == Slots(n) ==> forall t :: 0 <= t < n ==> t in held;
  }
}
