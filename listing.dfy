/**
 * Ascending enumerations of id sets: the shape of every `Vec<u32>` of ids the
 * index returns (`list`, `and_operation`, `or_operation`).
 */
module Listing {

  predicate StrictlyIncreasing(s: seq<nat>) {
    forall i, j :: 0 <= i < j < |s| ==> s[i] < s[j]
  }

  /**
   * The members of `s` below `n`, in increasing order: what a scan over the
   * positions `0 .. n` that appends every member it meets produces.
   */
  ghost function Ascending(s: set<nat>, n: nat): seq<nat> {
    if n == 0 then [] else Ascending(s, n - 1) + (if n - 1 in s then [n - 1] else [])
  }

  /** The enumeration holds exactly the members below `n`, in strictly increasing order. */
  lemma {:induction false} AscendingSpec(s: set<nat>, n: nat)
    ensures StrictlyIncreasing(Ascending(s, n))
    ensures forall x :: x in Ascending(s, n) <==> x in s && x < n
  {
    if n > 0 {
      AscendingSpec(s, n - 1);
      var below := Ascending(s, n - 1);
      assert forall i :: 0 <= i < |below| ==> below[i] in below;
    }
  }

  /** The next position of the scan, given a test `b` that decides membership of `n`. */
  lemma AscendingStep(s: set<nat>, n: nat, b: bool)
    requires b <==> n in s
    ensures Ascending(s, n + 1) == Ascending(s, n) + (if b then [n] else [])
  {}

  /**
   * A strictly increasing sequence is determined by its elements: two of
   * them with the same elements are equal.
   */
  lemma {:induction false} IncreasingUnique(a: seq<nat>, b: seq<nat>)
    requires StrictlyIncreasing(a) && StrictlyIncreasing(b)
    requires forall x :: x in a <==> x in b
    ensures a == b
  {
    if a != [] {
      assert a[|a| - 1] in b;
    }
    if b != [] {
      assert b[|b| - 1] in a;
    }
    if a != [] && b != [] {
      var x, y := a[|a| - 1], b[|b| - 1];
      // x is the largest element of a and y the largest of b
      assert forall i :: 0 <= i < |a| ==> a[i] <= x;
      assert forall i :: 0 <= i < |b| ==> b[i] <= y;
      assert x in b && y in a;
      assert x == y;
      var a', b' := a[..|a| - 1], b[..|b| - 1];
      forall z
        ensures z in a' <==> z in b'
      {
        assert z in a' <==> z in a && z < x;
        assert z in b' <==> z in b && z < y;
      }
      IncreasingUnique(a', b');
      assert a == a' + [x] && b == b' + [y];
    }
  }

  /** The ascending enumeration is the only strictly increasing listing of a finite range of a set. */
  lemma AscendingUnique(r: seq<nat>, s: set<nat>, n: nat)
    requires StrictlyIncreasing(r)
    requires forall x :: x in r <==> x in s && x < n
    ensures r == Ascending(s, n)
  {
    AscendingSpec(s, n);
    IncreasingUnique(r, Ascending(s, n));
  }

  /** Scanning past the largest member adds nothing. */
  lemma AscendingBeyond(s: set<nat>, n: nat, m: nat)
    requires n <= m
    requires forall x :: x in s ==> x < n
    ensures Ascending(s, m) == Ascending(s, n)
  {
    AscendingSpec(s, n);
    AscendingUnique(Ascending(s, n), s, m);
  }
}
