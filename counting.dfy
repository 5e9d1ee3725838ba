/**
  Finite-set bookkeeping over arena indices: how many indices of a pool are
  left once a duplicate-free list of them is taken away.
 */
module Counting {

  /** No index occurs twice in `s`. */
  predicate Distinct(s: seq<nat>)
  {
    forall j, k :: 0 <= j < k < |s| ==> s[j] != s[k]
  }

  /** The indices listed in `s`. */
  function Elements(s: seq<nat>): (e: set<nat>)
    ensures forall x :: x in e <==> x in s
  {
    set x | x in s
  }

  /** The indices 0 .. n-1, in increasing order. */
  function Range(n: nat): (s: seq<nat>)
    ensures |s| == n && forall k :: 0 <= k < n ==> s[k] == k
  {
    seq(n, k requires 0 <= k < n => k)
  }

  /** The indices 0 .. n-1. */
  function Below(n: nat): (b: set<nat>)
    ensures forall i: nat :: i in b <==> i < n
  {
    RangeMembers(n);
    set i | i in Range(n)
  }

  /** The members of Range(n) are exactly the indices below n. */
  lemma RangeMembers(n: nat)
    ensures forall i: nat :: i in Range(n) <==> i < n
  {
    forall i: nat | i < n ensures i in Range(n) {
      assert Range(n)[i] == i;
    }
  }

  /** Moving the head of `f` onto the end of `h` leaves the concatenation as it was. */
  lemma ShiftHead(h: seq<nat>, f: seq<nat>)
    requires f != []
    ensures (h + [f[0]]) + f[1..] == h + f
  {
    assert f == [f[0]] + f[1..];
  }

  /** Dropping the first index of a duplicate-free list keeps it duplicate-free. */
  lemma DistinctTail(s: seq<nat>)
    requires Distinct(s) && s != []
    ensures Distinct(s[1..]) && s[0] !in s[1..]
  {
    forall j, k | 0 <= j < k < |s[1..]| ensures s[1..][j] != s[1..][k] {
      assert s[1..][j] == s[j + 1] && s[1..][k] == s[k + 1];
    }
  }

  /** Appending an index not yet listed keeps a list duplicate-free. */
  lemma DistinctSnoc(s: seq<nat>, x: nat)
    requires Distinct(s) && x !in s
    ensures Distinct(s + [x])
  {
    forall j, k | 0 <= j < k < |s + [x]| ensures (s + [x])[j] != (s + [x])[k] {
      assert (s + [x])[j] == s[j];
      if k < |s| {
        assert (s + [x])[k] == s[k];
      }
    }
  }

  /** A duplicate-free list has as many distinct elements as entries. */
  lemma {:induction false} DistinctElements(s: seq<nat>)
    requires Distinct(s)
    ensures |Elements(s)| == |s|
  {
    if s != [] {
      DistinctTail(s);
      DistinctElements(s[1..]);
      assert Elements(s) == {s[0]} + Elements(s[1..]);
      assert s[0] !in Elements(s[1..]);
    }
  }

  lemma BelowSize(n: nat)
    ensures |Below(n)| == n
  {
    var r := Range(n);
    assert Distinct(r);
    DistinctElements(r);
    assert Below(n) == Elements(r);
  }

  /**
    A duplicate-free list of indices below `n` and the indices it leaves out
    together number exactly `n`: nothing is counted twice and nothing is lost.
   */
  lemma PartitionSize(s: seq<nat>, n: nat)
    requires Distinct(s)
    requires forall k :: 0 <= k < |s| ==> s[k] < n
    ensures |s| + |Below(n) - Elements(s)| == n
  {
    DistinctElements(s);
    BelowSize(n);
    assert Elements(s) <= Below(n);
  }
}
