/** What the overlap sweep computes: the union of the user's buffers, cut into pairwise
    disjoint intervals. */
module OverlapUnion {
  import opened Basics
  import opened Overlap

  predicate Between(a: int, x: int, b: int) {
    a <= x < b
  }

  function Interval(a: int, b: int): set<int> {
    set x: int | a <= x < b && Between(a, x, b)
  }

  lemma {:induction false} IntervalSize(a: int, b: int)
    requires a <= b
    ensures |Interval(a, b)| == b - a
    decreases b - a
  {
    if a < b {
      assert Interval(a, b) == Interval(a, b - 1) + {b - 1};
      IntervalSize(a, b - 1);
    }
  }

  /** The addresses of all bytes of the first k user buffers. */
  function UserBytes(lpra: seq<Buf>, k: nat): set<int>
    requires k <= |lpra|
  {
    if k == 0 then {}
    else UserBytes(lpra, k - 1) + Interval(lpra[k - 1].pv, lpra[k - 1].pv + lpra[k - 1].len)
  }

  predicate Holds(b: Buf, x: int) {
    b.pv <= x < b.pv + b.len
  }

  predicate MergedHolds(e: Over, x: int) {
    e.mstart <= x < e.mend
  }

  ghost predicate InUserBuffer(lpra: seq<Buf>, x: int) {
    exists i :: 0 <= i < |lpra| && Holds(lpra[i], x)
  }

  ghost predicate InMerged(es: seq<Over>, x: int) {
    exists k :: 0 <= k < |es| && MergedHolds(es[k], x)
  }

  /** The sum of the lengths of the merged intervals of the first k entries. */
  function MergedLength(es: seq<Over>, k: nat): int
    requires k <= |es|
  {
    if k == 0 then 0 else MergedLength(es, k - 1) + es[k - 1].mend - es[k - 1].mstart
  }

  function MergedBytes(es: seq<Over>, k: nat): set<int>
    requires k <= |es|
  {
    if k == 0 then {} else MergedBytes(es, k - 1) + Interval(es[k - 1].mstart, es[k - 1].mend)
  }

  lemma {:induction false} UserBytesMembers(lpra: seq<Buf>, k: nat, x: int)
    requires k <= |lpra|
    ensures x in UserBytes(lpra, k) <==> exists i :: 0 <= i < k && Holds(lpra[i], x)
  {
    if k > 0 {
      UserBytesMembers(lpra, k - 1, x);
      assert x in UserBytes(lpra, k) <==> x in UserBytes(lpra, k - 1) || Holds(lpra[k - 1], x);
    }
  }

  lemma {:induction false} MergedBytesMembers(es: seq<Over>, k: nat, x: int)
    requires k <= |es|
    ensures x in MergedBytes(es, k) <==> exists j :: 0 <= j < k && MergedHolds(es[j], x)
  {
    if k > 0 {
      MergedBytesMembers(es, k - 1, x);
      assert x in MergedBytes(es, k) <==> x in MergedBytes(es, k - 1) || MergedHolds(es[k - 1], x);
    }
  }

  /** MaxEnd is an upper bound of the ends before k, and one of them unless it is 0. */
  lemma {:induction false} MaxEndIsGreatest(es: seq<Over>, k: nat) returns (j: nat)
    requires k <= |es|
    ensures forall i :: 0 <= i < k ==> es[i].end <= MaxEnd(es, k)
    ensures MaxEnd(es, k) >= 0
    ensures MaxEnd(es, k) > 0 ==> j < k && es[j].end == MaxEnd(es, k)
  {
    j := 0;
    if k > 0 {
      j := MaxEndIsGreatest(es, k - 1);
      if es[k - 1].end > MaxEnd(es, k - 1) {
        j := k - 1;
      }
    }
  }

  /** Pigeonhole: every user buffer has its place in the sorted list. */
  lemma EveryBufferListed(lpra: seq<Buf>, es: seq<Over>, i: nat) returns (k: nat)
    requires Built(lpra, es) && i < |lpra|
    ensures k < |es| && es[k].raix == i && Lists(lpra, es, k)
  {
    var n := |es|;
    if forall k :: 0 <= k < n ==> es[k].raix != i {
      var all := Interval(0, n);
      IntervalSize(0, n);
      var seen := RaixSet(es, n);
      forall k | 0 <= k < n ensures es[k].raix < n {
        assert Lists(lpra, es, k);
      }
      RaixSetSize(es, n);
      assert i !in seen && seen <= all - {i};
      SubsetSize(seen, all - {i});
      assert false;
    }
    k :| 0 <= k < n && es[k].raix == i;
    assert Lists(lpra, es, k);
  }

  function RaixSet(es: seq<Over>, k: nat): (s: set<int>)
    requires k <= |es|
    ensures forall x :: x in s <==> exists j :: 0 <= j < k && es[j].raix == x
  {
    if k == 0 then {} else RaixSet(es, k - 1) + {es[k - 1].raix}
  }

  lemma {:induction false} RaixSetSize(es: seq<Over>, k: nat)
    requires k <= |es|
    requires forall i, j :: 0 <= i < j < |es| ==> Distinct(es, i, j)
    ensures |RaixSet(es, k)| == k
  {
    if k > 0 {
      RaixSetSize(es, k - 1);
      forall j | 0 <= j < k - 1 ensures es[j].raix != es[k - 1].raix {
        assert Distinct(es, j, k - 1);
      }
      assert es[k - 1].raix !in RaixSet(es, k - 1);
    }
  }

  lemma {:induction false} SubsetSize<T>(a: set<T>, b: set<T>)
    requires a <= b
    ensures |a| <= |b|
  {
    if a != {} {
      var x :| x in a;
      SubsetSize(a - {x}, b - {x});
    }
  }

  /** A non-empty merged interval starts at or after the greatest end before it, and ends
      where its buffer ends. */
  lemma MergedBeyond(lpra: seq<Buf>, es: seq<Over>, k: nat)
    requires Built(lpra, es) && k < |es|
    ensures es[k].mstart <= es[k].mend
    ensures es[k].mstart < es[k].mend ==> es[k].start <= es[k].mstart && MaxEnd(es, k) <= es[k].mstart
    ensures es[k].mstart < es[k].mend ==> es[k].mend == es[k].end
    ensures es[k].offset == 0 <==> es[k].start >= MaxEnd(es, k)
    ensures es[k].offset >= 0
  {
    assert SweptAt(es, k) && Lists(lpra, es, k);
  }

  lemma MergedDisjoint(lpra: seq<Buf>, es: seq<Over>, j: nat, k: nat)
    requires Built(lpra, es) && j < k < |es|
    requires es[j].mstart < es[j].mend && es[k].mstart < es[k].mend
    ensures es[j].mend <= es[k].mstart
  {
    MergedBeyond(lpra, es, j);
    MergedBeyond(lpra, es, k);
    var _ := MaxEndIsGreatest(es, k);
  }

  /** Every byte of entry k lies in the merged interval of k or of an earlier entry. */
  lemma {:induction false} ByteIsMerged(lpra: seq<Buf>, es: seq<Over>, k: nat, x: int) returns (j: nat)
    requires Built(lpra, es) && k < |es| && es[k].start <= x < es[k].end
    ensures j <= k && MergedHolds(es[j], x)
  {
    j := k;
    assert SweptAt(es, k) && Lists(lpra, es, k);
    if x < MaxEnd(es, k) {
      var i := MaxEndIsGreatest(es, k);
      assert InOrder(es, i, k) && Lists(lpra, es, i);
      j := ByteIsMerged(lpra, es, i, x);
    }
  }

  lemma MergedIsUnion(lpra: seq<Buf>, es: seq<Over>)
    requires Built(lpra, es)
    ensures MergedBytes(es, |es|) == UserBytes(lpra, |lpra|)
  {
    forall x | x in UserBytes(lpra, |lpra|) ensures x in MergedBytes(es, |es|) {
      UserBytesMembers(lpra, |lpra|, x);
      var i :| 0 <= i < |lpra| && Holds(lpra[i], x);
      var k := EveryBufferListed(lpra, es, i);
      assert Describes(lpra[i], es[k]);
      var j := ByteIsMerged(lpra, es, k, x);
      MergedBytesMembers(es, |es|, x);
    }
    forall x | x in MergedBytes(es, |es|) ensures x in UserBytes(lpra, |lpra|) {
      MergedBytesMembers(es, |es|, x);
      var k :| 0 <= k < |es| && MergedHolds(es[k], x);
      MergedBeyond(lpra, es, k);
      assert Lists(lpra, es, k);
      assert Holds(lpra[es[k].raix], x);
      UserBytesMembers(lpra, |lpra|, x);
    }
  }

  /** Nothing of entry k's merged interval was merged before. */
  predicate AllNew(es: seq<Over>, k: nat)
    requires k < |es|
  {
    es[k].mstart <= es[k].mend && MergedBytes(es, k) !! Interval(es[k].mstart, es[k].mend)
  }

  lemma NothingMergedTwice(lpra: seq<Buf>, es: seq<Over>, k: nat)
    requires Built(lpra, es) && k < |es|
    ensures AllNew(es, k)
  {
    MergedBeyond(lpra, es, k);
    var _ := MaxEndIsGreatest(es, k);
    forall x | x in MergedBytes(es, k) ensures !MergedHolds(es[k], x) {
      MergedBytesMembers(es, k, x);
      var j :| 0 <= j < k && MergedHolds(es[j], x);
      MergedBeyond(lpra, es, j);
    }
  }

  lemma {:induction false} MergedSize(es: seq<Over>, k: nat)
    requires k <= |es| && forall j :: 0 <= j < k ==> AllNew(es, j)
    ensures |MergedBytes(es, k)| == MergedLength(es, k)
  {
    if k > 0 {
      MergedSize(es, k - 1);
      assert AllNew(es, k - 1);
      IntervalSize(es[k - 1].mstart, es[k - 1].mend);
    }
  }

  /** The sweep computes the union: the merged intervals cover exactly the bytes of the
      user's buffers, non-empty ones never overlap, their lengths add up to the number of
      distinct bytes, and an offset of 0 marks exactly the entries that start a cluster. */
  lemma SweepComputesUnion(lpra: seq<Buf>, es: seq<Over>)
    requires Built(lpra, es)
    ensures forall x :: InUserBuffer(lpra, x) <==> InMerged(es, x)
    ensures forall j, k :: 0 <= j < k < |es| && es[j].mstart < es[j].mend && es[k].mstart < es[k].mend
                           ==> es[j].mend <= es[k].mstart
    ensures MergedLength(es, |es|) == |UserBytes(lpra, |lpra|)|
    ensures forall k :: 0 <= k < |es| ==> (es[k].offset == 0 <==> es[k].start >= MaxEnd(es, k))
  {
    MergedIsUnion(lpra, es);
    forall j | 0 <= j < |es| ensures AllNew(es, j) {
      NothingMergedTwice(lpra, es, j);
    }
    MergedSize(es, |es|);
    forall x ensures InUserBuffer(lpra, x) <==> InMerged(es, x) {
      UserBytesMembers(lpra, |lpra|, x);
      MergedBytesMembers(es, |es|, x);
    }
    forall j, k | 0 <= j < k < |es| && es[j].mstart < es[j].mend && es[k].mstart < es[k].mend
      ensures es[j].mend <= es[k].mstart
    {
      MergedDisjoint(lpra, es, j, k);
    }
    forall k | 0 <= k < |es| ensures es[k].offset == 0 <==> es[k].start >= MaxEnd(es, k) {
      MergedBeyond(lpra, es, k);
    }
  }
}
