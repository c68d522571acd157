/** The overlap sweep of the FastRPC argument marshaller: user buffers are sorted by
    start address and merged into disjoint intervals (android/adsprpc.c:1108-1164).
    Addresses are 64-bit; the struct array `overs` is updated in place and the pointer
    array `overps` is modelled as an array of indices into it. */
module Overlap {
  import opened Basics

  /** One entry of the user's argument list (`remote_arg_t.buf`). */
  datatype Buf = Buf(pv: Word, len: Word)

  /** `struct overlap` */
  datatype Over = Over(start: int, end: int, raix: nat, mstart: int, mend: int, offset: int)

  function Cmp(a: int, b: int): int {
    if a == b then 0 else if a < b then -1 else 1
  }

  /** Lowest start first; for equal starts, highest end first. */
  function OverCmp(a: Over, b: Over): int {
    var st := Cmp(a.start, b.start);
    var ed := Cmp(b.end, a.end);
    if st == 0 then ed else st
  }

  /** The comparator is a total preorder, which is what the library sort relies on. */
  lemma OverCmpIsTotalPreorder(a: Over, b: Over, c: Over)
    ensures OverCmp(a, b) <= 0 || OverCmp(b, a) <= 0
    ensures OverCmp(a, b) <= 0 && OverCmp(b, c) <= 0 ==> OverCmp(a, c) <= 0
    ensures OverCmp(a, b) == 0 <==> a.start == b.start && a.end == b.end
    ensures OverCmp(a, b) < 0 <==> a.start < b.start || (a.start == b.start && b.end < a.end)
  {
  }

  /** `start + len` does not fit in a machine word. */
  predicate Wraps(b: Buf) {
    b.len != 0 && b.pv + b.len >= WORD
  }

  predicate IsPerm(ps: seq<nat>, n: nat) {
    && |ps| == n
    && (forall i :: 0 <= i < n ==> ps[i] < n)
    && (forall i, j :: 0 <= i < j < n ==> ps[i] != ps[j])
  }

  /** The array of structs seen through the array of pointers. */
  function Via(overs: seq<Over>, ps: seq<nat>): (es: seq<Over>)
    requires forall i :: 0 <= i < |ps| ==> ps[i] < |overs|
    ensures |es| == |ps| && forall i :: 0 <= i < |ps| ==> es[i] == overs[ps[i]]
  {
    seq(|ps|, i requires 0 <= i < |ps| => overs[ps[i]])
  }

  predicate InOrder(es: seq<Over>, j: nat, k: nat) {
    j < |es| && k < |es| && OverCmp(es[j], es[k]) <= 0
  }

  ghost predicate Sorted(es: seq<Over>) {
    forall j, k :: 0 <= j < k < |es| ==> InOrder(es, j, k)
  }

  /** The greatest end address among the first k entries; 0 when there are none. */
  function MaxEnd(es: seq<Over>, k: nat): int
    requires k <= |es|
  {
    if k == 0 then 0
    else if es[k - 1].end > MaxEnd(es, k - 1) then es[k - 1].end
    else MaxEnd(es, k - 1)
  }

  /** The entry carries the part of its interval that lies beyond address m. */
  predicate SweptFrom(e: Over, m: int) {
    if e.start >= m then e.offset == 0 && e.mstart == e.start && e.mend == e.end
    else e.offset == m - e.start
         && if e.end > m then e.mstart == m && e.mend == e.end else e.mstart == 0 && e.mend == 0
  }

  predicate SweptAt(es: seq<Over>, k: nat) {
    k < |es| && SweptFrom(es[k], MaxEnd(es, k))
  }

  predicate Describes(b: Buf, e: Over) {
    e.start == b.pv && e.end == b.pv + b.len < WORD
  }

  predicate Lists(lpra: seq<Buf>, es: seq<Over>, k: nat) {
    k < |es| && es[k].raix < |lpra| && Describes(lpra[es[k].raix], es[k])
  }

  predicate Distinct(es: seq<Over>, j: nat, k: nat) {
    j < |es| && k < |es| && es[j].raix != es[k].raix
  }

  /** es is the argument list, sorted, with every entry carrying what lies beyond everything
      before it: what context_build_overlap leaves behind. */
  ghost predicate Built(lpra: seq<Buf>, es: seq<Over>) {
    && |es| == |lpra|
    && (forall k :: 0 <= k < |es| ==> Lists(lpra, es, k))
    && (forall j, k :: 0 <= j < k < |es| ==> Distinct(es, j, k))
    && Sorted(es)
    && (forall k :: 0 <= k < |es| ==> SweptAt(es, k))
  }

  // ---- the code -------------------------------------------------------------------------

  /** Stands for the kernel's sort(): callers may rely only on the contract, a sorted
      rearrangement in which entries that compare equal come in any order. */
  method SortPtrs(overs: array<Over>, overps: array<nat>)
    requires IsPerm(overps[..], overs.Length)
    modifies overps
    ensures IsPerm(overps[..], overs.Length)
    ensures Sorted(Via(overs[..], overps[..]))
  {
    ghost var es, was := overs[..], overps[..];
    var ps: seq<nat> := [];
    for i := 0 to overps.Length
      invariant overps[..] == was
      invariant Ascending(es, ps) && SameMembers(ps, was[..i])
    {
      assert was[..i + 1] == was[..i] + [was[i]];
      ps := Insert(overs, ps, overps[i]);
    }
    assert was[..overps.Length] == was;
    PermOfMembers(ps, was);
    forall i | 0 <= i < overps.Length {
      overps[i] := ps[i];
    }
    assert overps[..] == ps && overs[..] == es;
    AscendingIsSorted(es, ps);
  }

  /** Inserts pointer p behind everything that does not sort after it. */
  method Insert(overs: array<Over>, ps: seq<nat>, p: nat) returns (qs: seq<nat>)
    requires p < overs.Length && Ascending(overs[..], ps)
    ensures Ascending(overs[..], qs) && multiset(qs) == multiset(ps + [p])
  {
    ghost var es := overs[..];
    var j := |ps|;
    while j > 0 && OverCmp(overs[ps[j - 1]], overs[p]) > 0
      invariant 0 <= j <= |ps|
      invariant j < |ps| ==> InOrder(es, p, ps[j])
    {
      OverCmpIsTotalPreorder(overs[ps[j - 1]], overs[p], overs[p]);
      j := j - 1;
    }
    qs := Spliced(ps, p, j);
    AscendingInsert(es, ps, p, j);
  }

  function Spliced(ps: seq<nat>, p: nat, j: nat): (qs: seq<nat>)
    requires j <= |ps|
    ensures multiset(qs) == multiset(ps + [p])
  {
    assert ps == ps[..j] + ps[j..];
    ps[..j] + [p] + ps[j..]
  }

  lemma AscendingInsert(es: seq<Over>, ps: seq<nat>, p: nat, j: nat)
    requires Ascending(es, ps) && j <= |ps| && p < |es|
    requires j > 0 ==> InOrder(es, ps[j - 1], p)
    requires j < |ps| ==> InOrder(es, p, ps[j])
    ensures Ascending(es, Spliced(ps, p, j))
  {
    var qs := Spliced(ps, p, j);
    forall k | 0 < k < |qs| ensures StepUp(es, qs, k) {
      if k < j {
        assert StepUp(es, ps, k);
      } else if k > j + 1 {
        assert StepUp(es, ps, k - 1);
      }
    }
  }

  predicate SameMembers(ps: seq<nat>, qs: seq<nat>) {
    multiset(ps) == multiset(qs)
  }

  lemma PermOfMembers(ps: seq<nat>, qs: seq<nat>)
    requires SameMembers(ps, qs) && IsPerm(qs, |qs|)
    ensures IsPerm(ps, |qs|)
  {
    assert |ps| == |multiset(ps)| == |multiset(qs)| == |qs|;
    forall i | 0 <= i < |ps| ensures ps[i] < |qs| {
      assert ps[i] in multiset(qs);
    }
    forall i, j | 0 <= i < j < |ps| ensures ps[i] != ps[j] {
      if ps[i] == ps[j] {
        var v := ps[i];
        assert ps == ps[..i] + [v] + ps[i + 1..j] + [v] + ps[j + 1..];
        assert multiset(qs)[v] >= 2;
        DistinctOnce(qs, v);
      }
    }
  }

  lemma {:induction false} DistinctOnce(qs: seq<nat>, v: nat)
    requires forall i, j :: 0 <= i < j < |qs| ==> qs[i] != qs[j]
    ensures multiset(qs)[v] <= 1
  {
    if v in qs {
      var i :| 0 <= i < |qs| && qs[i] == v;
      assert qs == qs[..i] + [v] + qs[i + 1..];
      assert v !in qs[..i] && v !in qs[i + 1..];
    }
  }

  predicate Ascending(es: seq<Over>, ps: seq<nat>) {
    && (forall k :: 0 <= k < |ps| ==> ps[k] < |es|)
    && (forall k :: 0 < k < |ps| ==> StepUp(es, ps, k))
  }

  predicate StepUp(es: seq<Over>, ps: seq<nat>, k: nat) {
    0 < k < |ps| && InOrder(es, ps[k - 1], ps[k])
  }

  lemma AscendingIsSorted(es: seq<Over>, ps: seq<nat>)
    requires Ascending(es, ps)
    ensures Sorted(Via(es, ps))
  {
    forall j, k | 0 <= j < k < |ps| ensures InOrder(Via(es, ps), j, k) {
      AscendingPair(es, ps, j, k);
    }
  }

  lemma {:induction false} AscendingPair(es: seq<Over>, ps: seq<nat>, j: nat, k: nat)
    requires Ascending(es, ps) && j < k < |ps|
    ensures InOrder(es, ps[j], ps[k])
    decreases k
  {
    assert StepUp(es, ps, k);
    if j < k - 1 {
      AscendingPair(es, ps, j, k - 1);
      OverCmpIsTotalPreorder(es[ps[j]], es[ps[k - 1]], es[ps[k]]);
    }
  }

  method BuildOverlap(lpra: seq<Buf>, overs: array<Over>, overps: array<nat>) returns (err: bool)
    requires overs.Length == overps.Length == |lpra|
    modifies overs, overps
    ensures err <==> exists i :: 0 <= i < |lpra| && Wraps(lpra[i])
    ensures !err ==> IsPerm(overps[..], overs.Length) && Built(lpra, Via(overs[..], overps[..]))
  {
    err := FillOverlaps(lpra, overs, overps);
    if !err {
      SortPtrs(overs, overps);
      ghost var es := Via(overs[..], overps[..]);
      SweepOverlaps(overs, overps, overps[..], es);
      BuiltFromSorted(lpra, es, Via(overs[..], overps[..]));
    }
  }

  lemma BuiltFromSorted(lpra: seq<Buf>, es: seq<Over>, fs: seq<Over>)
    requires |es| == |fs| == |lpra| && Sorted(es)
    requires forall k :: 0 <= k < |es| ==> Lists(lpra, es, k)
    requires forall j, k :: 0 <= j < k < |es| ==> Distinct(es, j, k)
    requires forall k :: 0 <= k < |es| ==> IsSwept(fs[k], es, k)
    ensures Built(lpra, fs)
  {
    MaxEndOfEnds(es, fs);
    forall j, k | 0 <= j < k < |fs| ensures InOrder(fs, j, k) && Distinct(fs, j, k) {
      assert IsSwept(fs[j], es, j) && IsSwept(fs[k], es, k);
      assert InOrder(es, j, k) && Distinct(es, j, k);
    }
    forall k | 0 <= k < |fs| ensures Lists(lpra, fs, k) && SweptAt(fs, k) {
      assert IsSwept(fs[k], es, k) && Lists(lpra, es, k);
    }
  }

  method FillOverlaps(lpra: seq<Buf>, overs: array<Over>, overps: array<nat>) returns (err: bool)
    requires overs.Length == overps.Length == |lpra|
    modifies overs, overps
    ensures err <==> exists i :: 0 <= i < |lpra| && Wraps(lpra[i])
    ensures !err ==> forall j :: 0 <= j < |lpra| ==> overs[j].raix == j && Describes(lpra[j], overs[j])
    ensures !err ==> forall j :: 0 <= j < |lpra| ==> overps[j] == j
  {
    err := false;
    for i := 0 to |lpra|
      invariant !err
      invariant forall j :: 0 <= j < i ==> !Wraps(lpra[j])
      invariant forall j :: 0 <= j < i ==> overs[j].raix == j && Describes(lpra[j], overs[j])
      invariant forall j :: 0 <= j < i ==> overps[j] == j
    {
      var start := lpra[i].pv;
      var end := (start + lpra[i].len) % WORD;
      overs[i] := overs[i].(start := start, end := end);
      if lpra[i].len != 0 {
        err := !(end > start);
        if err {
          assert Wraps(lpra[i]);
          return;
        }
      }
      overs[i] := overs[i].(raix := i);
      overps[i] := i;
    }
  }

  /** The sweep itself: intervals and pointers stay, and every entry gets its part.
      `ps` and `es` name the pointers and the entries in pointer order. */
  method SweepOverlaps(overs: array<Over>, overps: array<nat>, ghost ps: seq<nat>, ghost es: seq<Over>)
    requires overps[..] == ps && IsPerm(ps, overs.Length) && |es| == |ps|
    requires forall k :: 0 <= k < |es| ==> es[k].start <= es[k].end
    requires SweptUpTo(overs[..], ps, es, 0)
    modifies overs
    ensures SweptUpTo(overs[..], ps, es, |ps|)
  {
    var maxEnd := 0;
    for i := 0 to overps.Length
      invariant maxEnd == MaxEnd(es, i)
      invariant SweptUpTo(overs[..], ps, es, i)
    {
      assert overps[i] == ps[i];
      ghost var before := overs[..];
      maxEnd := SweepEntry(overs, overps[i], maxEnd);
      SweptOneMore(before, overs[..], ps, es, i);
    }
  }

  /** The first i entries in pointer order have been swept, the others are untouched. */
  ghost predicate SweptUpTo(overs: seq<Over>, ps: seq<nat>, es: seq<Over>, i: int)
    requires |es| == |ps|
  {
    forall k :: 0 <= k < |ps| ==>
      ps[k] < |overs| && if k < i then IsSwept(overs[ps[k]], es, k) else overs[ps[k]] == es[k]
  }

  lemma SweptOneMore(before: seq<Over>, after: seq<Over>, ps: seq<nat>, es: seq<Over>, i: nat)
    requires |es| == |ps| == |before| && i < |ps| && IsPerm(ps, |before|)
    requires SweptUpTo(before, ps, es, i)
    requires |after| == |before| && after == before[ps[i] := after[ps[i]]] && IsSwept(after[ps[i]], es, i)
    ensures SweptUpTo(after, ps, es, i + 1)
  {
  }

  predicate IsSwept(e: Over, es: seq<Over>, k: nat) {
    k < |es| && SameBuffer(e, es[k]) && SweptFrom(e, MaxEnd(es, k))
  }

  method SweepEntry(overs: array<Over>, p: nat, before: int) returns (maxEnd: int)
    requires p < overs.Length && overs[p].start <= overs[p].end
    modifies overs
    ensures SameBuffer(overs[p], old(overs[p])) && SweptFrom(overs[p], before)
    ensures overs[..] == old(overs[..])[p := overs[p]]
    ensures maxEnd == if old(overs[p]).end > before then old(overs[p]).end else before
  {
    maxEnd := before;
    if overs[p].start < maxEnd {
      overs[p] := overs[p].(mstart := maxEnd, mend := overs[p].end, offset := maxEnd - overs[p].start);
      if overs[p].end > maxEnd {
        maxEnd := overs[p].end;
      } else {
        overs[p] := overs[p].(mend := 0, mstart := 0);
      }
    } else {
      overs[p] := overs[p].(mend := overs[p].end, mstart := overs[p].start, offset := 0);
      maxEnd := overs[p].end;
    }
  }

  predicate SameBuffer(e: Over, f: Over) {
    e.raix == f.raix && e.start == f.start && e.end == f.end
  }

  /** The running maximum depends on the end addresses only. */
  lemma {:induction false} MaxEndOfEnds(es: seq<Over>, fs: seq<Over>)
    requires |es| == |fs| && forall j :: 0 <= j < |es| ==> es[j].end == fs[j].end
    ensures forall k :: 0 <= k <= |es| ==> MaxEnd(es, k) == MaxEnd(fs, k)
  {
    for k := 0 to |es|
      invariant forall j :: 0 <= j <= k ==> MaxEnd(es, j) == MaxEnd(fs, j)
    {
    }
  }
}
