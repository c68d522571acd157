/** The layout computed by the two packing passes of get_args (android/adsprpc.c:1537-1559
    and 1639-1679) and its properties: where each user buffer lands in the packed kernel
    buffer, and why aliasing survives the move. The layout is stated in unbounded numbers;
    the machine words of the two passes are this layout modulo WORD. */
module Packing {
  import opened Basics
  import opened Overlap
  import opened OverlapUnion

  const BALIGN: int := 128
  const LONG_MAX: int := 0x7FFF_FFFF_FFFF_FFFF

  /** ALIGN(x, BALIGN) */
  function Align(x: int): (r: int)
    ensures r % BALIGN == 0 && x <= r < x + BALIGN
  {
    (x + BALIGN - 1) / BALIGN * BALIGN
  }

  lemma AlignValue(x: int, q: int)
    requires (q - 1) * BALIGN < x <= q * BALIGN
    ensures Align(x) == q * BALIGN
  {
  }

  /** The next free byte for entry e when `size` bytes are in use: only the first entry of
      a cluster is aligned. */
  function Place(e: Over, size: int): int {
    if e.offset == 0 then Align(size) else size
  }

  /** One invocation's buffer arguments: the user's list, which of them are mapped rather
      than copied, the swept list and the length of the metadata in front of the copies. */
  datatype Job = Job(lpra: seq<Buf>, inbufs: nat, mapped: seq<bool>, es: seq<Over>, metalen: nat) {

    ghost predicate Valid() {
      Shape() && Built(lpra, es) && inbufs <= |lpra| && metalen < WORD
    }

    predicate Shape() {
      |es| == |lpra| == |mapped| && forall k :: 0 <= k < |es| ==> es[k].raix < |lpra|
    }

    /** Both passes skip empty and mapped arguments. */
    predicate Copied(i: nat)
      requires |mapped| == |lpra| && i < |lpra|
    {
      lpra[i].len != 0 && !mapped[i]
    }

    predicate Packs(k: nat)
      requires Shape() && k < |es|
    {
      Copied(es[k].raix)
    }

    /** The running `copylen` after the first k entries. */
    function Size(k: nat): int
      requires Shape() && k <= |es|
    {
      if k == 0 then metalen
      else if Packs(k - 1) then Place(es[k - 1], Size(k - 1)) + (es[k - 1].mend - es[k - 1].mstart)
      else Size(k - 1)
    }

    /** Where entry k's buffer starts, relative to the packed kernel buffer. */
    function PackedAt(k: nat): int
      requires Shape() && k < |es|
    {
      Place(es[k], Size(k)) - es[k].offset
    }

    /** Two copied entries keep their distance, or are apart in user memory and packed. */
    predicate Apart(i: nat, j: nat)
      requires Shape() && i < |es| && j < |es|
    {
      Packs(i) && Packs(j) ==>
        || PackedAt(i) - es[i].start == PackedAt(j) - es[j].start
        || (&& (es[i].end <= es[j].start || es[j].end <= es[i].start)
            && (PackedAt(i) + lpra[es[i].raix].len <= PackedAt(j) || PackedAt(j) + lpra[es[j].raix].len <= PackedAt(i)))
    }

    ghost predicate Faithful() {
      Shape() && forall i, j :: 0 <= i < j < |es| ==> Apart(i, j)
    }

    /** Entry k does not run into the metadata. */
    predicate Above(k: nat)
      requires Shape() && k < |es|
    {
      Packs(k) ==> metalen <= PackedAt(k)
    }

    ghost predicate AllAbove() {
      Shape() && forall k :: 0 <= k < |es| ==> Above(k)
    }

    /** The layout serves its purpose, and its size is a machine word. */
    ghost predicate Fits() {
      Faithful() && AllAbove() && Size(|es|) < WORD
    }

    /** Entry k, if it is copied and starts before the greatest earlier end, finds that end
        on a copied buffer. */
    ghost predicate Joins(k: nat)
      requires Shape() && k < |es|
    {
      Packs(k) && es[k].offset != 0 ==> CopiedEnd(k) == MaxEnd(es, k)
    }

    ghost predicate AllJoin() {
      Shape() && forall k :: 0 <= k < |es| ==> Joins(k)
    }

    /** No copied buffer starts inside a mapped one. */
    ghost predicate NoStraddle()
      requires Shape()
    {
      forall i, j :: 0 <= i < |lpra| && 0 <= j < |lpra| ==> Clear(i, j)
    }

    predicate Clear(i: nat, j: nat)
      requires |mapped| == |lpra| && i < |lpra| && j < |lpra|
    {
      Copied(i) && mapped[j] ==> !Holds(lpra[j], lpra[i].pv)
    }

    /** The distance from user to packed addresses in the cluster reached after k entries. */
    ghost function Shift(k: nat): int
      requires Shape() && k <= |es|
    {
      if k == 0 then metalen
      else if Packs(k - 1) && es[k - 1].offset == 0 then PackedAt(k - 1) - es[k - 1].start
      else Shift(k - 1)
    }

    /** The user address at which the cluster reached after k entries starts. */
    ghost function ClusterStart(k: nat): int
      requires Shape() && k <= |es|
    {
      if k == 0 then 0
      else if Packs(k - 1) && es[k - 1].offset == 0 then es[k - 1].start
      else ClusterStart(k - 1)
    }

    /** The greatest end address of a copied buffer among the first k entries. */
    ghost function CopiedEnd(k: nat): int
      requires Shape() && k <= |es|
    {
      if k == 0 then 0
      else if Packs(k - 1) && es[k - 1].end > CopiedEnd(k - 1) then es[k - 1].end
      else CopiedEnd(k - 1)
    }
  }

  // ---- facts about one entry ----------------------------------------------------------

  lemma EntryFacts(job: Job, k: nat)
    requires job.Valid() && k < |job.es|
    ensures var e, m := job.es[k], MaxEnd(job.es, k);
            && e.start == job.lpra[e.raix].pv >= 0 && e.end == e.start + job.lpra[e.raix].len
            && e.offset >= 0 && e.mstart <= e.mend
            && (e.offset == 0 <==> e.start >= m)
            && (e.start >= m ==> e.mstart == e.start && e.mend == e.end)
            && (e.start < m ==> e.offset == m - e.start)
            && (e.start < m && e.end > m ==> e.mstart == m && e.mend == e.end)
            && (e.start < m && e.end <= m ==> e.mstart == e.mend)
  {
    assert Lists(job.lpra, job.es, k) && SweptAt(job.es, k);
  }

  lemma StartsAscend(job: Job, j: nat, k: nat)
    requires job.Valid() && j <= k < |job.es|
    ensures job.es[j].start <= job.es[k].start
  {
    assert j < k ==> InOrder(job.es, j, k);
  }

  lemma {:induction false} CopiedEndBelow(job: Job, k: nat)
    requires job.Shape() && k <= |job.es|
    ensures job.CopiedEnd(k) <= MaxEnd(job.es, k)
    ensures forall i :: 0 <= i < k && job.Packs(i) ==> job.es[i].end <= job.CopiedEnd(k)
  {
    if k > 0 {
      CopiedEndBelow(job, k - 1);
    }
  }

  // ---- the running size tracks the end of the current cluster -------------------------

  lemma {:induction false} SizeTracksCluster(job: Job, k: nat)
    requires job.Valid() && k <= |job.es| && (forall j :: 0 <= j < k ==> job.Joins(j))
    ensures job.Size(k) == job.CopiedEnd(k) + job.Shift(k)
  {
    if k > 0 {
      SizeTracksCluster(job, k - 1);
      if job.Packs(k - 1) {
        EntryFacts(job, k - 1);
        CopiedEndBelow(job, k - 1);
        assert job.Joins(k - 1);
      }
    }
  }

  /** Within a cluster the user-to-packed translation is one constant shift. */
  lemma PackedIsShifted(job: Job, k: nat)
    requires job.Valid() && k < |job.es| && job.Packs(k) && (forall j :: 0 <= j <= k ==> job.Joins(j))
    ensures job.PackedAt(k) == job.es[k].start + job.Shift(k + 1)
  {
    EntryFacts(job, k);
    if job.es[k].offset != 0 {
      SizeTracksCluster(job, k);
      assert job.Joins(k);
    }
  }

  lemma {:induction false} SizeGrows(job: Job, j: nat, k: nat)
    requires job.Valid() && j <= k <= |job.es|
    ensures job.Size(j) <= job.Size(k)
    decreases k
  {
    if j < k {
      SizeGrows(job, j, k - 1);
      EntryFacts(job, k - 1);
    }
  }

  /** No packed range ends beyond the running size after it. */
  lemma EndsInside(job: Job, k: nat)
    requires job.Valid() && k < |job.es| && job.Packs(k)
    ensures job.PackedAt(k) + job.lpra[job.es[k].raix].len <= job.Size(k + 1) <= job.Size(|job.es|)
    ensures job.PackedAt(k) > -WORD
  {
    EntryFacts(job, k);
    SizeGrows(job, 0, k);
    SizeGrows(job, k + 1, |job.es|);
    EndBelowWord(job, k);
  }

  lemma EndBelowWord(job: Job, k: nat)
    requires job.Valid() && k <= |job.es|
    ensures MaxEnd(job.es, k) < WORD
  {
    if k > 0 {
      EndBelowWord(job, k - 1);
      assert Lists(job.lpra, job.es, k - 1);
    }
  }

  lemma EndsWithinSize(job: Job, i: nat, k: nat)
    requires job.Valid() && job.AllJoin() && i < k <= |job.es| && job.Packs(i)
    ensures job.PackedAt(i) + job.lpra[job.es[i].raix].len <= job.Size(k)
  {
    EntryFacts(job, i);
    PackedIsShifted(job, i);
    SizeTracksCluster(job, i + 1);
    CopiedEndBelow(job, i + 1);
    SizeGrows(job, i + 1, k);
  }

  lemma {:induction false} ClusterStartsEarly(job: Job, k: nat)
    requires job.Valid() && k <= |job.es|
    ensures forall l :: k <= l + 1 && l < |job.es| && 0 <= l ==> job.ClusterStart(k) <= job.es[l].start
    ensures job.ClusterStart(k) + job.Shift(k) >= job.metalen
  {
    if k == 0 {
      forall l | 0 <= l < |job.es| ensures job.es[l].start >= 0 {
        EntryFacts(job, l);
      }
    } else {
      ClusterStartsEarly(job, k - 1);
      EntryFacts(job, k - 1);
      SizeGrows(job, 0, k - 1);
      forall l | k <= l + 1 && l < |job.es| && 0 <= l ensures job.ClusterStart(k) <= job.es[l].start {
        StartsAscend(job, k - 1, l);
      }
    }
  }

  /** Every packed range lies behind the metadata and inside the computed size. */
  lemma PackedInBounds(job: Job, k: nat)
    requires job.Valid() && job.AllJoin() && k < |job.es| && job.Packs(k)
    ensures job.metalen <= job.PackedAt(k)
    ensures job.PackedAt(k) + job.lpra[job.es[k].raix].len <= job.Size(|job.es|)
  {
    PackedIsShifted(job, k);
    ClusterStartsEarly(job, k + 1);
    EndsWithinSize(job, k, |job.es|);
  }

  // ---- clusters -------------------------------------------------------------------------

  /** After k entries, an earlier copied entry i either belongs to the current cluster or
      lies before it, in user memory and in the packed buffer alike. */
  lemma {:induction false} BehindOrTogether(job: Job, i: nat, k: nat)
    requires job.Valid() && job.AllJoin() && i < k <= |job.es| && job.Packs(i)
    ensures job.Shift(i + 1) == job.Shift(k)
            || (job.es[i].end <= job.ClusterStart(k)
                && job.PackedAt(i) + job.lpra[job.es[i].raix].len <= job.ClusterStart(k) + job.Shift(k))
    decreases k
  {
    if i + 1 < k {
      BehindOrTogether(job, i, k - 1);
      if job.Packs(k - 1) && job.es[k - 1].offset == 0 {
        EntryFacts(job, k - 1);
        var _ := MaxEndIsGreatest(job.es, k - 1);
        EndsWithinSize(job, i, k - 1);
      }
    }
  }

  /** Two copied entries, the first sorted before the second: one shift for both, or
      disjoint on both sides. */
  lemma SameShiftOrApart(job: Job, i: nat, j: nat)
    requires job.Valid() && job.AllJoin() && i < j < |job.es| && job.Packs(i) && job.Packs(j)
    ensures || job.PackedAt(i) - job.es[i].start == job.PackedAt(j) - job.es[j].start
            || (&& job.es[i].end <= job.es[j].start
                && job.PackedAt(i) + job.lpra[job.es[i].raix].len <= job.PackedAt(j))
  {
    PackedIsShifted(job, i);
    PackedIsShifted(job, j);
    BehindOrTogether(job, i, j + 1);
    ClusterStartsEarly(job, j + 1);
  }

  // ---- exactly when aliasing is preserved -------------------------------------------------

  /** Byte a of entry i and byte b of entry j share a packed cell if and only if they share a
      user address. */
  ghost predicate Agrees(job: Job, i: nat, a: int, j: nat, b: int) {
    job.Shape() && i < |job.es| && j < |job.es| && job.Packs(i) && job.Packs(j)
    && 0 <= a < job.lpra[job.es[i].raix].len && 0 <= b < job.lpra[job.es[j].raix].len
    ==> (job.PackedAt(i) + a == job.PackedAt(j) + b <==> job.es[i].start + a == job.es[j].start + b)
  }

  ghost predicate AliasingExact(job: Job) {
    forall i: nat, a: int, j: nat, b: int :: Agrees(job, i, a, j, b)
  }

  lemma PackedAliasing(job: Job, i: nat, a: int, j: nat, b: int)
    requires job.Valid() && job.Faithful()
    ensures Agrees(job, i, a, j, b)
  {
    if i < |job.es| && j < |job.es| {
      EntryFacts(job, i);
      EntryFacts(job, j);
      assert i < j ==> job.Apart(i, j);
      assert j < i ==> job.Apart(j, i);
    }
  }

  /** Two entries that are neither in step nor apart share a byte on one side only. */
  lemma NotApartDisagrees(job: Job, i: nat, j: nat) returns (a: int, b: int)
    requires job.Valid() && i < |job.es| && j < |job.es| && !job.Apart(i, j)
    ensures !Agrees(job, i, a, j, b)
  {
    EntryFacts(job, i);
    EntryFacts(job, j);
    var s, t := job.es[i].start, job.es[j].start;
    var p, q := job.PackedAt(i), job.PackedAt(j);
    if s < job.es[j].end && t < job.es[i].end {
      a, b := if s < t then t - s else 0, if s < t then 0 else s - t;
    } else {
      a, b := if p < q then q - p else 0, if p < q then 0 else p - q;
    }
  }

  /** Packing preserves aliasing exactly if and only if every two copied entries are in step
      or apart on both sides, which their ranges tell before anything is packed. */
  lemma AliasingIffFaithful(job: Job)
    requires job.Valid()
    ensures AliasingExact(job) <==> job.Faithful()
  {
    if job.Faithful() {
      forall i: nat, a: int, j: nat, b: int ensures Agrees(job, i, a, j, b) {
        PackedAliasing(job, i, a, j, b);
      }
    }
    if !job.Faithful() {
      var i, j :| 0 <= i < j < |job.es| && !job.Apart(i, j);
      var a, b := NotApartDisagrees(job, i, j);
    }
  }

  /** Entries that all join are in step or apart, and above the metadata. */
  lemma JoiningIsFaithful(job: Job)
    requires job.Valid() && job.AllJoin()
    ensures job.Faithful() && job.AllAbove()
  {
    forall i, j | 0 <= i < j < |job.es| ensures job.Apart(i, j) {
      if job.Packs(i) && job.Packs(j) {
        SameShiftOrApart(job, i, j);
      }
    }
    forall k | 0 <= k < |job.es| ensures job.Above(k) {
      if job.Packs(k) {
        PackedInBounds(job, k);
      }
    }
  }

  // ---- entries that do not join -----------------------------------------------------------

  /** Entry m is the first to reach its last byte, and packs that part. */
  predicate Appends(job: Job, m: nat)
    requires job.Shape() && m < |job.es|
  {
    job.Packs(m) && job.es[m].mstart < job.es[m].mend
  }

  lemma AppendsItsEnd(job: Job, m: nat)
    requires job.Valid() && m < |job.es| && Appends(job, m)
    ensures MaxEnd(job.es, m + 1) == job.es[m].end == job.CopiedEnd(m + 1)
    ensures job.PackedAt(m) - job.es[m].start == job.Size(m + 1) - job.es[m].end
    ensures Place(job.es[m], job.Size(m)) - job.PackedAt(m) == job.es[m].offset >= 0
    ensures job.es[m].offset + (job.es[m].mend - job.es[m].mstart) == job.lpra[job.es[m].raix].len
  {
    EntryFacts(job, m);
    CopiedEndBelow(job, m);
  }

  /** While no cluster starts, only an end that nobody packs sets size and end apart. */
  lemma {:induction false} SizeFallsBehind(job: Job, m: nat, j: nat, x: int)
    requires job.Valid() && m < j <= |job.es| && Appends(job, m)
    requires forall i :: m < i < j ==> job.es[i].start <= x
    requires x < job.es[m].end
    ensures MaxEnd(job.es, j) > x
    ensures job.Size(j) - MaxEnd(job.es, j) <= job.Size(m + 1) - MaxEnd(job.es, m + 1)
    ensures job.Size(j) - MaxEnd(job.es, j) == job.Size(m + 1) - MaxEnd(job.es, m + 1) ==> job.CopiedEnd(j) == MaxEnd(job.es, j)
    decreases j
  {
    AppendsItsEnd(job, m);
    if m + 1 < j {
      SizeFallsBehind(job, m, j - 1, x);
      EntryFacts(job, j - 1);
      CopiedEndBelow(job, j - 1);
    }
  }

  /** An entry that does not join shares no cell that an entry in step with it or apart from it
      has added. */
  lemma SharesNothingAdded(job: Job, m: nat, k: nat)
    requires job.Valid() && m < k < |job.es| && Appends(job, m) && job.Packs(k) && !job.Joins(k) && job.Apart(m, k)
    ensures Avoids(job, m, job.PackedAt(k), job.PackedAt(k) + job.lpra[job.es[k].raix].len)
  {
    EntryFacts(job, m);
    EntryFacts(job, k);
    AppendsItsEnd(job, m);
    if job.PackedAt(m) - job.es[m].start == job.PackedAt(k) - job.es[k].start && job.es[k].start < job.es[m].end {
      forall i | m < i < k ensures job.es[i].start <= job.es[k].start {
        StartsAscend(job, i, k);
      }
      SizeFallsBehind(job, m, k, job.es[k].start);
    }
  }

  /** The cells p..q are none of those entry m has added. */
  predicate Avoids(job: Job, m: nat, p: int, q: int)
    requires job.Shape() && m < |job.es|
  {
    Appends(job, m) ==> q <= Place(job.es[m], job.Size(m)) || job.Size(m + 1) <= p
  }

  /** The last cell in use has been added by somebody. */
  lemma {:induction false} LastCellAdded(job: Job, n: nat) returns (m: nat)
    requires job.Valid() && n <= |job.es| && job.Size(n) > job.metalen
    ensures m < n && Appends(job, m) && job.Size(m + 1) == job.Size(n)
  {
    EntryFacts(job, n - 1);
    if Appends(job, n - 1) {
      m := n - 1;
    } else {
      m := LastCellAdded(job, n - 1);
    }
  }

  /** Cells that nobody has added lie in the padding in front of one cluster. */
  lemma {:induction false} GapOf(job: Job, n: nat, p: int, q: int) returns (m: nat)
    requires job.Valid() && n <= |job.es| && job.metalen <= p < q <= job.Size(n)
    requires forall i :: 0 <= i < n ==> Avoids(job, i, p, q)
    ensures m < n && InPadding(job, m, p, q)
  {
    EntryFacts(job, n - 1);
    assert Avoids(job, n - 1, p, q);
    if job.Size(n - 1) > job.metalen {
      var l := LastCellAdded(job, n - 1);
      assert Avoids(job, l, p, q);
    }
    m := n - 1;
    if q <= job.Size(n - 1) {
      m := GapOf(job, n - 1, p, q);
    }
  }

  /** The cells p..q are alignment padding in front of the cluster that starts with entry m. */
  predicate InPadding(job: Job, m: nat, p: int, q: int)
    requires job.Shape() && m < |job.es|
  {
    job.Packs(m) && job.es[m].offset == 0 && job.Size(m) <= p && q <= Place(job.es[m], job.Size(m))
  }

  /** An entry that does not join can keep aliasing and spare the metadata only inside alignment
      padding: it is shorter than BALIGN and ends inside the mapped buffer it starts in. */
  lemma SurvivesInPadding(job: Job, k: nat) returns (m: nat)
    requires job.Valid() && k < |job.es| && job.Packs(k) && !job.Joins(k)
    requires job.Above(k) && forall i :: 0 <= i < k ==> job.Apart(i, k)
    ensures m < k && InPadding(job, m, job.PackedAt(k), job.PackedAt(k) + job.lpra[job.es[k].raix].len)
    ensures job.lpra[job.es[k].raix].len < BALIGN && job.es[k].end < MaxEnd(job.es, k)
  {
    EntryFacts(job, k);
    var p, q := job.PackedAt(k), job.PackedAt(k) + job.lpra[job.es[k].raix].len;
    var r := if q < job.Size(k) then q else job.Size(k);
    forall i | 0 <= i < k ensures Avoids(job, i, p, r) {
      if Appends(job, i) {
        SharesNothingAdded(job, i, k);
      }
    }
    m := GapOf(job, k, p, r);
    EntryFacts(job, m);
    SizeGrows(job, m + 1, k);
  }

  /** Where every copied entry that starts before the greatest earlier end reaches it, the
      layout preserves aliasing and stays off the metadata if and only if all join. */
  lemma FaithfulIffAllJoin(job: Job)
    requires job.Valid()
    requires forall k :: 0 <= k < |job.es| && !job.Joins(k) ==> job.es[k].end >= MaxEnd(job.es, k)
    ensures job.Faithful() && job.AllAbove() <==> job.AllJoin()
  {
    if job.AllJoin() {
      JoiningIsFaithful(job);
    } else if job.Faithful() && job.AllAbove() {
      var k :| 0 <= k < |job.es| && !job.Joins(k);
      assert job.Above(k);
      var _ := SurvivesInPadding(job, k);
    }
  }

  /** Without that condition joining is not needed: a buffer that ends inside a mapped one can
      land in alignment padding, where it harms nobody. */
  lemma PaddingIsFaithful() returns (job: Job)
    ensures job.Valid() && job.Faithful() && job.AllAbove() && !job.AllJoin()
    ensures |job.es| == 4 && job.Packs(3) && job.PackedAt(3) == 39
  {
    job := PaddingJob();
    PaddingLayout(job);
    assert MaxEnd(job.es, 3) == 500;
    assert !job.Joins(3);
  }

  lemma PaddingJob() returns (job: Job)
    ensures job == Job([Buf(100, 10), Buf(300, 1), Buf(400, 100), Buf(410, 1)], 4, [false, false, true, false],
                       [Over(100, 110, 0, 100, 110, 0), Over(300, 301, 1, 300, 301, 0), Over(400, 500, 2, 400, 500, 0), Over(410, 411, 3, 0, 0, 90)], 0)
    ensures job.Valid() && MaxEnd(job.es, 3) == 500
  {
    job := Job([Buf(100, 10), Buf(300, 1), Buf(400, 100), Buf(410, 1)], 4, [false, false, true, false],
               [Over(100, 110, 0, 100, 110, 0), Over(300, 301, 1, 300, 301, 0), Over(400, 500, 2, 400, 500, 0), Over(410, 411, 3, 0, 0, 90)], 0);
    assert MaxEnd(job.es, 1) == 110 && MaxEnd(job.es, 2) == 301 && MaxEnd(job.es, 3) == 500;
    assert Built(job.lpra, job.es);
  }

  lemma PaddingLayout(job: Job)
    requires job.Shape() && |job.es| == 4 && job.metalen == 0
    requires job.lpra == [Buf(100, 10), Buf(300, 1), Buf(400, 100), Buf(410, 1)] && job.mapped == [false, false, true, false]
    requires job.es == [Over(100, 110, 0, 100, 110, 0), Over(300, 301, 1, 300, 301, 0), Over(400, 500, 2, 400, 500, 0), Over(410, 411, 3, 0, 0, 90)]
    ensures job.PackedAt(0) == 0 && job.PackedAt(1) == 128 && job.PackedAt(3) == 39 && job.CopiedEnd(3) == 301
  {
    AlignValue(0, 0);
    AlignValue(10, 1);
    assert job.Size(0) == 0 && job.Packs(0) && job.Packs(1) && !job.Packs(2) && job.Packs(3);
    assert job.Size(1) == Place(job.es[0], 0) + 10 == 10;
    assert job.Size(2) == Place(job.es[1], 10) + 1 == 129;
    assert job.Size(3) == 129;
    assert job.CopiedEnd(1) == 110 && job.CopiedEnd(2) == 301;
  }

  // ---- clusters as blocks, in order -----------------------------------------------------

  /** Two copied entries keep their distance, or stay apart in the same order. */
  ghost predicate InStep(job: Job, i: nat, j: nat)
    requires job.Shape() && i < |job.es| && j < |job.es|
  {
    job.Packs(i) && job.Packs(j) ==>
      || job.PackedAt(i) - job.es[i].start == job.PackedAt(j) - job.es[j].start
      || (&& job.es[i].end <= job.es[j].start
          && job.PackedAt(i) + job.lpra[job.es[i].raix].len <= job.PackedAt(j))
  }

  ghost predicate Bounded(job: Job, k: nat)
    requires job.Shape() && k < |job.es|
  {
    job.Packs(k) ==>
      job.metalen <= job.PackedAt(k) && job.PackedAt(k) + job.lpra[job.es[k].raix].len <= job.Size(|job.es|)
  }

  /** Clusters move as blocks, in address order, between the metadata and the end. */
  ghost predicate Orderly(job: Job)
    requires job.Shape()
  {
    && (forall i, j :: 0 <= i < j < |job.es| ==> InStep(job, i, j))
    && (forall k :: 0 <= k < |job.es| ==> Bounded(job, k))
  }

  /** The greatest copied end belongs to the current cluster, or nothing is copied yet. */
  lemma {:induction false} GreatestEndIsCurrent(job: Job, k: nat) returns (i: nat)
    requires job.Valid() && k <= |job.es|
    ensures if job.CopiedEnd(k) == 0 then job.Shift(k) == job.metalen
            else i < k && job.Packs(i) && job.es[i].end == job.CopiedEnd(k) && job.Shift(i + 1) == job.Shift(k)
  {
    i := 0;
    if k > 0 {
      i := GreatestEndIsCurrent(job, k - 1);
      EntryFacts(job, k - 1);
      CopiedEndBelow(job, k - 1);
      var _ := MaxEndIsGreatest(job.es, k - 1);
      if job.Packs(k - 1) && job.es[k - 1].end > job.CopiedEnd(k - 1) {
        i := k - 1;
      }
    }
  }

  lemma {:induction false} OrderlyJoins(job: Job, k: nat)
    requires job.Valid() && Orderly(job) && k <= |job.es|
    ensures forall j :: 0 <= j < k ==> job.Joins(j)
  {
    if k > 0 {
      OrderlyJoins(job, k - 1);
      assert Bounded(job, k - 1);
      if job.Packs(k - 1) && job.es[k - 1].offset != 0 {
        EntryFacts(job, k - 1);
        SizeTracksCluster(job, k - 1);
        var i := GreatestEndIsCurrent(job, k - 1);
        if job.CopiedEnd(k - 1) != 0 {
          EntryFacts(job, i);
          PackedIsShifted(job, i);
          assert InStep(job, i, k - 1);
        }
      }
    }
  }

  /** Clusters move as blocks in address order exactly when every copied buffer that follows
      on joins a copied buffer. That is more than aliasing asks for. */
  lemma LayoutRightIffAllJoin(job: Job)
    requires job.Valid()
    ensures Orderly(job) <==> job.AllJoin()
  {
    if Orderly(job) {
      OrderlyJoins(job, |job.es|);
    }
    if job.AllJoin() {
      forall i, j | 0 <= i < j < |job.es| ensures InStep(job, i, j) {
        if job.Packs(i) && job.Packs(j) {
          SameShiftOrApart(job, i, j);
        }
      }
      forall k | 0 <= k < |job.es| ensures Bounded(job, k) {
        if job.Packs(k) {
          PackedInBounds(job, k);
        }
      }
    }
  }

  /** Keeping copied buffers from starting inside mapped ones is enough. */
  lemma NoStraddleJoins(job: Job)
    requires job.Valid() && job.NoStraddle()
    ensures job.AllJoin()
  {
    forall k | 0 <= k < |job.es| ensures job.Joins(k) {
      if job.Packs(k) && job.es[k].offset != 0 {
        EntryFacts(job, k);
        CopiedEndBelow(job, k);
        var b := MaxEndIsGreatest(job.es, k);
        EntryFacts(job, b);
        StartsAscend(job, b, k);
        assert job.Clear(job.es[k].raix, job.es[b].raix);
        assert job.Packs(b);
      }
    }
  }

  /** Without such a condition the law fails: a copied buffer that starts inside a mapped
      one is packed on top of an unrelated copied buffer. */
  lemma StraddlingAliases() returns (job: Job)
    ensures job.Valid() && |job.es| == 3 && job.Packs(0) && job.Packs(2)
    ensures job.PackedAt(0) == job.PackedAt(2) && job.es[0].start != job.es[2].start
  {
    var lpra := [Buf(100, 10), Buf(200, 20), Buf(210, 20)];
    var es := [Over(100, 110, 0, 100, 110, 0), Over(200, 220, 1, 200, 220, 0), Over(210, 230, 2, 220, 230, 10)];
    job := Job(lpra, 3, [false, true, false], es, 0);
    assert MaxEnd(es, 1) == 110 && MaxEnd(es, 2) == 220;
    AlignValue(0, 0);
    assert job.Size(1) == Place(es[0], 0) + 10 == 10;
    assert job.Size(2) == 10;
    assert Built(lpra, es);
  }
}
