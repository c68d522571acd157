/** The layout of Packing in the machine words the driver computes and publishes
    (android/adsprpc.c:1537-1559 and 1639-1679): every sum is taken modulo WORD, so packed
    ranges lie on a circle. */
module PackedWords {
  import opened Basics
  import opened Overlap
  import opened OverlapUnion
  import opened Packing

  /** ALIGN in machine words. */
  function AlignWord(x: int): int {
    (x + BALIGN - 1) % WORD / BALIGN * BALIGN
  }

  lemma AlignWraps(x: int)
    ensures AlignWord(x % WORD) == Align(x) % WORD
  {
    var y := x + BALIGN - 1;
    var q, r := y / WORD, y % WORD;
    AddWraps(x, BALIGN - 1);
    assert (x % WORD + BALIGN - 1) % WORD == r;
    Blocks(y, q, r);
    ModUnique(Align(x), q, r / BALIGN * BALIGN);
  }

  /** Whole blocks of y: a word is a whole number of them. */
  lemma Blocks(y: int, q: int, r: int)
    requires y == q * WORD + r && 0 <= r < WORD
    ensures y / BALIGN * BALIGN == q * WORD + r / BALIGN * BALIGN
  {
    var b, s := r / BALIGN, r % BALIGN;
    assert y == (q * (WORD / BALIGN) + b) * BALIGN + s;
    assert y / BALIGN == q * (WORD / BALIGN) + b;
  }

  lemma ModUnique(x: int, q: int, r: int)
    requires x == q * WORD + r && 0 <= r < WORD
    ensures x % WORD == r
  {
  }

  /** Sums and differences may be wrapped early. */
  lemma AddWraps(x: int, y: int)
    ensures (x % WORD + y) % WORD == (x + y) % WORD && (x % WORD - y) % WORD == (x - y) % WORD
  {
    assert x == x / WORD * WORD + x % WORD;
  }

  lemma SameWord(x: int, y: int)
    requires -WORD < x - y < WORD
    ensures x % WORD == y % WORD <==> x == y
  {
    assert x - y == (x / WORD - y / WORD) * WORD + (x % WORD - y % WORD);
  }

  // ---- bounds ---------------------------------------------------------------------------

  /** Entry k's packed range, as the machine sees its distance from the buffer's start, lies
      between the metadata and the machine's total. */
  ghost predicate InBoundsAt(job: Job, k: nat)
    requires job.Shape() && k < |job.es|
  {
    job.Packs(k) ==>
      && job.metalen <= job.PackedAt(k) % WORD
      && job.PackedAt(k) % WORD + job.lpra[job.es[k].raix].len <= job.Size(|job.es|) % WORD
  }

  ghost predicate InBounds(job: Job) {
    job.Shape() && forall k :: 0 <= k < |job.es| ==> InBoundsAt(job, k)
  }

  /** The entry at which the running size leaves the word. */
  lemma {:induction false} CrossingEntry(job: Job, n: nat) returns (k: nat)
    requires job.Valid() && n <= |job.es| && job.Size(n) >= WORD
    ensures k < n && job.Size(k) < WORD <= job.Size(k + 1)
  {
    if job.Size(n - 1) >= WORD {
      k := CrossingEntry(job, n - 1);
    } else {
      k := n - 1;
    }
  }

  lemma CrossingIsOut(job: Job, k: nat)
    requires job.Valid() && job.metalen > 0 && k < |job.es| && job.Size(k) < WORD <= job.Size(k + 1)
    ensures !InBoundsAt(job, k)
  {
    EntryFacts(job, k);
    EndsInside(job, k);
  }

  /** The packed ranges of a layout off the metadata are in bounds if and only if the size of
      the layout is a machine word: the driver's checks on its wrapped sums do not tell. */
  lemma InBoundsIffNoWrap(job: Job)
    requires job.Valid() && job.AllAbove() && job.metalen > 0
    ensures InBounds(job) <==> job.Size(|job.es|) < WORD
  {
    if job.Size(|job.es|) >= WORD {
      var k := CrossingEntry(job, |job.es|);
      CrossingIsOut(job, k);
    } else {
      forall k | 0 <= k < |job.es| ensures InBoundsAt(job, k) {
        if job.Packs(k) {
          EndsInside(job, k);
          assert job.Above(k);
        }
      }
    }
  }

  /** What the filling pass has left, in machine words, does not cover entry k. */
  ghost predicate Short(job: Job, k: nat)
    requires job.Shape() && k < |job.es|
  {
    job.Packs(k) && (job.Size(|job.es|) - Place(job.es[k], job.Size(k))) % WORD < job.es[k].mend - job.es[k].mstart
  }

  lemma NeverShort(job: Job, k: nat)
    requires job.Valid() && k < |job.es| && job.Size(|job.es|) < WORD
    ensures !Short(job, k)
  {
    if job.Packs(k) {
      EntryFacts(job, k);
      SizeGrows(job, 0, k);
      SizeGrows(job, k + 1, |job.es|);
    }
  }

  /** Two outputs whose layout is larger than a word: no check of either pass fails, the total
      wraps to 511, and the first argument is published beyond it. */
  lemma WrappedTotal() returns (job: Job)
    ensures job.Valid() && job.AllJoin() && job.NoStraddle() && |job.lpra| == 2 && job.inbufs == 0
    ensures forall i :: 0 <= i < 2 ==> !Wraps(job.lpra[i])
    ensures forall k :: 0 <= k < 2 ==> job.Packs(k) && job.es[k].mend - job.es[k].mstart <= LONG_MAX && !Short(job, k)
    ensures job.Size(2) == WORD + 511 && job.PackedAt(0) == 512 && !InBoundsAt(job, 0)
  {
    var h := LONG_MAX + 1;
    var lpra := [Buf(0, h - 1), Buf(h, h - 1)];
    var es := [Over(0, h - 1, 0, 0, h - 1, 0), Over(h, h + h - 1, 1, h, h + h - 1, 0)];
    job := Job(lpra, 0, [false, false], es, 464);
    assert MaxEnd(es, 1) == h - 1;
    assert Built(lpra, es);
    AlignValue(464, 4);
    AlignValue(h + 511, h / 128 + 4);
    assert job.Size(1) == Place(es[0], 464) + (h - 1) == h + 511;
    assert job.Size(2) == Place(es[1], h + 511) + (h - 1);
  }

  /** With all copied follow-on entries joining, the size alone decides. */
  lemma JoiningInBoundsIffNoWrap(job: Job)
    requires job.Valid() && job.AllJoin() && job.metalen > 0
    ensures InBounds(job) <==> job.Size(|job.es|) < WORD
  {
    JoiningIsFaithful(job);
    InBoundsIffNoWrap(job);
  }

  /** Off that condition a small layout can be out of bounds: a copied buffer inside a mapped
      one is packed into the metadata. */
  lemma MetadataOverrun() returns (job: Job)
    ensures job.Valid() && |job.es| == 2 && job.metalen == 464 && job.Packs(1) && job.Size(2) == 474
    ensures job.PackedAt(1) == 454 && !InBounds(job)
  {
    var lpra := [Buf(200, 20), Buf(210, 20)];
    var es := [Over(200, 220, 0, 200, 220, 0), Over(210, 230, 1, 220, 230, 10)];
    job := Job(lpra, 2, [true, false], es, 464);
    assert MaxEnd(es, 1) == 220;
    assert Built(lpra, es);
    assert job.Size(1) == 464;
    assert !InBoundsAt(job, 1);
  }

  // ---- aliasing -------------------------------------------------------------------------

  /** How far entry j's packed start lies beyond entry i's on the circle of words. */
  function Ahead(job: Job, i: nat, j: nat): int
    requires job.Shape() && i < |job.es| && j < |job.es|
  {
    (job.PackedAt(j) - job.PackedAt(i)) % WORD
  }

  function LenOf(job: Job, k: nat): int
    requires job.Shape() && k < |job.es|
  {
    job.lpra[job.es[k].raix].len
  }

  /** Two copied entries keep their distance modulo a word, or are apart in user memory and on
      the circle. */
  predicate WordApart(job: Job, i: nat, j: nat)
    requires job.Shape() && i < |job.es| && j < |job.es|
  {
    job.Packs(i) && job.Packs(j) ==>
      || (job.PackedAt(j) - job.PackedAt(i)) % WORD == (job.es[j].start - job.es[i].start) % WORD
      || (&& (job.es[i].end <= job.es[j].start || job.es[j].end <= job.es[i].start)
          && LenOf(job, i) <= Ahead(job, i, j) && Ahead(job, i, j) + LenOf(job, j) <= WORD)
  }

  ghost predicate WordFaithful(job: Job) {
    job.Shape() && forall i, j :: 0 <= i < j < |job.es| ==> WordApart(job, i, j)
  }

  /** Byte a of entry i and byte b of entry j share a word if and only if they share a user
      address. */
  ghost predicate WordAgrees(job: Job, i: nat, a: int, j: nat, b: int) {
    job.Shape() && i < |job.es| && j < |job.es| && job.Packs(i) && job.Packs(j)
    && 0 <= a < LenOf(job, i) && 0 <= b < LenOf(job, j)
    ==> ((job.PackedAt(i) + a) % WORD == (job.PackedAt(j) + b) % WORD <==> job.es[i].start + a == job.es[j].start + b)
  }

  lemma SameWordDiff(x: int, y: int)
    ensures x % WORD == y % WORD <==> (x - y) % WORD == 0
  {
    assert x - y == (x / WORD - y / WORD) * WORD + (x % WORD - y % WORD);
    if x % WORD >= y % WORD {
      ModUnique(x - y, x / WORD - y / WORD, x % WORD - y % WORD);
    } else {
      ModUnique(x - y, x / WORD - y / WORD - 1, x % WORD - y % WORD + WORD);
    }
  }

  /** Two ranges whose starts are d apart on the circle meet where one runs into the other. */
  lemma CircleMeets(p: int, q: int, a: int, b: int, d: int)
    requires d == (q - p) % WORD && 0 <= a < WORD && 0 <= b < WORD
    ensures (p + a) % WORD == (q + b) % WORD <==> a == d + b || a == d + b - WORD
  {
    var k, z := (q - p) / WORD, a - (d + b);
    assert q - p == k * WORD + d;
    SameWordDiff(p + a, q + b);
    assert p + a - (q + b) == z - k * WORD;
    ModUnique(z - k * WORD, z / WORD - k, z % WORD);
  }

  /** Starts that keep their distance modulo a word keep every byte's. */
  lemma InStepMeets(p: int, q: int, a: int, b: int, s: int, t: int)
    requires (q - p) % WORD == (t - s) % WORD && 0 <= s + a < WORD && 0 <= t + b < WORD
    ensures (p + a) % WORD == (q + b) % WORD <==> s + a == t + b
  {
    SameWordDiff(p + a, q + b);
    SameWordDiff(q - p, t - s);
    SameWordDiff(p + a - (q + b), s + a - (t + b));
    SameWord(s + a, t + b);
    SameWordDiff(s + a, t + b);
    SameWordNegated(q - p - (t - s));
  }

  lemma SameWordNegated(x: int)
    ensures x % WORD == 0 <==> (-x) % WORD == 0
  {
    SameWordDiff(x, 0);
    SameWordDiff(0, x);
  }

  lemma WordApartAgrees(job: Job, i: nat, a: int, j: nat, b: int)
    requires job.Valid() && i < |job.es| && j < |job.es| && WordApart(job, i, j)
    ensures WordAgrees(job, i, a, j, b)
  {
    var p, q, s, t := job.PackedAt(i), job.PackedAt(j), job.es[i].start, job.es[j].start;
    if 0 <= a < LenOf(job, i) && 0 <= b < LenOf(job, j) {
      EndIsWord(job, i);
      EndIsWord(job, j);
      if (q - p) % WORD == (t - s) % WORD {
        InStepMeets(p, q, a, b, s, t);
      } else {
        CircleMeets(p, q, a, b, Ahead(job, i, j));
      }
    }
  }

  lemma EndIsWord(job: Job, k: nat)
    requires job.Valid() && k < |job.es|
    ensures 0 <= job.es[k].start <= job.es[k].end < WORD && LenOf(job, k) == job.es[k].end - job.es[k].start
  {
    assert Lists(job.lpra, job.es, k);
  }

  /** Two entries that are neither in step nor apart on the circle share a byte on one side only. */
  lemma NotWordApartDisagrees(job: Job, i: nat, j: nat) returns (a: int, b: int)
    requires job.Valid() && i < |job.es| && j < |job.es| && !WordApart(job, i, j)
    ensures !WordAgrees(job, i, a, j, b)
  {
    EndIsWord(job, i);
    EndIsWord(job, j);
    var p, q, s, t, d := job.PackedAt(i), job.PackedAt(j), job.es[i].start, job.es[j].start, Ahead(job, i, j);
    if s < job.es[j].end && t < job.es[i].end {
      a, b := if s < t then t - s else 0, if s < t then 0 else s - t;
      SameWordDiff(p + a, q + b);
      SameWordDiff(q - p, t - s);
      SameWordNegated(q - p - (t - s));
    } else {
      a, b := if d < LenOf(job, i) then d else 0, if d < LenOf(job, i) then 0 else WORD - d;
      CircleMeets(p, q, a, b, d);
    }
  }

  /** pvs[i] is the packed address, a machine word, of every copied argument i. */
  ghost predicate PlacedAt(job: Job, virt: int, pvs: seq<int>) {
    && job.Shape() && |pvs| == |job.lpra|
    && forall k :: 0 <= k < |job.es| && job.Packs(k) ==> pvs[job.es[k].raix] == (virt + job.PackedAt(k)) % WORD
  }

  /** Byte a of argument i and byte b of argument j are published at one address if and only if
      they are one user byte. */
  ghost predicate SameByte(job: Job, pvs: seq<int>, i: nat, a: int, j: nat, b: int) {
    |pvs| == |job.lpra| == |job.mapped| && i < |pvs| && j < |pvs| && job.Copied(i) && job.Copied(j)
    && 0 <= a < job.lpra[i].len && 0 <= b < job.lpra[j].len
    ==> ((pvs[i] + a) % WORD == (pvs[j] + b) % WORD <==> job.lpra[i].pv + a == job.lpra[j].pv + b)
  }

  /** Where the buffer lies does not matter. */
  lemma SameByteIsAgreement(job: Job, virt: int, pvs: seq<int>, k: nat, a: int, l: nat, b: int)
    requires job.Valid() && PlacedAt(job, virt, pvs) && k < |job.es| && l < |job.es|
    ensures SameByte(job, pvs, job.es[k].raix, a, job.es[l].raix, b) <==> WordAgrees(job, k, a, l, b)
  {
    EntryFacts(job, k);
    EntryFacts(job, l);
    var p, q := job.PackedAt(k), job.PackedAt(l);
    SameAfterMove(virt, p, q, a, b);
  }

  lemma SameAfterMove(virt: int, p: int, q: int, a: int, b: int)
    ensures ((virt + p) % WORD + a) % WORD == ((virt + q) % WORD + b) % WORD <==> (p + a) % WORD == (q + b) % WORD
  {
    AddWraps(virt + p, a);
    AddWraps(virt + q, b);
    SameWordDiff(virt + p + a, virt + q + b);
    SameWordDiff(p + a, q + b);
  }

  /** Two bytes of copied buffers share a published address if and only if they share a user
      address, when every two entries are in step or apart on the circle. */
  lemma AliasingPreserved(job: Job, virt: int, pvs: seq<int>, i: nat, a: int, j: nat, b: int)
    requires job.Valid() && WordFaithful(job) && PlacedAt(job, virt, pvs)
    ensures SameByte(job, pvs, i, a, j, b)
  {
    if i < |pvs| && j < |pvs| && job.Copied(i) && job.Copied(j) {
      var k := EveryBufferListed(job.lpra, job.es, i);
      var l := EveryBufferListed(job.lpra, job.es, j);
      SameByteIsAgreement(job, virt, pvs, k, a, l, b);
      AllAgree(job, k, a, l, b);
    }
  }

  lemma AllAgree(job: Job, k: nat, a: int, l: nat, b: int)
    requires job.Valid() && WordFaithful(job) && k < |job.es| && l < |job.es|
    ensures WordAgrees(job, k, a, l, b)
  {
    if k < l {
      WordApartAgrees(job, k, a, l, b);
    } else if l < k {
      WordApartAgrees(job, l, b, k, a);
    } else {
      EndIsWord(job, k);
      if 0 <= a < LenOf(job, k) && 0 <= b < LenOf(job, k) {
        SameWord(job.PackedAt(k) + a, job.PackedAt(k) + b);
      }
    }
  }

  /** Packing preserves aliasing exactly, in the addresses it publishes, if and only if every two
      copied entries keep their distance modulo a word or are apart in user memory and on the
      circle of words: a condition on ranges that holds or fails before anything is packed. */
  lemma AliasingIff(job: Job, virt: int, pvs: seq<int>)
    requires job.Valid() && PlacedAt(job, virt, pvs)
    ensures (forall i: nat, a: int, j: nat, b: int :: SameByte(job, pvs, i, a, j, b)) <==> WordFaithful(job)
  {
    if WordFaithful(job) {
      forall i: nat, a: int, j: nat, b: int ensures SameByte(job, pvs, i, a, j, b) {
        AliasingPreserved(job, virt, pvs, i, a, j, b);
      }
    } else {
      var k, l :| 0 <= k < l < |job.es| && !WordApart(job, k, l);
      var a, b := NotWordApartDisagrees(job, k, l);
      SameByteIsAgreement(job, virt, pvs, k, a, l, b);
    }
  }

  // ---- from the layout to words ---------------------------------------------------------

  /** As many arguments as two eight-bit counts allow. */
  const MAX_ARGS: nat := 510

  /** The layout exceeds the merged bytes by the padding only. */
  lemma {:induction false} SizeBound(job: Job, k: nat)
    requires job.Valid() && k <= |job.es|
    ensures job.Size(k) <= job.metalen + MaxEnd(job.es, k) + (BALIGN - 1) * k
  {
    if k > 0 {
      SizeBound(job, k - 1);
      EntryFacts(job, k - 1);
    }
  }

  lemma LessThanTwoWords(job: Job)
    requires job.Valid() && |job.es| <= MAX_ARGS
    ensures job.Size(|job.es|) - job.metalen < 2 * WORD
  {
    SizeBound(job, |job.es|);
    EndBelowWord(job, |job.es|);
  }

  /** Entry j runs into entry i one word higher. */
  predicate Meets(job: Job, i: nat, j: nat)
    requires job.Shape() && i < |job.es| && j < |job.es|
  {
    && job.Packs(i) && job.Packs(j)
    && job.PackedAt(i) + WORD < job.PackedAt(j) + LenOf(job, j)
    && job.PackedAt(j) < job.PackedAt(i) + WORD + LenOf(job, i)
  }

  ghost predicate NoneMeets(job: Job) {
    job.Shape() && forall i, j :: 0 <= i < |job.es| && 0 <= j < |job.es| ==> !Meets(job, i, j)
  }

  /** Positions of one pair, less than two words apart. */
  lemma PairMeets(p: int, q: int, m: int, n: int, s: int, t: int)
    requires 0 < m && 0 < n && 0 <= s && s + m < WORD && 0 <= t && t + n < WORD
    requires -2 * WORD < q - p - m && q + n - p < 2 * WORD
    requires q - p == t - s || ((s + m <= t || t + n <= s) && (p + m <= q || q + n <= p))
    ensures (q - p) % WORD == (t - s) % WORD
            || ((s + m <= t || t + n <= s) && m <= (q - p) % WORD && (q - p) % WORD + n <= WORD)
            <==> !(p + WORD < q + n && q < p + WORD + m) && !(q + WORD < p + m && p < q + WORD + n)
  {
    var d := q - p;
    if d >= WORD {
      ModUnique(d, 1, d - WORD);
    } else if d >= 0 {
      ModUnique(d, 0, d);
    } else if d >= -WORD {
      ModUnique(d, -1, d + WORD);
    } else {
      ModUnique(d, -2, d + 2 * WORD);
    }
    var e := t - s;
    if e >= 0 {
      ModUnique(e, 0, e);
    } else {
      ModUnique(e, -1, e + WORD);
    }
  }

  lemma PairMeetsEntries(job: Job, i: nat, j: nat)
    requires job.Valid() && i < j < |job.es| && job.Packs(i) && job.Packs(j) && job.Apart(i, j)
    requires job.Above(i) && job.Above(j) && job.Size(|job.es|) - job.metalen < 2 * WORD
    ensures WordApart(job, i, j) <==> !Meets(job, i, j) && !Meets(job, j, i)
  {
    EndIsWord(job, i);
    EndIsWord(job, j);
    EndsInside(job, i);
    EndsInside(job, j);
    PairMeets(job.PackedAt(i), job.PackedAt(j), LenOf(job, i), LenOf(job, j), job.es[i].start, job.es[j].start);
  }

  /** For a faithful layout off the metadata, aliasing survives the wrap if and only if no copied
      range meets another one word higher. */
  lemma WordFaithfulIffNoneMeets(job: Job)
    requires job.Valid() && job.Faithful() && job.AllAbove() && |job.es| <= MAX_ARGS
    ensures WordFaithful(job) <==> NoneMeets(job)
  {
    LessThanTwoWords(job);
    forall i, j | 0 <= i < j < |job.es| ensures WordApart(job, i, j) <==> !Meets(job, i, j) && !Meets(job, j, i) {
      assert job.Apart(i, j) && job.Above(i) && job.Above(j);
      if job.Packs(i) && job.Packs(j) {
        PairMeetsEntries(job, i, j);
      }
    }
    forall i | 0 <= i < |job.es| ensures !Meets(job, i, i) {
      EndIsWord(job, i);
    }
  }

  /** A check of the total alone: what follows the metadata is no larger than a word. */
  lemma SmallIsWordFaithful(job: Job)
    requires job.Valid() && job.Faithful() && job.AllAbove() && job.Size(|job.es|) - job.metalen <= WORD
    ensures WordFaithful(job)
  {
    forall i, j | 0 <= i < j < |job.es| ensures WordApart(job, i, j) {
      assert job.Apart(i, j) && job.Above(i) && job.Above(j);
      if job.Packs(i) && job.Packs(j) {
        EndsInside(job, i);
        EndsInside(job, j);
        PairMeetsEntries(job, i, j);
      }
    }
  }

  /** Below a word, positions and words agree. */
  lemma WordFaithfulIsFaithful(job: Job)
    requires job.Valid() && job.AllAbove() && job.Size(|job.es|) < WORD && WordFaithful(job)
    ensures job.Faithful()
  {
    forall i, j | 0 <= i < j < |job.es| ensures job.Apart(i, j) {
      assert WordApart(job, i, j) && job.Above(i) && job.Above(j);
      if job.Packs(i) && job.Packs(j) {
        EndIsWord(job, i);
        EndIsWord(job, j);
        EndsInside(job, i);
        EndsInside(job, j);
        PairBelowWord(job.PackedAt(i), job.PackedAt(j), LenOf(job, i), LenOf(job, j), job.es[i].start, job.es[j].start);
      }
    }
  }

  lemma PairBelowWord(p: int, q: int, m: int, n: int, s: int, t: int)
    requires 0 < m && 0 < n && 0 <= s && s + m < WORD && 0 <= t && t + n < WORD
    requires 0 <= p && p + m < WORD && 0 <= q && q + n < WORD
    requires (q - p) % WORD == (t - s) % WORD
             || ((s + m <= t || t + n <= s) && m <= (q - p) % WORD && (q - p) % WORD + n <= WORD)
    ensures q - p == t - s || ((s + m <= t || t + n <= s) && (p + m <= q || q + n <= p))
  {
    var d, e := q - p, t - s;
    ModUnique(d, if d >= 0 then 0 else -1, if d >= 0 then d else d + WORD);
    ModUnique(e, if e >= 0 then 0 else -1, if e >= 0 then e else e + WORD);
  }

  /** A layout off the metadata fits if and only if what is published is in bounds and preserves
      aliasing. */
  lemma FitsIff(job: Job)
    requires job.Valid() && job.AllAbove() && job.metalen > 0
    ensures job.Fits() <==> InBounds(job) && WordFaithful(job)
  {
    InBoundsIffNoWrap(job);
    if job.Fits() {
      SmallIsWordFaithful(job);
    } else if InBounds(job) && WordFaithful(job) {
      WordFaithfulIsFaithful(job);
    }
  }

  /** Four outputs that all join, pass every check, and still alias where the user's bytes are
      apart: user bytes 0 and 2^64 - 255 are published at one address. */
  lemma WrappedAliasing() returns (job: Job)
    ensures job.Valid() && job.AllJoin() && job.NoStraddle() && |job.lpra| == 4 && job.inbufs == 0
    ensures forall i :: 0 <= i < 4 ==> !Wraps(job.lpra[i])
    ensures forall k :: 0 <= k < 4 ==> job.Packs(k) && job.es[k].mend - job.es[k].mstart <= LONG_MAX && !Short(job, k)
    ensures job.Size(4) == WORD + 700 && !WordAgrees(job, 0, 0, 3, LONG_MAX - 255) && !WordFaithful(job)
  {
    job := WrappedAliasingJob();
    WrappedAliasingLayout(job);
    var b := LONG_MAX - 255;
    assert job.PackedAt(3) + b == WORD + 512;
    assert !WordAgrees(job, 0, 0, 3, b);
    if WordFaithful(job) {
      AllAgree(job, 0, 0, 3, b);
    }
  }

  lemma WrappedAliasingJob() returns (job: Job)
    ensures var h := LONG_MAX + 1;
            job == Job([Buf(0, 1), Buf(1, 1), Buf(2, h - 1), Buf(h + 1, h - 68)], 0, [false, false, false, false],
                       [Over(0, 1, 0, 0, 1, 0), Over(1, 2, 1, 1, 2, 0), Over(2, h + 1, 2, 2, h + 1, 0),
                        Over(h + 1, 2 * h - 67, 3, h + 1, 2 * h - 67, 0)], 464)
    ensures job.Valid() && job.AllJoin() && job.NoStraddle()
  {
    var h := LONG_MAX + 1;
    var es := [Over(0, 1, 0, 0, 1, 0), Over(1, 2, 1, 1, 2, 0), Over(2, h + 1, 2, 2, h + 1, 0),
               Over(h + 1, 2 * h - 67, 3, h + 1, 2 * h - 67, 0)];
    job := Job([Buf(0, 1), Buf(1, 1), Buf(2, h - 1), Buf(h + 1, h - 68)], 0, [false, false, false, false], es, 464);
    assert MaxEnd(es, 1) == 1 && MaxEnd(es, 2) == 2 && MaxEnd(es, 3) == h + 1;
    assert Built(job.lpra, es);
  }

  lemma WrappedAliasingLayout(job: Job)
    requires var h := LONG_MAX + 1;
             && job.lpra == [Buf(0, 1), Buf(1, 1), Buf(2, h - 1), Buf(h + 1, h - 68)] && job.mapped == [false, false, false, false]
             && job.es == [Over(0, 1, 0, 0, 1, 0), Over(1, 2, 1, 1, 2, 0), Over(2, h + 1, 2, 2, h + 1, 0),
                           Over(h + 1, 2 * h - 67, 3, h + 1, 2 * h - 67, 0)]
             && job.metalen == 464
    ensures job.Shape() && job.Size(4) == WORD + 700 && job.PackedAt(0) == 512 && job.PackedAt(3) == LONG_MAX + 1 + 768
    ensures forall k :: 0 <= k < 4 ==> job.Packs(k) && !Short(job, k)
  {
    var h := LONG_MAX + 1;
    AlignValue(464, 4);
    AlignValue(513, 5);
    AlignValue(641, 6);
    AlignValue(h + 767, h / 128 + 6);
    assert job.Size(1) == Place(job.es[0], 464) + 1 == 513;
    assert job.Size(2) == Place(job.es[1], 513) + 1 == 641;
    assert job.Size(3) == Place(job.es[2], 641) + (h - 1) == h + 767;
    assert job.Size(4) == Place(job.es[3], h + 767) + (h - 68) == 2 * h + 700;
  }

  /** In a kernel buffer that holds the layout, every copied buffer lies behind the metadata
      and before the end, at a plain address. */
  lemma PlacedInBounds(job: Job, virt: int, pvs: seq<int>, i: nat)
    requires job.Valid() && job.Fits() && PlacedAt(job, virt, pvs)
    requires 0 <= virt && virt + job.Size(|job.es|) <= WORD
    requires i < |job.lpra| && job.Copied(i)
    ensures virt + job.metalen <= pvs[i] && pvs[i] + job.lpra[i].len <= virt + job.Size(|job.es|)
  {
    var k := EveryBufferListed(job.lpra, job.es, i);
    EntryFacts(job, k);
    EndsInside(job, k);
    assert job.Above(k);
  }
}
