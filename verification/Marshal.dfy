/** The copying part of get_args (android/adsprpc.c:1166-1183, 1537-1559 and 1586-1679). The
    packed kernel buffer is an array of bytes; kernel address a is cell a - virt of it. User
    memory is a map from readable and writable addresses to bytes; touching any other address
    faults. Sizes and kernel addresses are machine words: every sum and difference of the two
    passes is taken modulo WORD. */
module Marshal {
  import opened Basics
  import opened Overlap
  import opened OverlapUnion
  import opened Packing
  import opened PackedWords
  import opened Pages

  type byte = bv8

  /** `remote_arg64_t.buf` */
  datatype RemoteArg = RemoteArg(pv: int, len: int)

  class UserSpace {
    var cells: map<int, byte>

    constructor (cells: map<int, byte>)
      ensures this.cells == cells
    {
      this.cells := cells;
    }

    /** K_COPY_FROM_USER: on a fault the destination holds what was read before it. */
    method CopyFrom(dst: array<byte>, at: nat, src: int, len: nat) returns (err: bool)
      requires at + len <= dst.Length
      modifies dst
      ensures err <==> !Accessible(cells, src, len)
      ensures !err ==> forall c :: at <= c < at + len ==> dst[c] == cells[src + (c - at)]
      ensures forall c :: 0 <= c < dst.Length && !(at <= c < at + len) ==> dst[c] == old(dst[c])
    {
      err := false;
      for k := 0 to len
        invariant Accessible(cells, src, k)
        invariant forall c :: at <= c < at + k ==> dst[c] == cells[src + (c - at)]
        invariant forall c :: 0 <= c < dst.Length && !(at <= c < at + len) ==> dst[c] == old(dst[c])
      {
        if src + k !in cells {
          return true;
        }
        dst[at + k] := cells[src + k];
      }
    }

    /** K_COPY_TO_USER: on a fault the bytes before it have been written. */
    method CopyTo(dst: int, src: array<byte>, at: int, len: nat) returns (err: bool)
      requires len == 0 || 0 <= at <= src.Length - len
      modifies this
      ensures err <==> !Accessible(old(cells), dst, len)
      ensures cells.Keys == old(cells).Keys
      ensures !err ==> forall x :: dst <= x < dst + len ==> cells[x] == src[at + (x - dst)]
      ensures forall x :: x in cells && !(dst <= x < dst + len) ==> cells[x] == old(cells)[x]
    {
      err := false;
      for k := 0 to len
        invariant cells.Keys == old(cells).Keys
        invariant Accessible(cells, dst, k)
        invariant forall x :: dst <= x < dst + k ==> cells[x] == src[at + (x - dst)]
        invariant forall x :: x in cells && !(dst <= x < dst + len) ==> cells[x] == old(cells)[x]
      {
        if dst + k !in cells {
          assert dst + k !in old(cells);
          return true;
        }
        cells := cells[dst + k := src[at + k]];
      }
    }
  }

  ghost predicate Accessible(cells: map<int, byte>, a: int, len: int) {
    forall x :: a <= x < a + len ==> x in cells
  }

  /** How a pass ends: with no error, with an error the driver returns, or at a copy whose
      kernel side is not in the packed buffer. What the driver does from there on is not
      modelled. */
  datatype Outcome = Done | Failed | Outside

  // ---- the sizing pass ----------------------------------------------------------------

  predicate TooLong(job: Job, k: nat)
    requires job.Shape() && k < |job.es|
  {
    job.Packs(k) && job.es[k].mend - job.es[k].mstart > LONG_MAX
  }

  /** The total wraps without notice: it is the size of the layout modulo a word. */
  method SizeArgs(job: Job) returns (err: bool, copylen: int)
    requires job.Valid()
    ensures err <==> exists k :: 0 <= k < |job.es| && TooLong(job, k)
    ensures !err ==> copylen == job.Size(|job.es|) % WORD
  {
    err, copylen := false, job.metalen;
    for oix := 0 to |job.es|
      invariant forall k :: 0 <= k < oix ==> !TooLong(job, k)
      invariant copylen == job.Size(oix) % WORD
    {
      var i := job.es[oix].raix;
      if job.lpra[i].len == 0 || job.mapped[i] {
        continue;
      }
      if job.es[oix].offset == 0 {
        AlignWraps(job.Size(oix));
        copylen := AlignWord(copylen);
      }
      var mlen := job.es[oix].mend - job.es[oix].mstart;
      err := !(mlen <= LONG_MAX);
      if err {
        assert TooLong(job, oix);
        return;
      }
      AddWraps(Place(job.es[oix], job.Size(oix)), mlen);
      copylen := (copylen + mlen) % WORD;
    }
  }

  lemma SubWraps(x: int, y: int)
    ensures (x - y % WORD) % WORD == (x - y) % WORD
  {
    assert y == y / WORD * WORD + y % WORD;
  }

  // ---- the filling pass ---------------------------------------------------------------

  /** The first loop over the published arguments: mapped ones keep the user's address. */
  method InitArgs(job: Job, lrpra: array<RemoteArg>)
    requires job.Shape() && lrpra.Length == |job.lpra|
    modifies lrpra
    ensures forall i :: 0 <= i < lrpra.Length ==> lrpra[i] == Published(job, i)
    ensures forall i :: 0 <= i < lrpra.Length ==> lrpra[i].len == job.lpra[i].len
                                                  && lrpra[i].pv == if job.lpra[i].len == 0 then 0 else job.lpra[i].pv
  {
    for i := 0 to lrpra.Length
      invariant forall j :: 0 <= j < i ==> lrpra[j] == Published(job, j)
    {
      var len := job.lpra[i].len;
      lrpra[i] := RemoteArg(0, len);
      if len == 0 {
        continue;
      }
      lrpra[i] := RemoteArg(job.lpra[i].pv, len);
    }
  }

  function Published(job: Job, i: nat): RemoteArg
    requires i < |job.lpra|
  {
    RemoteArg(if job.lpra[i].len == 0 then 0 else job.lpra[i].pv, job.lpra[i].len)
  }

  /** The packed kernel buffer: `buf->virt`, `buf->phys` and its bytes. */
  datatype KernelBuf = KernelBuf(virt: int, phys: int, bytes: array<byte>)

  /** The buffer is page aligned and ends inside the address space, virtually and physically. */
  predicate Sited(kb: KernelBuf) {
    && 0 < kb.virt && kb.virt % PAGE_SIZE == 0 && kb.virt + kb.bytes.Length <= WORD
    && 0 <= kb.phys && kb.phys % PAGE_SIZE == 0 && kb.phys + kb.bytes.Length <= WORD
  }

  /** The packed address of entry k, a machine word. */
  function AddrOf(job: Job, kb: KernelBuf, k: nat): int
    requires job.Shape() && k < |job.es|
  {
    (kb.virt + job.PackedAt(k)) % WORD
  }

  predicate InBuffer(kb: KernelBuf, pv: int, len: int) {
    kb.virt <= pv && pv + len <= kb.virt + kb.bytes.Length
  }

  /** What the filling pass must have done for entry k. */
  ghost predicate Filled(job: Job, kb: KernelBuf, k: nat, lrpra: seq<RemoteArg>, pages: seq<Page>)
    requires job.Shape() && k < |job.es| && |lrpra| == |pages| == |job.lpra|
  {
    var i := job.es[k].raix;
    job.Packs(k) ==>
      && lrpra[i] == RemoteArg(AddrOf(job, kb, k), job.lpra[i].len)
      && pages[i] == Descriptor((kb.phys + job.PackedAt(k)) % WORD, AddrOf(job, kb, k), job.lpra[i].len)
  }

  /** The packed image of input entry k holds the user's bytes. */
  ghost predicate Imaged(job: Job, k: nat, cells: map<int, byte>, bytes: seq<byte>)
    requires job.Shape() && k < |job.es|
  {
    job.Packs(k) && job.es[k].raix < job.inbufs ==> Copy(job, k, cells, bytes)
  }

  ghost predicate Copy(job: Job, k: nat, cells: map<int, byte>, bytes: seq<byte>)
    requires job.Shape() && k < |job.es|
  {
    RangeIs(bytes, job.PackedAt(k), job.lpra[job.es[k].raix].len, cells, job.es[k].start - job.PackedAt(k))
  }

  /** Packed cells at .. at+len hold the user's bytes at distance `shift`. */
  ghost predicate RangeIs(bytes: seq<byte>, at: int, len: int, cells: map<int, byte>, shift: int) {
    0 <= at && at + len <= |bytes| && forall c :: at <= c < at + len ==> CellIs(bytes, c, cells, shift)
  }

  predicate CellIs(bytes: seq<byte>, c: int, cells: map<int, byte>, shift: int) {
    0 <= c < |bytes| && c + shift in cells && bytes[c] == cells[c + shift]
  }

  /** Nothing but the packed range of entry k differs. */
  ghost predicate OnlyRange(job: Job, k: nat, before: seq<byte>, after: seq<byte>)
    requires job.Shape() && k < |job.es|
  {
    var at, len := job.PackedAt(k), job.lpra[job.es[k].raix].len;
    |before| == |after| && forall c :: 0 <= c < |after| && !(at <= c < at + len) ==> after[c] == before[c]
  }

  /** Copying entry k in rewrites shared cells of an earlier image with the same bytes. */
  lemma ImageKept(job: Job, j: nat, k: nat, cells: map<int, byte>, before: seq<byte>, after: seq<byte>)
    requires job.Valid() && job.Fits() && j < |job.es| && k < |job.es| && job.Packs(k)
    requires Imaged(job, j, cells, before) && OnlyRange(job, k, before, after)
    requires after == before || Copy(job, k, cells, after)
    ensures Imaged(job, j, cells, after)
  {
    if job.Packs(j) && job.es[j].raix < job.inbufs && after != before {
      var at, len, shift := job.PackedAt(j), job.lpra[job.es[j].raix].len, job.es[j].start - job.PackedAt(j);
      var at', len', shift' := job.PackedAt(k), job.lpra[job.es[k].raix].len, job.es[k].start - job.PackedAt(k);
      forall c | at <= c < at + len ensures CellIs(after, c, cells, shift) {
        if at' <= c < at' + len' {
          PackedAliasing(job, j, c - at, k, c - at');
          assert Agrees(job, j, c - at, k, c - at');
          assert CellIs(after, c, cells, shift');
        } else {
          assert CellIs(before, c, cells, shift);
        }
      }
    }
  }

  ghost predicate Unreadable(job: Job, k: nat, cells: map<int, byte>)
    requires job.Shape() && k < |job.es|
  {
    job.Packs(k) && job.es[k].raix < job.inbufs && !Accessible(cells, job.es[k].start, job.lpra[job.es[k].raix].len)
  }

  /** Entry k is an input whose packed range is not in the buffer. */
  ghost predicate Leaves(job: Job, kb: KernelBuf, k: nat)
    requires job.Shape() && k < |job.es|
  {
    job.Packs(k) && job.es[k].raix < job.inbufs && !InBuffer(kb, AddrOf(job, kb, k), job.lpra[job.es[k].raix].len)
  }

  /** The filling pass ends at entry k. */
  ghost predicate Stops(job: Job, kb: KernelBuf, cells: map<int, byte>, k: nat)
    requires job.Shape() && k < |job.es|
  {
    Short(job, k) || Leaves(job, kb, k) || Unreadable(job, k, cells)
  }

  ghost predicate LeavesFirst(job: Job, kb: KernelBuf, cells: map<int, byte>, k: nat)
    requires job.Shape() && k < |job.es|
  {
    Leaves(job, kb, k) && !Short(job, k) && forall j :: 0 <= j < k ==> !Stops(job, kb, cells, j)
  }

  /** A buffer that holds a fitting layout holds every packed range, at a plain address. */
  lemma FittingStays(job: Job, kb: KernelBuf, k: nat)
    requires job.Valid() && job.Fits() && Sited(kb) && job.Size(|job.es|) <= kb.bytes.Length
    requires k < |job.es| && job.Packs(k)
    ensures AddrOf(job, kb, k) == kb.virt + job.PackedAt(k)
    ensures job.metalen <= job.PackedAt(k) && job.PackedAt(k) + job.lpra[job.es[k].raix].len <= job.Size(|job.es|)
    ensures !Leaves(job, kb, k) && !Short(job, k)
  {
    EndsInside(job, k);
    NeverShort(job, k);
    EntryFacts(job, k);
    assert job.Above(k);
  }

  /** Three separate allocations. */
  ghost predicate Separate(a: object, b: object, c: object) {
    a != b && b != c && a != c
  }

  lemma AlignShifts(virt: int, x: int)
    requires virt % BALIGN == 0
    ensures Align(virt + x) == virt + Align(x)
  {
    assert (virt + x + BALIGN - 1) / BALIGN == virt / BALIGN + (x + BALIGN - 1) / BALIGN;
  }

  /** The alignment step of the filling pass moves both words in step with the layout. */
  lemma AlignStep(virt: int, total: int, size: int, place: int, args: int, rlen: int, aligned: int)
    requires virt % BALIGN == 0 && args == (virt + size) % WORD && rlen == (total - size) % WORD
    requires place == Align(size) && aligned == AlignWord(args)
    ensures aligned == (virt + place) % WORD
    ensures (rlen - (aligned - args)) % WORD == (total - place) % WORD
  {
    AlignWraps(virt + size);
    AlignShifts(virt, size);
    RestAfter(virt, total, size, place, args, rlen, aligned);
  }

  lemma RestAfter(virt: int, total: int, size: int, place: int, args: int, rlen: int, aligned: int)
    requires args == (virt + size) % WORD && rlen == (total - size) % WORD && aligned == (virt + place) % WORD
    ensures (rlen - (aligned - args)) % WORD == (total - place) % WORD
  {
    AddWraps(total - size, aligned - args);
    SubWraps(total - size + args, virt + place);
    AddWraps(virt + size, total - size - virt - place);
  }

  /** The words the pass publishes. */
  lemma PublishedWords(virt: int, phys: int, total: int, place: int, offset: int, at: int, copylen: int, args: int, rlen: int)
    requires args == (virt + place) % WORD && rlen == (total - place) % WORD && copylen == total % WORD && at == place - offset
    ensures (args - offset) % WORD == (virt + at) % WORD
    ensures (phys - offset + (copylen - rlen)) % WORD == (phys + at) % WORD
  {
    AddWraps(virt + place, offset);
    SubWraps(phys - offset + copylen, total - place);
    AddWraps(total, phys - offset - total + place);
  }

  /** Aligns the first entry of a cluster. The layout's total, its size so far and the entry's
      place are only named here. */
  method AlignEntry(e: Over, virt: int, args0: int, rlen0: int, ghost total: int, ghost size: int, ghost place: int)
    returns (args: int, rlen: int)
    requires virt % BALIGN == 0 && place == Place(e, size)
    requires args0 == (virt + size) % WORD && rlen0 == (total - size) % WORD
    ensures args == (virt + place) % WORD && rlen == (total - place) % WORD
  {
    args, rlen := args0, rlen0;
    if e.offset == 0 {
      args := AlignWord(args0);
      AlignStep(virt, total, size, place, args0, rlen0, args);
      rlen := (rlen0 - (args - args0)) % WORD;
    }
  }

  /** Checks what is left and publishes the entry's address and pages, all in machine words. */
  method PublishEntry(job: Job, kb: KernelBuf, k: nat, copylen: int, args: int, rlen: int,
                      lrpra: array<RemoteArg>, pages: array<Page>, ghost total: int, ghost place: int)
    returns (err: bool)
    requires job.Valid() && k < |job.es| && job.Packs(k)
    requires total == job.Size(|job.es|) && place == Place(job.es[k], job.Size(k))
    requires copylen == total % WORD && args == (kb.virt + place) % WORD && rlen == (total - place) % WORD
    requires lrpra.Length == pages.Length == |job.lpra| && Separate(lrpra, pages, kb.bytes)
    modifies lrpra, pages
    ensures err <==> Short(job, k)
    ensures !err ==> Filled(job, kb, k, lrpra[..], pages[..])
    ensures forall i :: 0 <= i < lrpra.Length && (err || i != job.es[k].raix) ==> lrpra[i] == old(lrpra[i]) && pages[i] == old(pages[i])
  {
    var i, e := job.es[k].raix, job.es[k];
    var mlen := e.mend - e.mstart;
    err := !(rlen >= mlen);
    if !err {
      PublishedWords(kb.virt, kb.phys, total, place, e.offset, job.PackedAt(k), copylen, args, rlen);
      lrpra[i] := RemoteArg((args - e.offset) % WORD, job.lpra[i].len);
      pages[i] := Page(PageStart((kb.phys - e.offset + (copylen - rlen)) % WORD), NumPages(lrpra[i].pv, job.lpra[i].len) * PAGE_SIZE % WORD);
    }
  }

  /** Copies entry k in when it is an input, keeping the images of the entries before it. */
  method CopyEntryIn(job: Job, kb: KernelBuf, k: nat, buf: int, user: UserSpace) returns (out: Outcome)
    requires job.Valid() && k < |job.es| && job.Packs(k) && buf == AddrOf(job, kb, k)
    requires job.Fits() ==> Sited(kb) && job.Size(|job.es|) <= kb.bytes.Length
                            && forall j :: 0 <= j < k ==> Imaged(job, j, user.cells, kb.bytes[..])
    modifies kb.bytes
    ensures out == Outside <==> Leaves(job, kb, k)
    ensures out == Failed <==> !Leaves(job, kb, k) && Unreadable(job, k, user.cells)
    ensures job.Fits() ==> OnlyRange(job, k, old(kb.bytes[..]), kb.bytes[..])
    ensures job.Fits() && out == Done ==> forall j :: 0 <= j <= k ==> Imaged(job, j, user.cells, kb.bytes[..])
  {
    var i := job.es[k].raix;
    if i >= job.inbufs {
      return Done;
    }
    if !InBuffer(kb, buf, job.lpra[i].len) {
      return Outside;
    }
    ghost var before := kb.bytes[..];
    EntryFacts(job, k);
    if job.Fits() {
      FittingStays(job, kb, k);
    }
    var err := user.CopyFrom(kb.bytes, buf - kb.virt, job.lpra[i].pv, job.lpra[i].len);
    if job.Fits() && !err {
      assert Copy(job, k, user.cells, kb.bytes[..]);
      forall j | 0 <= j < k ensures Imaged(job, j, user.cells, kb.bytes[..]) {
        ImageKept(job, j, k, user.cells, before, kb.bytes[..]);
      }
    }
    out := if err then Failed else Done;
  }

  /** Arguments that are not copied keep what the first publication gave them. */
  predicate OthersKept(job: Job, before: seq<RemoteArg>, after: seq<RemoteArg>)
    requires |job.mapped| == |job.lpra|
  {
    |before| == |after| == |job.lpra| && forall i :: 0 <= i < |after| && !job.Copied(i) ==> after[i] == before[i]
  }

  /** One round of the filling pass for an entry it packs, up to the advance. */
  method FillPacked(job: Job, kb: KernelBuf, k: nat, copylen: int, args0: int, rlen0: int, user: UserSpace,
                    lrpra: array<RemoteArg>, pages: array<Page>, ghost total: int, ghost size: int, ghost place: int)
    returns (out: Outcome, args: int, rlen: int)
    requires job.Valid() && k < |job.es| && job.Packs(k)
    requires total == job.Size(|job.es|) && size == job.Size(k) && place == Place(job.es[k], size)
    requires Sited(kb) && copylen == total % WORD <= kb.bytes.Length
    requires lrpra.Length == pages.Length == |job.lpra| && Separate(lrpra, pages, kb.bytes)
    requires args0 == (kb.virt + size) % WORD && rlen0 == (total - size) % WORD
    requires forall j :: 0 <= j < k ==> Filled(job, kb, j, lrpra[..], pages[..])
    requires job.Fits() ==> forall j :: 0 <= j < k ==> Imaged(job, j, user.cells, kb.bytes[..])
    modifies lrpra, pages, kb.bytes
    ensures out == Done <==> !Stops(job, kb, user.cells, k)
    ensures out == Outside <==> Leaves(job, kb, k) && !Short(job, k)
    ensures args == (kb.virt + place) % WORD && rlen == (total - place) % WORD
    ensures out == Done ==> forall j :: 0 <= j <= k ==> Filled(job, kb, j, lrpra[..], pages[..])
    ensures job.Fits() && out == Done ==> forall j :: 0 <= j <= k ==> Imaged(job, j, user.cells, kb.bytes[..])
    ensures job.Fits() ==> MetaKept(job, old(kb.bytes[..]), kb.bytes[..])
    ensures OthersKept(job, old(lrpra[..]), lrpra[..])
  {
    var i := job.es[k].raix;
    ghost var args1, pages1, before := lrpra[..], pages[..], kb.bytes[..];
    args, rlen := AlignEntry(job.es[k], kb.virt, args0, rlen0, total, size, place);
    var err := PublishEntry(job, kb, k, copylen, args, rlen, lrpra, pages, total, place);
    if err {
      return Failed, args, rlen;
    }
    OthersStayFilled(job, kb, k, args1, pages1, lrpra[..], pages[..]);
    assert Filled(job, kb, k, lrpra[..], pages[..]);
    out := CopyEntryIn(job, kb, k, lrpra[i].pv, user);
    if job.Fits() {
      MetaUntouched(job, k, before, before, kb.bytes[..]);
    }
  }

  /** One round of the filling pass; empty and mapped arguments are skipped. */
  method FillEntry(job: Job, kb: KernelBuf, k: nat, copylen: int, args0: int, rlen0: int, user: UserSpace,
                   lrpra: array<RemoteArg>, pages: array<Page>, ghost total: int, ghost size: int, ghost next: int)
    returns (out: Outcome, args: int, rlen: int)
    requires job.Valid() && k < |job.es|
    requires total == job.Size(|job.es|) && size == job.Size(k) && next == job.Size(k + 1)
    requires Sited(kb) && copylen == total % WORD <= kb.bytes.Length
    requires lrpra.Length == pages.Length == |job.lpra| && Separate(lrpra, pages, kb.bytes)
    requires args0 == (kb.virt + size) % WORD && rlen0 == (total - size) % WORD
    requires forall j :: 0 <= j < k ==> Filled(job, kb, j, lrpra[..], pages[..])
    requires job.Fits() ==> forall j :: 0 <= j < k ==> Imaged(job, j, user.cells, kb.bytes[..])
    modifies lrpra, pages, kb.bytes
    ensures out == Done <==> !Stops(job, kb, user.cells, k)
    ensures out == Outside <==> Leaves(job, kb, k) && !Short(job, k)
    ensures out == Done ==> args == (kb.virt + next) % WORD && rlen == (total - next) % WORD
    ensures out == Done ==> forall j :: 0 <= j <= k ==> Filled(job, kb, j, lrpra[..], pages[..])
    ensures job.Fits() && out == Done ==> forall j :: 0 <= j <= k ==> Imaged(job, j, user.cells, kb.bytes[..])
    ensures job.Fits() ==> MetaKept(job, old(kb.bytes[..]), kb.bytes[..])
    ensures OthersKept(job, old(lrpra[..]), lrpra[..])
  {
    var i := job.es[k].raix;
    if job.lpra[i].len == 0 || job.mapped[i] {
      return Done, args0, rlen0;
    }
    ghost var place := Place(job.es[k], size);
    out, args, rlen := FillPacked(job, kb, k, copylen, args0, rlen0, user, lrpra, pages, total, size, place);
    if out == Done {
      var mlen := job.es[k].mend - job.es[k].mstart;
      args, rlen := Advance(kb.virt, args, rlen, mlen, total, place, next);
    }
  }

  method Advance(virt: int, args0: int, rlen0: int, mlen: int, ghost total: int, ghost place: int, ghost next: int)
    returns (args: int, rlen: int)
    requires args0 == (virt + place) % WORD && rlen0 == (total - place) % WORD && next == place + mlen
    ensures args == (virt + next) % WORD && rlen == (total - next) % WORD
  {
    AddWraps(virt + place, mlen);
    AddWraps(total - place, mlen);
    args, rlen := (args0 + mlen) % WORD, (rlen0 - mlen) % WORD;
  }

  /** The first stop decides how the pass ends. */
  lemma FirstStopDecides(job: Job, kb: KernelBuf, cells: map<int, byte>, n: nat)
    requires job.Shape() && n < |job.es| && (forall j :: 0 <= j < n ==> !Stops(job, kb, cells, j)) && Stops(job, kb, cells, n)
    ensures (exists k :: 0 <= k < |job.es| && LeavesFirst(job, kb, cells, k)) <==> Leaves(job, kb, n) && !Short(job, n)
  {
    if Leaves(job, kb, n) && !Short(job, n) {
      assert LeavesFirst(job, kb, cells, n);
    }
    forall k | 0 <= k < |job.es| && LeavesFirst(job, kb, cells, k) ensures k == n {
      assert Stops(job, kb, cells, k);
    }
  }

  lemma NoStopLeaves(job: Job, kb: KernelBuf, cells: map<int, byte>)
    requires job.Shape()
    ensures forall k :: 0 <= k < |job.es| && LeavesFirst(job, kb, cells, k) ==> Stops(job, kb, cells, k)
  {
  }

  /** The loop of the filling pass, up to the entry n at which it ends. */
  method FillLoop(job: Job, kb: KernelBuf, copylen: int, user: UserSpace,
                  lrpra: array<RemoteArg>, pages: array<Page>)
    returns (out: Outcome, rlen: int, ghost n: nat)
    requires job.Valid() && Sited(kb) && copylen == job.Size(|job.es|) % WORD <= kb.bytes.Length
    requires lrpra.Length == pages.Length == |job.lpra| && Separate(lrpra, pages, kb.bytes)
    modifies lrpra, pages, kb.bytes
    ensures n <= |job.es| && (out == Done <==> n == |job.es|) && forall k :: 0 <= k < n ==> !Stops(job, kb, user.cells, k)
    ensures n < |job.es| ==> Stops(job, kb, user.cells, n) && (out == Outside <==> Leaves(job, kb, n) && !Short(job, n))
    ensures out == Done ==> rlen == 0
    ensures out == Done ==> forall k :: 0 <= k < n ==> Filled(job, kb, k, lrpra[..], pages[..])
    ensures out == Done && job.Fits() ==> forall k :: 0 <= k < n ==> Imaged(job, k, user.cells, kb.bytes[..])
    ensures OthersKept(job, old(lrpra[..]), lrpra[..])
    ensures job.Fits() ==> MetaKept(job, old(kb.bytes[..]), kb.bytes[..])
  {
    var args := (kb.virt + job.metalen) % WORD;
    AddWraps(job.Size(|job.es|), job.metalen);
    rlen := (copylen - job.metalen) % WORD;
    for oix := 0 to |job.es|
      invariant args == (kb.virt + job.Size(oix)) % WORD && rlen == (job.Size(|job.es|) - job.Size(oix)) % WORD
      invariant forall k :: 0 <= k < oix ==> Filled(job, kb, k, lrpra[..], pages[..])
      invariant job.Fits() ==> forall k :: 0 <= k < oix ==> Imaged(job, k, user.cells, kb.bytes[..])
      invariant forall k :: 0 <= k < oix ==> !Stops(job, kb, user.cells, k)
      invariant OthersKept(job, old(lrpra[..]), lrpra[..])
      invariant job.Fits() ==> MetaKept(job, old(kb.bytes[..]), kb.bytes[..])
    {
      out, args, rlen := FillEntry(job, kb, oix, copylen, args, rlen, user, lrpra, pages,
                                   job.Size(|job.es|), job.Size(oix), job.Size(oix + 1));
      if out != Done {
        return out, rlen, oix;
      }
    }
    return Done, rlen, |job.es|;
  }

  /** The filling pass. */
  method FillArgs(job: Job, kb: KernelBuf, copylen: int, user: UserSpace,
                  lrpra: array<RemoteArg>, pages: array<Page>)
    returns (out: Outcome, rlen: int)
    requires job.Valid() && Sited(kb) && copylen == job.Size(|job.es|) % WORD <= kb.bytes.Length
    requires lrpra.Length == pages.Length == |job.lpra| && Separate(lrpra, pages, kb.bytes)
    modifies lrpra, pages, kb.bytes
    ensures out == Done <==> forall k :: 0 <= k < |job.es| ==> !Stops(job, kb, user.cells, k)
    ensures out == Outside <==> exists k :: 0 <= k < |job.es| && LeavesFirst(job, kb, user.cells, k)
    ensures out == Done ==> rlen == 0
    ensures out == Done ==> forall k :: 0 <= k < |job.es| ==> Filled(job, kb, k, lrpra[..], pages[..])
    ensures out == Done && job.Fits() ==> forall k :: 0 <= k < |job.es| ==> Imaged(job, k, user.cells, kb.bytes[..])
    ensures OthersKept(job, old(lrpra[..]), lrpra[..])
    ensures job.Fits() ==> MetaKept(job, old(kb.bytes[..]), kb.bytes[..])
  {
    ghost var n;
    out, rlen, n := FillLoop(job, kb, copylen, user, lrpra, pages);
    if n < |job.es| {
      FirstStopDecides(job, kb, user.cells, n);
    } else {
      NoStopLeaves(job, kb, user.cells);
    }
  }

  ghost predicate MetaKept(job: Job, before: seq<byte>, after: seq<byte>) {
    |before| == |after| && forall c :: 0 <= c < job.metalen && c < |after| ==> after[c] == before[c]
  }

  lemma MetaUntouched(job: Job, k: nat, first: seq<byte>, before: seq<byte>, after: seq<byte>)
    requires job.Valid() && job.Fits() && k < |job.es| && job.Packs(k)
    requires MetaKept(job, first, before) && OnlyRange(job, k, before, after)
    ensures MetaKept(job, first, after)
  {
    assert job.Above(k);
  }

  lemma OthersStayFilled(job: Job, kb: KernelBuf, k: nat, args0: seq<RemoteArg>, pages0: seq<Page>,
                         args1: seq<RemoteArg>, pages1: seq<Page>)
    requires job.Valid() && k < |job.es|
    requires |args0| == |pages0| == |args1| == |pages1| == |job.lpra|
    requires forall j :: 0 <= j < k ==> Filled(job, kb, j, args0, pages0)
    requires forall i :: 0 <= i < |args1| && i != job.es[k].raix ==> args1[i] == args0[i] && pages1[i] == pages0[i]
    ensures forall j :: 0 <= j < k ==> Filled(job, kb, j, args1, pages1)
  {
    forall j | 0 <= j < k ensures Filled(job, kb, j, args1, pages1) {
      assert Distinct(job.es, j, k) && Filled(job, kb, j, args0, pages0);
    }
  }

  // ---- the user's view of both directions ---------------------------------------------

  function Addresses(lrpra: seq<RemoteArg>): (pvs: seq<int>)
    ensures |pvs| == |lrpra| && forall i :: 0 <= i < |pvs| ==> pvs[i] == lrpra[i].pv
  {
    seq(|lrpra|, i requires 0 <= i < |lrpra| => lrpra[i].pv)
  }

  /** Copied argument i reads the same at its user address and at its packed address. */
  ghost predicate Mirrors(job: Job, virt: int, pvs: seq<int>, i: nat, bytes: seq<byte>, cells: map<int, byte>)
    requires |job.mapped| == |job.lpra| == |pvs| && i < |job.lpra|
  {
    job.Copied(i) ==> RangeIs(bytes, pvs[i] - virt, job.lpra[i].len, cells, job.lpra[i].pv - (pvs[i] - virt))
  }

  lemma FilledForUser(job: Job, kb: KernelBuf, lrpra: seq<RemoteArg>, pages: seq<Page>)
    requires job.Valid() && |lrpra| == |pages| == |job.lpra|
    requires forall k :: 0 <= k < |job.es| ==> Filled(job, kb, k, lrpra, pages)
    ensures PlacedAt(job, kb.virt, Addresses(lrpra))
    ensures forall i :: 0 <= i < |job.lpra| && job.Copied(i) ==> Described(job, kb, i, lrpra[i], pages[i])
  {
    forall k | 0 <= k < |job.es| && job.Packs(k)
      ensures Addresses(lrpra)[job.es[k].raix] == (kb.virt + job.PackedAt(k)) % WORD
    {
      assert Filled(job, kb, k, lrpra, pages);
    }
    forall i | 0 <= i < |job.lpra| && job.Copied(i) ensures Described(job, kb, i, lrpra[i], pages[i]) {
      var k := EveryBufferListed(job.lpra, job.es, i);
      assert Filled(job, kb, k, lrpra, pages);
      AddWraps(kb.virt + job.PackedAt(k), kb.phys - kb.virt);
    }
  }

  lemma ImagedForUser(job: Job, kb: KernelBuf, pvs: seq<int>, bytes: seq<byte>, cells: map<int, byte>)
    requires job.Valid() && job.Fits() && Sited(kb) && job.Size(|job.es|) <= kb.bytes.Length
    requires PlacedAt(job, kb.virt, pvs) && forall k :: 0 <= k < |job.es| ==> Imaged(job, k, cells, bytes)
    ensures forall i :: 0 <= i < job.inbufs ==> Mirrors(job, kb.virt, pvs, i, bytes, cells)
  {
    forall i | 0 <= i < job.inbufs ensures Mirrors(job, kb.virt, pvs, i, bytes, cells) {
      if job.Copied(i) {
        var k := EveryBufferListed(job.lpra, job.es, i);
        FittingStays(job, kb, k);
        assert Imaged(job, k, cells, bytes);
      }
    }
  }

  /** Argument i has its length and the page descriptor of its physical image. */
  predicate Described(job: Job, kb: KernelBuf, i: nat, arg: RemoteArg, page: Page)
    requires i < |job.lpra|
  {
    arg.len == job.lpra[i].len && page == Descriptor((kb.phys + (arg.pv - kb.virt)) % WORD, arg.pv, arg.len)
  }

  /** In a buffer that holds a fitting layout, an argument's page descriptor is the least cover
      of its physical image. */
  lemma PagesAreLeast(job: Job, kb: KernelBuf, i: nat, arg: RemoteArg, page: Page, pvs: seq<int>)
    requires job.Valid() && job.Fits() && Sited(kb) && job.Size(|job.es|) <= kb.bytes.Length
    requires PlacedAt(job, kb.virt, pvs) && i < |job.lpra| && job.Copied(i) && arg.pv == pvs[i] && Described(job, kb, i, arg, page)
    ensures LeastCover(page, kb.phys + (arg.pv - kb.virt), arg.len)
  {
    PlacedInBounds(job, kb.virt, pvs, i);
    PageIsLeast(kb, arg, page);
  }

  lemma PageIsLeast(kb: KernelBuf, arg: RemoteArg, page: Page)
    requires Sited(kb) && arg.len > 0 && InBuffer(kb, arg.pv, arg.len)
    requires page == Descriptor((kb.phys + (arg.pv - kb.virt)) % WORD, arg.pv, arg.len)
    ensures LeastCover(page, kb.phys + (arg.pv - kb.virt), arg.len)
  {
    ModUnique(kb.phys + (arg.pv - kb.virt), 0, kb.phys + (arg.pv - kb.virt));
    DescriptorIsLeast(kb.virt, kb.phys, arg.pv, arg.len);
  }

  /** The sizing pass succeeds and the buffer holds its total. */
  ghost predicate Sized(job: Job, kb: KernelBuf)
    requires job.Shape()
  {
    (forall k :: 0 <= k < |job.es| ==> !TooLong(job, k)) && job.Size(|job.es|) % WORD <= kb.bytes.Length
  }

  /** The packing part of get_args: sizing pass, initial publication and filling pass. A
      buffer shorter than the computed total stands for the failed allocation. */
  method PackArgs(job: Job, kb: KernelBuf, user: UserSpace, lrpra: array<RemoteArg>, pages: array<Page>)
    returns (out: Outcome, rlen: int)
    requires job.Valid() && Sited(kb)
    requires lrpra.Length == pages.Length == |job.lpra| && Separate(lrpra, pages, kb.bytes)
    modifies lrpra, pages, kb.bytes
    ensures out == Done <==> Sized(job, kb) && forall k :: 0 <= k < |job.es| ==> !Stops(job, kb, user.cells, k)
    ensures out == Outside <==> Sized(job, kb) && exists k :: 0 <= k < |job.es| && LeavesFirst(job, kb, user.cells, k)
    ensures job.Fits() ==>
              (out == Done <==> Sized(job, kb) && forall k :: 0 <= k < |job.es| ==> !Unreadable(job, k, user.cells))
              && out != Outside
    ensures out == Done ==> rlen == 0 && PlacedAt(job, kb.virt, Addresses(lrpra[..]))
    ensures out == Done ==> forall i :: 0 <= i < |job.lpra| ==>
                       if job.Copied(i) then Described(job, kb, i, lrpra[i], pages[i]) else lrpra[i] == Published(job, i)
    ensures out == Done ==> forall i :: 0 <= i < |job.lpra| && !job.Copied(i) ==>
                       lrpra[i].len == job.lpra[i].len && lrpra[i].pv == if job.lpra[i].len == 0 then 0 else job.lpra[i].pv
    ensures out == Done && job.Fits() ==> forall i :: 0 <= i < |job.lpra| && job.Copied(i) ==>
                       LeastCover(pages[i], kb.phys + (lrpra[i].pv - kb.virt), job.lpra[i].len)
    ensures out == Done && job.Fits() ==> forall i :: 0 <= i < job.inbufs ==>
                       Mirrors(job, kb.virt, Addresses(lrpra[..]), i, kb.bytes[..], user.cells)
    ensures job.Fits() ==> MetaKept(job, old(kb.bytes[..]), kb.bytes[..])
  {
    rlen := 0;
    var err, copylen := SizeArgs(job);
    if err || copylen > kb.bytes.Length {
      return Failed, rlen;
    }
    if job.Fits() {
      FittingNeverStops(job, kb, user.cells);
    }
    InitArgs(job, lrpra);
    ghost var first := lrpra[..];
    out, rlen := FillArgs(job, kb, copylen, user, lrpra, pages);
    if out == Done {
      FilledForUser(job, kb, lrpra[..], pages[..]);
      assert OthersKept(job, first, lrpra[..]);
      if job.Fits() {
        ImagedForUser(job, kb, Addresses(lrpra[..]), kb.bytes[..], user.cells);
        forall i | 0 <= i < |job.lpra| && job.Copied(i)
          ensures LeastCover(pages[i], kb.phys + (lrpra[i].pv - kb.virt), job.lpra[i].len)
        {
          PagesAreLeast(job, kb, i, lrpra[i], pages[i], Addresses(lrpra[..]));
        }
      }
    }
  }

  /** A fitting layout stops at unreadable memory only. */
  lemma FittingNeverStops(job: Job, kb: KernelBuf, cells: map<int, byte>)
    requires job.Valid() && job.Fits() && Sited(kb) && job.Size(|job.es|) <= kb.bytes.Length
    ensures forall k :: 0 <= k < |job.es| ==> (Stops(job, kb, cells, k) <==> Unreadable(job, k, cells))
    ensures forall k :: 0 <= k < |job.es| ==> !LeavesFirst(job, kb, cells, k)
  {
    forall k | 0 <= k < |job.es| ensures !Leaves(job, kb, k) && !Short(job, k) {
      if job.Packs(k) {
        FittingStays(job, kb, k);
      }
    }
  }

  /** A layout larger than a word can get through: both passes succeed with a buffer of 511
      bytes, and the first argument is published at byte 512 of it. */
  lemma WrappedTotalGetsThrough(kb: KernelBuf, cells: map<int, byte>) returns (job: Job)
    requires Sited(kb) && kb.bytes.Length >= 511
    ensures job.Valid() && job.Faithful() && job.AllAbove() && Sized(job, kb) && job.Size(|job.es|) % WORD == 511
    ensures forall k :: 0 <= k < |job.es| ==> !Stops(job, kb, cells, k)
    ensures |job.es| == 2 && job.Packs(0) && AddrOf(job, kb, 0) == (kb.virt + 512) % WORD && !InBounds(job)
  {
    job := WrappedTotal();
    JoiningIsFaithful(job);
    assert !InBoundsAt(job, 0);
  }

  /** So can the layout whose user bytes 0 and 2^64 - 255 are published at one address. */
  lemma WrappedAliasingGetsThrough(kb: KernelBuf, cells: map<int, byte>) returns (job: Job)
    requires Sited(kb) && kb.bytes.Length >= 700
    ensures job.Valid() && job.Faithful() && job.AllAbove() && Sized(job, kb) && job.Size(|job.es|) % WORD == 700
    ensures forall k :: 0 <= k < |job.es| ==> !Stops(job, kb, cells, k)
    ensures !WordFaithful(job)
  {
    job := WrappedAliasing();
    JoiningIsFaithful(job);
  }
}
