/** The copying part of put_args (android/adsprpc.c:1750-1757): results go back from the packed
    buffer to the user. */
module CopyBack {
  import opened Basics
  import opened Overlap
  import opened OverlapUnion
  import opened Packing
  import opened PackedWords
  import opened Marshal

  /** Only the bytes of user buffer b differ. */
  ghost predicate OnlyBuffer(b: Buf, before: map<int, byte>, after: map<int, byte>) {
    after.Keys == before.Keys && forall x :: x in after && !Holds(b, x) ==> after[x] == before[x]
  }

  /** A user byte of two copied arguments has one packed address. */
  lemma SharedCell(job: Job, virt: int, pvs: seq<int>, j: nat, i: nat, x: int)
    requires job.Valid() && job.Fits() && PlacedAt(job, virt, pvs) && 0 <= virt && virt + job.Size(|job.es|) <= WORD
    requires i < |job.lpra| && j < |job.lpra| && job.Copied(i) && job.Copied(j)
    requires Holds(job.lpra[i], x) && Holds(job.lpra[j], x)
    ensures pvs[j] + (x - job.lpra[j].pv) == pvs[i] + (x - job.lpra[i].pv)
  {
    var b, a := x - job.lpra[j].pv, x - job.lpra[i].pv;
    SmallIsWordFaithful(job);
    AliasingPreserved(job, virt, pvs, j, b, i, a);
    assert SameByte(job, pvs, j, b, i, a);
    PlacedInBounds(job, virt, pvs, j);
    PlacedInBounds(job, virt, pvs, i);
  }

  /** Copying argument i back rewrites bytes shared with argument j with the same values. */
  lemma MirrorKept(job: Job, virt: int, pvs: seq<int>, j: nat, i: nat, bytes: seq<byte>,
                   before: map<int, byte>, after: map<int, byte>)
    requires job.Valid() && job.Fits() && PlacedAt(job, virt, pvs) && 0 <= virt && virt + job.Size(|job.es|) <= WORD
    requires i < |job.lpra| && j < |job.lpra| && (job.lpra[i].len == 0 || job.Copied(i))
    requires Mirrors(job, virt, pvs, j, bytes, before) && OnlyBuffer(job.lpra[i], before, after)
    requires Mirrors(job, virt, pvs, i, bytes, after)
    ensures Mirrors(job, virt, pvs, j, bytes, after)
  {
    if job.Copied(j) {
      var at, len, shift := pvs[j] - virt, job.lpra[j].len, job.lpra[j].pv - (pvs[j] - virt);
      var shift' := job.lpra[i].pv - (pvs[i] - virt);
      forall c | at <= c < at + len ensures CellIs(bytes, c, after, shift) {
        assert CellIs(bytes, c, before, shift);
        var x := c + shift;
        if Holds(job.lpra[i], x) {
          SharedCell(job, virt, pvs, j, i, x);
          assert CellIs(bytes, c, after, shift');
        }
      }
    }
  }

  lemma MirrorsKept(job: Job, virt: int, pvs: seq<int>, i: nat, bytes: seq<byte>, before: map<int, byte>, after: map<int, byte>)
    requires job.Valid() && job.Fits() && PlacedAt(job, virt, pvs) && 0 <= virt && virt + job.Size(|job.es|) <= WORD
    requires i < |job.lpra| && (job.lpra[i].len == 0 || job.Copied(i))
    requires forall j :: job.inbufs <= j < i ==> Mirrors(job, virt, pvs, j, bytes, before)
    requires OnlyBuffer(job.lpra[i], before, after) && Mirrors(job, virt, pvs, i, bytes, after)
    ensures forall j :: job.inbufs <= j <= i ==> Mirrors(job, virt, pvs, j, bytes, after)
  {
    forall j | job.inbufs <= j < i ensures Mirrors(job, virt, pvs, j, bytes, after) {
      MirrorKept(job, virt, pvs, j, i, bytes, before, after);
    }
  }

  ghost predicate InOutput(job: Job, x: int)
    requires |job.mapped| == |job.lpra|
  {
    exists i :: job.inbufs <= i < |job.lpra| && job.Copied(i) && Holds(job.lpra[i], x)
  }

  /** The whole effect of a successful copy-back: outputs mirror their packed images and
      nothing else changes. */
  ghost predicate CopiedBack(job: Job, virt: int, pvs: seq<int>, bytes: seq<byte>, before: map<int, byte>, after: map<int, byte>)
    requires |job.mapped| == |job.lpra| == |pvs|
  {
    && after.Keys == before.Keys
    && (forall i :: job.inbufs <= i < |job.lpra| ==> Mirrors(job, virt, pvs, i, bytes, after))
    && (forall x :: x in after && !InOutput(job, x) ==> after[x] == before[x])
  }

  /** Output i's published range is not in the buffer. */
  predicate Strays(job: Job, kb: KernelBuf, pvs: seq<int>, i: nat)
    requires |job.mapped| == |job.lpra| == |pvs| && i < |job.lpra|
  {
    job.Copied(i) && !InBuffer(kb, pvs[i], job.lpra[i].len)
  }

  ghost predicate StraysFirst(job: Job, kb: KernelBuf, pvs: seq<int>, cells: map<int, byte>, i: nat)
    requires |job.mapped| == |job.lpra| == |pvs| && i < |job.lpra|
  {
    Strays(job, kb, pvs, i)
    && forall j :: job.inbufs <= j < i ==> !Strays(job, kb, pvs, j) && !Unwritable(job, j, cells)
  }

  /** The copying part of put_args, working from the kernel's own copy of the arguments. */
  method PutArgs(job: Job, kb: KernelBuf, user: UserSpace, lrpra: seq<RemoteArg>) returns (out: Outcome)
    requires job.Valid() && Sited(kb) && PlacedAt(job, kb.virt, Addresses(lrpra))
    requires forall i :: 0 <= i < |lrpra| ==> lrpra[i].len == job.lpra[i].len
    requires job.Size(|job.es|) % WORD <= kb.bytes.Length
    modifies user
    ensures out == Done <==> forall i :: job.inbufs <= i < |job.lpra| ==>
                               !Strays(job, kb, Addresses(lrpra), i) && !Unwritable(job, i, old(user.cells))
    ensures out == Outside <==> exists i :: job.inbufs <= i < |job.lpra| && StraysFirst(job, kb, Addresses(lrpra), old(user.cells), i)
    ensures job.Fits() ==> out != Outside
    ensures out == Done && job.Fits() ==>
              CopiedBack(job, kb.virt, Addresses(lrpra), kb.bytes[..], old(user.cells), user.cells)
  {
    ghost var pvs, bytes, first := Addresses(lrpra), kb.bytes[..], user.cells;
    if job.Fits() {
      FittingKeepsOutputs(job, kb, pvs);
    }
    for i := job.inbufs to |job.lpra|
      invariant user.cells.Keys == first.Keys && kb.bytes[..] == bytes
      invariant job.Fits() ==> forall j :: job.inbufs <= j < i ==> Mirrors(job, kb.virt, pvs, j, bytes, user.cells)
      invariant forall j :: job.inbufs <= j < i ==> !Strays(job, kb, pvs, j) && !Unwritable(job, j, first)
      invariant forall x :: x in first && !InOutput(job, x) ==> user.cells[x] == first[x]
    {
      if !job.mapped[i] {
        ghost var before := user.cells;
        out := CopyArgOut(job, kb, user, lrpra, i);
        if out != Done {
          assert out == Outside ==> StraysFirst(job, kb, pvs, first, i);
          assert out == Failed ==> Unwritable(job, i, first) && !Strays(job, kb, pvs, i);
          return;
        }
        if job.Fits() {
          MirrorsKept(job, kb.virt, pvs, i, bytes, before, user.cells);
        }
      }
    }
    out := Done;
  }

  lemma FittingKeepsOutputs(job: Job, kb: KernelBuf, pvs: seq<int>)
    requires job.Valid() && job.Fits() && Sited(kb) && job.Size(|job.es|) <= kb.bytes.Length
    requires PlacedAt(job, kb.virt, pvs)
    ensures forall i :: 0 <= i < |job.lpra| ==> !Strays(job, kb, pvs, i)
  {
    forall i | 0 <= i < |job.lpra| && job.Copied(i) ensures InBuffer(kb, pvs[i], job.lpra[i].len) {
      PlacedInBounds(job, kb.virt, pvs, i);
    }
  }

  method CopyArgOut(job: Job, kb: KernelBuf, user: UserSpace, lrpra: seq<RemoteArg>, i: nat) returns (out: Outcome)
    requires |lrpra| == |job.lpra| == |job.mapped|
    requires i < |job.lpra| && !job.mapped[i] && lrpra[i].len == job.lpra[i].len
    modifies user
    ensures out == Outside <==> Strays(job, kb, Addresses(lrpra), i)
    ensures out == Failed <==> !Strays(job, kb, Addresses(lrpra), i) && Unwritable(job, i, old(user.cells))
    ensures user.cells.Keys == old(user.cells).Keys
    ensures out == Done ==> OnlyBuffer(job.lpra[i], old(user.cells), user.cells)
    ensures out == Done ==> Mirrors(job, kb.virt, Addresses(lrpra), i, kb.bytes[..], user.cells)
  {
    if job.lpra[i].len != 0 && !InBuffer(kb, lrpra[i].pv, lrpra[i].len) {
      return Outside;
    }
    var err := user.CopyTo(job.lpra[i].pv, kb.bytes, lrpra[i].pv - kb.virt, lrpra[i].len);
    out := if err then Failed else Done;
  }

  ghost predicate Unwritable(job: Job, i: nat, cells: map<int, byte>)
    requires |job.mapped| == |job.lpra| && i < |job.lpra|
  {
    !job.mapped[i] && !Accessible(cells, job.lpra[i].pv, job.lpra[i].len)
  }

  /** The copy-back leaves no choice: in whatever order the overlapping outputs are written,
      user memory ends up the same. */
  lemma CopyBackIsDetermined(job: Job, virt: int, pvs: seq<int>, bytes: seq<byte>,
                             before: map<int, byte>, one: map<int, byte>, other: map<int, byte>)
    requires |job.mapped| == |job.lpra| == |pvs|
    requires CopiedBack(job, virt, pvs, bytes, before, one) && CopiedBack(job, virt, pvs, bytes, before, other)
    ensures one == other
  {
    forall x | x in one ensures one[x] == other[x] {
      if InOutput(job, x) {
        var i :| job.inbufs <= i < |job.lpra| && job.Copied(i) && Holds(job.lpra[i], x);
        var shift := job.lpra[i].pv - (pvs[i] - virt);
        assert Mirrors(job, virt, pvs, i, bytes, one) && Mirrors(job, virt, pvs, i, bytes, other);
        assert CellIs(bytes, x - shift, one, shift) && CellIs(bytes, x - shift, other, shift);
      }
    }
  }

  // ---- in any order ---------------------------------------------------------------------

  /** One copy of argument i back to the user. */
  function CopyOut(job: Job, virt: int, pvs: seq<int>, bytes: seq<byte>, i: nat, cells: map<int, byte>): map<int, byte>
    requires i < |job.lpra| == |pvs|
  {
    map x | x in cells :: var c := pvs[i] - virt + (x - job.lpra[i].pv);
                          if Holds(job.lpra[i], x) && 0 <= c < |bytes| then bytes[c] else cells[x]
  }

  /** Copies in the order of a list. */
  function CopyOuts(job: Job, virt: int, pvs: seq<int>, bytes: seq<byte>, l: seq<nat>, cells: map<int, byte>): map<int, byte>
    requires |job.lpra| == |pvs| && forall n :: 0 <= n < |l| ==> l[n] < |pvs|
  {
    if l == [] then cells
    else CopyOut(job, virt, pvs, bytes, l[|l| - 1], CopyOuts(job, virt, pvs, bytes, l[..|l| - 1], cells))
  }

  /** The list goes over the unmapped outputs, each at least once, in any order. */
  ghost predicate ListsOutputs(job: Job, l: seq<nat>)
    requires |job.mapped| == |job.lpra|
  {
    && (forall n :: 0 <= n < |l| ==> l[n] < |job.lpra| && IsOutput(job, l[n]))
    && (forall i :: IsOutput(job, i) ==> i in l)
  }

  predicate IsOutput(job: Job, i: nat)
    requires |job.mapped| == |job.lpra|
  {
    job.inbufs <= i < |job.lpra| && job.Copied(i)
  }

  ghost predicate Writable(job: Job, cells: map<int, byte>)
    requires |job.mapped| == |job.lpra|
  {
    forall i :: job.inbufs <= i < |job.lpra| ==> !Unwritable(job, i, cells)
  }

  lemma CopyOutMirrors(job: Job, kb: KernelBuf, pvs: seq<int>, bytes: seq<byte>, i: nat, cells: map<int, byte>)
    requires job.Valid() && job.Fits() && Sited(kb) && job.Size(|job.es|) <= |bytes| == kb.bytes.Length
    requires PlacedAt(job, kb.virt, pvs) && job.inbufs <= i < |job.lpra| && job.Copied(i) && !Unwritable(job, i, cells)
    ensures var after := CopyOut(job, kb.virt, pvs, bytes, i, cells);
            OnlyBuffer(job.lpra[i], cells, after) && Mirrors(job, kb.virt, pvs, i, bytes, after)
  {
    PlacedInBounds(job, kb.virt, pvs, i);
    var after := CopyOut(job, kb.virt, pvs, bytes, i, cells);
    var at, shift := pvs[i] - kb.virt, job.lpra[i].pv - (pvs[i] - kb.virt);
    forall c | at <= c < at + job.lpra[i].len ensures CellIs(bytes, c, after, shift) {
      assert c + shift in cells && Holds(job.lpra[i], c + shift);
    }
  }

  lemma {:induction false} CopyOutsMirror(job: Job, kb: KernelBuf, pvs: seq<int>, bytes: seq<byte>, l: seq<nat>, cells: map<int, byte>)
    requires job.Valid() && job.Fits() && Sited(kb) && job.Size(|job.es|) <= |bytes| == kb.bytes.Length
    requires PlacedAt(job, kb.virt, pvs) && Writable(job, cells)
    requires forall n :: 0 <= n < |l| ==> l[n] < |pvs| && IsOutput(job, l[n])
    ensures var after := CopyOuts(job, kb.virt, pvs, bytes, l, cells);
            && after.Keys == cells.Keys
            && (forall n :: 0 <= n < |l| ==> Mirrors(job, kb.virt, pvs, l[n], bytes, after))
            && (forall x :: x in after && !InOutput(job, x) ==> after[x] == cells[x])
  {
    if l != [] {
      var n := |l| - 1;
      assert forall m :: 0 <= m < n ==> l[..n][m] < |pvs| && IsOutput(job, l[..n][m]);
      var i, mid := l[n], CopyOuts(job, kb.virt, pvs, bytes, l[..n], cells);
      assert IsOutput(job, i);
      CopyOutsMirror(job, kb, pvs, bytes, l[..n], cells);
      assert !Unwritable(job, i, mid) by {
        assert !Unwritable(job, i, cells);
      }
      CopyOutMirrors(job, kb, pvs, bytes, i, mid);
      var after := CopyOut(job, kb.virt, pvs, bytes, i, mid);
      forall m | 0 <= m < |l| ensures Mirrors(job, kb.virt, pvs, l[m], bytes, after) {
        if m < n {
          assert Mirrors(job, kb.virt, pvs, l[..n][m], bytes, mid);
          MirrorKept(job, kb.virt, pvs, l[m], i, bytes, mid, after);
        }
      }
    }
  }

  /** Whatever the order, and however often an output is copied, user memory ends as put_args
      leaves it. */
  lemma AnyOrderCopiesBack(job: Job, kb: KernelBuf, pvs: seq<int>, bytes: seq<byte>, l: seq<nat>,
                           before: map<int, byte>, after: map<int, byte>)
    requires job.Valid() && job.Fits() && Sited(kb) && job.Size(|job.es|) <= |bytes| == kb.bytes.Length
    requires PlacedAt(job, kb.virt, pvs) && Writable(job, before) && ListsOutputs(job, l)
    requires CopiedBack(job, kb.virt, pvs, bytes, before, after)
    ensures CopyOuts(job, kb.virt, pvs, bytes, l, before) == after
  {
    CopyOutsMirror(job, kb, pvs, bytes, l, before);
    var other := CopyOuts(job, kb.virt, pvs, bytes, l, before);
    forall i | job.inbufs <= i < |job.lpra| ensures Mirrors(job, kb.virt, pvs, i, bytes, other) {
      if job.Copied(i) {
        assert IsOutput(job, i);
        var n :| 0 <= n < |l| && l[n] == i;
        assert Mirrors(job, kb.virt, pvs, l[n], bytes, other);
      }
    }
    CopyBackIsDetermined(job, kb.virt, pvs, bytes, before, CopyOuts(job, kb.virt, pvs, bytes, l, before), after);
  }
}
