/** The life of FastRPC invocation contexts across all files, as a step system: every
    spinlock section and every response handler is one step (android/adsprpc.c:1080-1106,
    1254-1391, 1891-1938, 1953-1967, 2067-2216, 2984-2998, 3547-3571, 3692-3715, 4025-4063).
    A context is named by a number and keeps its kernel address, of which its id is made. */
module Invoke {
  import opened Basics
  import opened CtxId
  import opened Lists

  const NUM_CHANNELS: nat := 4

  type Ctx = nat

  /** An index into the context table. */
  datatype Slot = Slot(index: bv64)

  type File = nat

  /** Where a context is in its life. The number is the channel's restart count at the
      send that let the message out. */
  datatype Phase =
    | Listed                   // on the pending list, before the table section
    | Ready                    // context_alloc done, nothing sent
    | Sent(epoch: nat)         // past the restart check of fastrpc_invoke_send
    | Interrupted(epoch: nat)  // saved after a signal
    | Done                     // completion consumed, results being copied
    | Unlisted                 // context_free: off the lists
    | Retired                  // context_free: magic and id cleared

  /** `smq_invoke_ctx`; slot records the table entry that holds the context. */
  datatype CtxRec = CtxRec(addr: bv64, fl: File, pid: int, sc: int, ctxid: bv64, magic: bool, done: nat, retval: int,
                           phase: Phase, slot: Option<Slot>)

  /** `fastrpc_file`: cid is -1 until get_info binds it to a channel. */
  datatype FileRec = FileRec(cid: int, ssrcount: nat, pending: seq<Ctx>, interrupted: seq<Ctx>)

  /** One run of the restart callback: from the count's increment to the end of
      fastrpc_notify_drivers. todo are the files still to be visited once it holds the lock,
      which one callback holds at a time. */
  datatype Notify = Notify(cid: int, begun: bool, todo: set<File>)

  datatype State = State(ssrcount: seq<nat>, files: map<File, FileRec>, ctxs: map<Ctx, CtxRec>,
                         table: map<Slot, Ctx>, notifies: map<nat, Notify>)

  datatype Action =
    | Open(fl: File)
    | GetInfo(fl: File, cid: int)
    | ChannelOpen(fl: File)
    | AllocList(c: Ctx, addr: bv64, fl: File, pid: int, sc: int)
    | AllocSlot(c: Ctx, ii: Slot)
    | Send(c: Ctx)
    | Interrupt(c: Ctx)
    | Restore(fl: File, pid: int, sc: int)
    | Respond(rsp: bv64, retval: int)
    | Consume(c: Ctx)
    | FreeUnlist(c: Ctx)
    | FreeRetire(c: Ctx)
    | FreeSlot(c: Ctx)
    | Restart(cid: int, n: nat)
    | NotifyBegin(n: nat)
    | NotifyFile(n: nat, fl: File)
    | NotifyEnd(n: nat)

  // ---- helpers ------------------------------------------------------------------------

  predicate IsChannel(cid: int) {
    0 <= cid < NUM_CHANNELS
  }

  /** What the table scan of context_alloc finds: the least free slot, or CTX_MAX. */
  ghost predicate FirstFree(table: map<Slot, Ctx>, ii: Slot) {
    ii.index <= CTX_MAX && (ii.index < CTX_MAX ==> ii !in table) && forall jj: Slot :: jj.index < ii.index ==> jj in table
  }

  /** The list scan of context_restore_interrupted: the first context of the thread. */
  function FindPid(l: seq<Ctx>, ctxs: map<Ctx, CtxRec>, pid: int): (r: Option<Ctx>)
    ensures r.Some? ==> r.value in l && r.value in ctxs && ctxs[r.value].pid == pid
  {
    if l == [] then None
    else if l[0] in ctxs && ctxs[l[0]].pid == pid then Some(l[0])
    else FindPid(l[1..], ctxs, pid)
  }

  predicate OfThread(ctxs: map<Ctx, CtxRec>, c: Ctx, pid: int) {
    c in ctxs && ctxs[c].pid == pid
  }

  /** The scan stops at the first context of the thread, and misses none. */
  lemma {:induction false} FindPidIsFirst(l: seq<Ctx>, ctxs: map<Ctx, CtxRec>, pid: int) returns (i: nat)
    ensures i <= |l| && forall j :: 0 <= j < i ==> !OfThread(ctxs, l[j], pid)
    ensures FindPid(l, ctxs, pid) == (if i < |l| then Some(l[i]) else None)
    ensures i < |l| ==> OfThread(ctxs, l[i], pid)
  {
    if l == [] || OfThread(ctxs, l[0], pid) {
      i := 0;
    } else {
      i := FindPidIsFirst(l[1..], ctxs, pid);
      i := i + 1;
    }
  }

  /** The context a response completes: the one in the decoded slot, if its id and magic
      agree. */
  function Target(s: State, rsp: bv64): Option<Ctx> {
    var index := Slot(SlotOf(rsp));
    if index.index < CTX_MAX && index in s.table && s.table[index] in s.ctxs
       && s.ctxs[s.table[index]].ctxid == Untag(rsp) && s.ctxs[s.table[index]].magic
    then Some(s.table[index]) else None
  }

  /** complete(): the counter of the completion goes up. */
  function Completed(x: CtxRec): CtxRec {
    x.(done := x.done + 1)
  }

  function SetCtx(s: State, c: Ctx, x: CtxRec): State {
    s.(ctxs := s.ctxs[c := x])
  }

  function SetFile(s: State, fl: File, f: FileRec): State {
    s.(files := s.files[fl := f])
  }

  // ---- the steps ----------------------------------------------------------------------

  ghost predicate Enabled(s: State, a: Action) {
    match a
    case Open(fl) => fl !in s.files && (forall n :: n in s.notifies ==> !s.notifies[n].begun)
    case GetInfo(fl, cid) => fl in s.files && s.files[fl].cid == -1 && IsChannel(cid) && |s.ssrcount| == NUM_CHANNELS
    case ChannelOpen(fl) => fl in s.files && IsChannel(s.files[fl].cid) && |s.ssrcount| == NUM_CHANNELS
    case AllocList(c, addr, fl, pid, sc) => c !in s.ctxs && fl in s.files
    case AllocSlot(c, ii) => c in s.ctxs && s.ctxs[c].phase == Listed && FirstFree(s.table, ii)
    case Send(c) =>
      && c in s.ctxs && s.ctxs[c].phase == Ready && s.ctxs[c].fl in s.files && |s.ssrcount| == NUM_CHANNELS
      && var f := s.files[s.ctxs[c].fl]; IsChannel(f.cid) && f.ssrcount == s.ssrcount[f.cid]
    case Interrupt(c) => c in s.ctxs && s.ctxs[c].phase.Sent? && s.ctxs[c].fl in s.files
    case Restore(fl, pid, sc) => fl in s.files
    case Respond(rsp, retval) => true
    case Consume(c) => c in s.ctxs && s.ctxs[c].phase.Sent? && s.ctxs[c].done > 0
    case FreeUnlist(c) =>
      c in s.ctxs && s.ctxs[c].phase != Unlisted && s.ctxs[c].phase != Retired && s.ctxs[c].fl in s.files
    case FreeRetire(c) => c in s.ctxs && s.ctxs[c].phase == Unlisted
    case FreeSlot(c) => c in s.ctxs && s.ctxs[c].phase == Retired
    case Restart(cid, n) => IsChannel(cid) && n !in s.notifies && |s.ssrcount| == NUM_CHANNELS
    case NotifyBegin(n) => n in s.notifies && (forall m :: m in s.notifies ==> !s.notifies[m].begun)
    case NotifyFile(n, fl) => n in s.notifies && s.notifies[n].begun && fl in s.notifies[n].todo && fl in s.files
    case NotifyEnd(n) => n in s.notifies && s.notifies[n].begun && s.notifies[n].todo == {}
  }

  ghost function Apply(s: State, a: Action): State
    requires Enabled(s, a)
  {
    match a
    case Open(fl) => SetFile(s, fl, FileRec(-1, 0, [], []))
    case GetInfo(fl, cid) => SetFile(s, fl, s.files[fl].(cid := cid, ssrcount := s.ssrcount[cid]))
    case ChannelOpen(fl) => SetFile(s, fl, s.files[fl].(ssrcount := s.ssrcount[s.files[fl].cid]))
    case AllocList(c, addr, fl, pid, sc) =>
      var f := s.files[fl];
      SetCtx(SetFile(s, fl, f.(pending := AddHead(f.pending, c))), c, CtxRec(addr, fl, pid, sc, 0, true, 0, -1, Listed, None))
    case AllocSlot(c, ii) =>
      if ii.index == CTX_MAX then s
      else
        var x := s.ctxs[c];
        SetCtx(s.(table := s.table[ii := c]), c, x.(ctxid := MakeId(x.addr, ii.index), phase := Ready, slot := Some(ii)))
    case Send(c) =>
      var x := s.ctxs[c];
      SetCtx(s, c, x.(phase := Sent(s.ssrcount[s.files[x.fl].cid])))
    case Interrupt(c) =>
      var x := s.ctxs[c];
      var f := s.files[x.fl];
      SetCtx(SetFile(s, x.fl, f.(pending := Del(f.pending, c), interrupted := AddHead(f.interrupted, c))),
             c, x.(phase := Interrupted(x.phase.epoch)))
    case Restore(fl, pid, sc) => ApplyRestore(s, fl, FindPid(s.files[fl].interrupted, s.ctxs, pid), sc)
    case Respond(rsp, retval) =>
      var t := Target(s, rsp);
      if t.Some? then SetCtx(s, t.value, Completed(s.ctxs[t.value].(retval := retval))) else s
    case Consume(c) =>
      var x := s.ctxs[c];
      SetCtx(s, c, x.(done := x.done - 1, phase := Done))
    case FreeUnlist(c) =>
      var x := s.ctxs[c];
      var f := s.files[x.fl];
      SetCtx(SetFile(s, x.fl, f.(pending := Del(f.pending, c), interrupted := Del(f.interrupted, c))),
             c, x.(phase := Unlisted))
    case FreeRetire(c) => SetCtx(s, c, s.ctxs[c].(magic := false, ctxid := 0, phase := Retired))
    case FreeSlot(c) =>
      s.(table := Without(s.table, c), ctxs := s.ctxs - {c})
    case Restart(cid, n) =>
      s.(ssrcount := s.ssrcount[cid := s.ssrcount[cid] + 1], notifies := s.notifies[n := Notify(cid, false, {})])
    case NotifyBegin(n) => s.(notifies := s.notifies[n := s.notifies[n].(begun := true, todo := s.files.Keys)])
    case NotifyFile(n, fl) =>
      var s' := if s.files[fl].cid == s.notifies[n].cid then NotifyUsers(s, fl) else s;
      s'.(notifies := s.notifies[n := s.notifies[n].(todo := s.notifies[n].todo - {fl})])
    case NotifyEnd(n) => s.(notifies := s.notifies - {n})
  }

  function ApplyRestore(s: State, fl: File, found: Option<Ctx>, sc: int): State
    requires fl in s.files && (found.Some? ==> found.value in s.ctxs)
  {
    if found.Some? && s.ctxs[found.value].sc == sc && s.ctxs[found.value].fl == fl
       && s.ctxs[found.value].phase.Interrupted? then
      var c := found.value;
      var f := s.files[fl];
      SetCtx(SetFile(s, fl, f.(interrupted := Del(f.interrupted, c), pending := AddHead(f.pending, c))),
             c, s.ctxs[c].(phase := Sent(s.ctxs[c].phase.epoch)))
    else s
  }

  /** fastrpc_notify_users: every pending and every interrupted context of the file. */
  function NotifyUsers(s: State, fl: File): State
    requires fl in s.files
  {
    var f := s.files[fl];
    s.(ctxs := map c | c in s.ctxs ::
      if c in f.pending || c in f.interrupted then Completed(s.ctxs[c]) else s.ctxs[c])
  }

  // ---- the invariant ------------------------------------------------------------------

  predicate OnPending(p: Phase) {
    p.Listed? || p.Ready? || p.Sent? || p.Done?
  }

  /** Past context_alloc and before context_free. */
  predicate InUse(p: Phase) {
    p.Ready? || p.Sent? || p.Done? || p.Interrupted?
  }

  predicate InFlight(p: Phase) {
    p.Sent? || p.Interrupted?
  }

  predicate CtxOk(s: State, c: Ctx) {
    c in s.ctxs && CtxRecOk(c, s.ctxs[c], s.table) && s.ctxs[c].fl in s.files && InLists(c, s.ctxs[c].phase, s.files[s.ctxs[c].fl])
  }

  predicate InLists(c: Ctx, p: Phase, f: FileRec) {
    (c in f.pending <==> OnPending(p)) && (c in f.interrupted <==> p.Interrupted?)
  }

  predicate CtxRecOk(c: Ctx, x: CtxRec, table: map<Slot, Ctx>) {
    && (x.slot.Some? ==> x.slot.value.index < CTX_MAX && x.slot.value in table && table[x.slot.value] == c)
    && (InUse(x.phase) ==> x.slot.Some?)
    && (x.phase.Listed? ==> x.slot.None?)
    && (x.magic <==> !x.phase.Retired?)
    && x.ctxid == (if x.slot.Some? && !x.phase.Retired? then MakeId(x.addr, x.slot.value.index) else 0)
  }

  ghost predicate FileOk(s: State, fl: File) {
    && fl in s.files
    && NoDup(s.files[fl].pending) && NoDup(s.files[fl].interrupted)
    && (forall c :: Owns(s.files[fl], c) ==> c in s.ctxs && s.ctxs[c].fl == fl)
  }

  predicate Owns(f: FileRec, c: Ctx) {
    c in f.pending || c in f.interrupted
  }

  predicate SlotOk(s: State, ii: Slot) {
    ii in s.table && ii.index < CTX_MAX && s.table[ii] in s.ctxs && s.ctxs[s.table[ii]].slot == Some(ii)
  }

  ghost predicate LifeInv(s: State) {
    && (forall c :: c in s.ctxs ==> CtxOk(s, c))
    && (forall fl :: fl in s.files ==> FileOk(s, fl))
    && (forall ii :: ii in s.table ==> SlotOk(s, ii))
  }

  /** The restart callback n has yet to complete the contexts of file fl on channel cid. */
  predicate Owes(s: State, n: nat, fl: File, cid: int) {
    n in s.notifies && s.notifies[n].cid == cid && (s.notifies[n].begun ==> fl in s.notifies[n].todo)
  }

  ghost predicate NotifyOwed(s: State, fl: File, cid: int) {
    exists n :: Owes(s, n, fl, cid)
  }

  predicate FileEpochOk(s: State, fl: File) {
    fl in s.files && |s.ssrcount| == NUM_CHANNELS
    && (IsChannel(s.files[fl].cid) ==> s.files[fl].ssrcount <= s.ssrcount[s.files[fl].cid])
    && (!IsChannel(s.files[fl].cid) ==> s.files[fl].cid == -1)
  }

  /** An uncompleted message still belongs to the running subsystem, or its completion by a
      restart callback is still owed. */
  ghost predicate EpochOk(s: State, c: Ctx) {
    c in s.ctxs && |s.ssrcount| == NUM_CHANNELS &&
    (InFlight(s.ctxs[c].phase) ==>
      && s.ctxs[c].fl in s.files
      && var f := s.files[s.ctxs[c].fl];
      && IsChannel(f.cid)
      && s.ctxs[c].phase.epoch <= f.ssrcount
      && (s.ctxs[c].done == 0 ==> s.ctxs[c].phase.epoch == s.ssrcount[f.cid] || NotifyOwed(s, s.ctxs[c].fl, f.cid)))
  }

  ghost predicate EpochInv(s: State) {
    && |s.ssrcount| == NUM_CHANNELS
    && (forall fl :: fl in s.files ==> FileEpochOk(s, fl))
    && (forall c :: c in s.ctxs ==> EpochOk(s, c))
  }

  ghost predicate Inv(s: State) {
    LifeInv(s) && EpochInv(s)
  }

  ghost predicate Init(s: State) {
    s.ssrcount == seq(NUM_CHANNELS, i => 0) && s.files == map[] && s.ctxs == map[] && s.table == map[] && s.notifies == map[]
  }

  lemma InitKeeps(s: State)
    requires Init(s)
    ensures Inv(s)
  {
  }
}
