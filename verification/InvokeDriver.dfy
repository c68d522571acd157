/** The driver's own routines over its state, each proved to be the protocol's step
    (android/adsprpc.c:1080-1106, 1248-1327, 1331-1345, 1953-1967). */
module InvokeDriver {
  import opened Basics
  import opened CtxId
  import opened Lists
  import opened Invoke
  import opened InvokeSteps

  /** The scan of context_alloc. */
  method ScanFree(table: map<Slot, Ctx>) returns (ii: bv64)
    ensures FirstFree(table, Slot(ii))
  {
    ii := 0;
    while ii < CTX_MAX && Slot(ii) in table
      invariant ii <= CTX_MAX
      invariant forall jj: Slot :: jj.index < ii ==> jj in table
      decreases CTX_MAX - ii
    {
      ii := ii + 1;
    }
  }

  predicate Holds(table: map<Slot, Ctx>, k: Slot, c: Ctx) {
    k in table && table[k] == c
  }

  /** The scan of context_free: it stops at the first entry that holds the context. */
  method ScanHolder(table: map<Slot, Ctx>, c: Ctx) returns (ii: bv64)
    ensures ii <= CTX_MAX && (ii < CTX_MAX ==> Holds(table, Slot(ii), c))
    ensures forall jj: Slot :: Holds(table, jj, c) ==> ii <= jj.index
  {
    ii := 0;
    while ii < CTX_MAX
      invariant ii <= CTX_MAX
      invariant forall jj: Slot :: Holds(table, jj, c) ==> ii <= jj.index
      decreases CTX_MAX - ii
    {
      if Holds(table, Slot(ii), c) {
        return;
      }
      ii := ii + 1;
    }
  }

  /** The scan of context_restore_interrupted: it ends at the thread's first context. */
  method ScanPid(l: seq<Ctx>, ctxs: map<Ctx, CtxRec>, pid: int) returns (r: Option<Ctx>)
    ensures r == FindPid(l, ctxs, pid)
  {
    var i := 0;
    while i < |l|
      invariant i <= |l|
      invariant FindPid(l, ctxs, pid) == FindPid(l[i..], ctxs, pid)
    {
      if l[i] in ctxs && ctxs[l[i]].pid == pid {
        return Some(l[i]);
      }
      i := i + 1;
    }
    r := None;
  }

  /** One pass of fastrpc_notify_users over a list. */
  method CompleteList(l: seq<Ctx>, ctxs0: map<Ctx, CtxRec>) returns (ctxs: map<Ctx, CtxRec>)
    requires NoDup(l) && forall c :: c in l ==> c in ctxs0
    ensures ctxs == Bumped(ctxs0, l)
  {
    ctxs := ctxs0;
    var i := 0;
    while i < |l|
      invariant i <= |l|
      invariant ctxs == Bumped(ctxs0, l[..i])
    {
      NoDupAt(l, i);
      assert l[i] in l;
      BumpOne(ctxs0, l, i);
      ctxs := ctxs[l[i] := Completed(ctxs[l[i]])];
      i := i + 1;
    }
    assert l[..i] == l;
  }

  /** The contexts of a list completed once. */
  function Bumped(m: map<Ctx, CtxRec>, l: seq<Ctx>): map<Ctx, CtxRec> {
    map c | c in m :: if c in l then Completed(m[c]) else m[c]
  }

  lemma BumpOne(m: map<Ctx, CtxRec>, l: seq<Ctx>, i: nat)
    requires i < |l| && l[i] in m && l[i] !in l[..i]
    ensures Bumped(m, l[..i])[l[i] := Completed(Bumped(m, l[..i])[l[i]])] == Bumped(m, l[..i + 1])
  {
    assert l[..i + 1] == l[..i] + [l[i]];
  }

  /** How context_alloc fares before its list section: no memory for the context, a failed copy
      or a wrapping buffer, or neither. */
  datatype Prep = NoMemory | Spoiled | Prepared

  /** `gfa` with its files and contexts; the callbacks' progress is only for the proof. */
  class Driver {
    var ssrcount: seq<nat>
    var files: map<File, FileRec>
    var ctxs: map<Ctx, CtxRec>
    var table: map<Slot, Ctx>
    ghost var notifies: map<nat, Notify>

    ghost function View(): State
      reads this
    {
      State(ssrcount, files, ctxs, table, notifies)
    }

    /** The table section of context_alloc. */
    method TakeSlot(c: Ctx) returns (ok: bool, ghost at: Slot)
      requires c in ctxs && ctxs[c].phase == Listed
      modifies this
      ensures Enabled(old(View()), AllocSlot(c, at)) && View() == Apply(old(View()), AllocSlot(c, at))
      ensures ok == (at.index < CTX_MAX)
    {
      var ii := ScanFree(table);
      at := Slot(ii);
      ok := ii < CTX_MAX;
      if ok {
        table := table[Slot(ii) := c];
        ctxs := ctxs[c := ctxs[c].(ctxid := MakeId(ctxs[c].addr, ii), phase := Ready, slot := Some(Slot(ii)))];
      }
    }

    /** The table section of context_free, and the end of the context. */
    method ClearSlot(c: Ctx)
      requires LifeInv(View()) && c in ctxs && ctxs[c].phase == Retired
      modifies this
      ensures View() == Apply(old(View()), FreeSlot(c))
    {
      var ii := ScanHolder(table, c);
      OnlyEntry(View(), c, ii);
      if ii < CTX_MAX {
        table := table - {Slot(ii)};
      }
      ctxs := ctxs - {c};
    }

    /** fastrpc_notify_users: one pass over each list. */
    method NotifyUsers(fl: File)
      requires LifeInv(View()) && fl in files
      modifies this`ctxs
      ensures View() == Invoke.NotifyUsers(old(View()), fl)
    {
      ghost var s := View();
      FileCtxs(s, fl);
      BumpedTwice(s, fl);
      ctxs := CompleteList(files[fl].pending, ctxs);
      ctxs := CompleteList(files[fl].interrupted, ctxs);
    }

    /** context_restore_interrupted: a context of the thread that does not fit the call is an
        error, and is left where it is. */
    method RestoreInterrupted(fl: File, pid: int, sc: int) returns (err: int, po: Option<Ctx>)
      requires LifeInv(View()) && fl in files
      modifies this
      ensures View() == Apply(old(View()), Restore(fl, pid, sc))
      ensures var found := FindPid(old(files)[fl].interrupted, old(ctxs), pid);
              && (err == -1 <==> found.Some? && old(ctxs)[found.value].sc != sc)
              && (err == 0 || err == -1)
              && po == (if err == 0 then found else None)
      ensures po.None? ==> View() == old(View())
      ensures po.Some? ==> RestoredTo(old(View()), View(), fl, po.value)
    {
      FileCtxs(View(), fl);
      var found := ScanPid(files[fl].interrupted, ctxs, pid);
      if found.None? {
        return 0, None;
      }
      var ictx := found.value;
      if ctxs[ictx].sc != sc || ctxs[ictx].fl != fl {
        return -1, None;
      }
      var f := files[fl];
      files := files[fl := f.(interrupted := Del(f.interrupted, ictx), pending := AddHead(f.pending, ictx))];
      ctxs := ctxs[ictx := ctxs[ictx].(phase := Sent(ctxs[ictx].phase.epoch))];
      return 0, found;
    }

    /** context_save_interrupted */
    method SaveInterrupted(c: Ctx)
      requires Enabled(View(), Interrupt(c))
      modifies this
      ensures View() == Apply(old(View()), Interrupt(c))
    {
      var x := ctxs[c];
      var f := files[x.fl];
      files := files[x.fl := f.(pending := Del(f.pending, c), interrupted := AddHead(f.interrupted, c))];
      ctxs := ctxs[c := x.(phase := Interrupted(x.phase.epoch))];
    }

    /** The response handler: refuses an empty slot, another id and a cleared magic. */
    method Deliver(rsp: bv64, retval: int) returns (err: bool)
      requires LifeInv(View())
      modifies this`ctxs
      ensures View() == Apply(old(View()), Respond(rsp, retval))
      ensures err <==> Target(old(View()), rsp).None?
    {
      TargetChecked(View(), rsp);
      var index := Slot(SlotOf(rsp));
      if index !in table {
        return true;
      }
      var c := table[index];
      if ctxs[c].ctxid != Untag(rsp) || !ctxs[c].magic {
        return true;
      }
      ctxs := ctxs[c := Completed(ctxs[c].(retval := retval))];
      err := false;
    }

    /** The list section of context_alloc. */
    method ListNew(c: Ctx, addr: bv64, fl: File, pid: int, sc: int)
      requires fl in files && c !in ctxs
      modifies this
      ensures View() == Apply(old(View()), AllocList(c, addr, fl, pid, sc))
    {
      var f := files[fl];
      files := files[fl := f.(pending := AddHead(f.pending, c))];
      ctxs := ctxs[c := CtxRec(addr, fl, pid, sc, 0, true, 0, -1, Listed, None)];
    }

    /** The list section of context_free. */
    method Unlist(c: Ctx)
      requires Enabled(View(), FreeUnlist(c))
      modifies this
      ensures View() == Apply(old(View()), FreeUnlist(c))
    {
      var x := ctxs[c];
      var f := files[x.fl];
      files := files[x.fl := f.(pending := Del(f.pending, c), interrupted := Del(f.interrupted, c))];
      ctxs := ctxs[c := x.(phase := Unlisted)];
    }

    /** context_free gives up the id. */
    method Retire(c: Ctx)
      requires Enabled(View(), FreeRetire(c))
      modifies this`ctxs
      ensures View() == Apply(old(View()), FreeRetire(c))
    {
      ctxs := ctxs[c := ctxs[c].(magic := false, ctxid := 0, phase := Retired)];
    }

    /** context_free without interleaving: off the lists, retired, off the table. */
    method ContextFree(c: Ctx)
      requires LifeInv(View()) && Enabled(View(), FreeUnlist(c))
      modifies this
      ensures LifeInv(View()) && View() == Freed(old(View()), c)
    {
      ghost var s := View();
      FreedInThreeSteps(s, c);
      FreedKeepsLife(s, c);
      Unlist(c);
      Retire(c);
      ClearSlot(c);
    }

    /** context_free of a context that context_alloc gave up before its list section: it is on
        no list and in no slot, so nothing changes. */
    method FreeUnlisted(c: Ctx, fl: File)
      requires LifeInv(View()) && fl in files && c !in ctxs
      modifies this`files, this`table
      ensures View() == old(View())
    {
      FreshNotOwned(View(), c, fl);
      NeverHeld(View(), c);
      var f := files[fl];
      files := files[fl := f.(pending := Del(f.pending, c), interrupted := Del(f.interrupted, c))];
      var ii := ScanHolder(table, c);
      table := if ii < CTX_MAX then table - {Slot(ii)} else table;
    }

    /** The list and table sections of context_alloc. */
    method Enter(c: Ctx, addr: bv64, fl: File, pid: int, sc: int) returns (ok: bool)
      requires LifeInv(View()) && fl in files && c !in ctxs
      modifies this
      ensures LifeInv(View())
      ensures ok <==> exists ii: Slot :: ii.index < CTX_MAX && ii !in old(table)
      ensures if ok then Joined(old(View()), View(), c, addr, fl, pid, sc) else View() == old(View())
    {
      ghost var s := View();
      ListNew(c, addr, fl, pid, sc);
      ghost var s1 := View();
      ghost var at: Slot;
      ok, at := TakeSlot(c);
      AllocOutcome(s, s1, c, addr, fl, pid, sc, at);
      if !ok {
        ContextFree(c);
      }
    }

    /** context_alloc without interleaving. Whether memory, the copies from the user or the
        sweep fail before the list section, or the table is full after it, a failure leaves the
        driver as it was. */
    method ContextAlloc(c: Ctx, addr: bv64, fl: File, pid: int, sc: int, prep: Prep) returns (ok: bool)
      requires LifeInv(View()) && fl in files && c !in ctxs
      modifies this
      ensures LifeInv(View())
      ensures ok <==> prep == Prepared && exists ii: Slot :: ii.index < CTX_MAX && ii !in old(table)
      ensures if ok then Joined(old(View()), View(), c, addr, fl, pid, sc) else View() == old(View())
    {
      ok := false;
      if prep == Prepared {
        ok := Enter(c, addr, fl, pid, sc);
      } else if prep == Spoiled {
        FreeUnlisted(c, fl);
      }
    }
  }

  /** c has left the interrupted list for the head of the pending list, and waits for its message. */
  predicate RestoredTo(s: State, s': State, fl: File, c: Ctx) {
    && fl in s.files && fl in s'.files && c in s.ctxs && s.ctxs[c].phase.Interrupted? && c in s.files[fl].interrupted
    && s'.files[fl].pending == [c] + s.files[fl].pending && s'.files[fl].interrupted == Del(s.files[fl].interrupted, c)
    && s'.files[fl].cid == s.files[fl].cid && s'.files[fl].ssrcount == s.files[fl].ssrcount
    && s' == s.(files := s.files[fl := s'.files[fl]], ctxs := s.ctxs[c := s.ctxs[c].(phase := Sent(s.ctxs[c].phase.epoch))])
  }

  /** A context that context_alloc has filled: nothing sent, no completion, the slot in its id. */
  predicate IsNew(x: CtxRec, addr: bv64, fl: File, pid: int, sc: int) {
    && x.addr == addr && x.fl == fl && x.pid == pid && x.sc == sc && x.magic && x.done == 0 && x.retval == -1
    && x.phase == Ready && x.slot.Some? && x.ctxid == MakeId(addr, x.slot.value.index)
  }

  /** c is new, at the head of its file's pending list and in the first slot that was free. */
  ghost predicate Joined(s: State, s': State, c: Ctx, addr: bv64, fl: File, pid: int, sc: int) {
    && c in s'.ctxs && IsNew(s'.ctxs[c], addr, fl, pid, sc) && fl in s.files
    && s'.ctxs[c].slot.value !in s.table && (forall jj: Slot :: jj.index < s'.ctxs[c].slot.value.index ==> jj in s.table)
    && s'.ctxs - {c} == s.ctxs && s'.table == s.table[s'.ctxs[c].slot.value := c]
    && s' == s.(ctxs := s'.ctxs, table := s'.table, files := s.files[fl := s.files[fl].(pending := [c] + s.files[fl].pending)])
  }

  lemma AllocJoins(s: State, c: Ctx, addr: bv64, fl: File, pid: int, sc: int, at: Slot)
    requires fl in s.files && c !in s.ctxs && at.index < CTX_MAX
    requires Enabled(Apply(s, AllocList(c, addr, fl, pid, sc)), AllocSlot(c, at))
    ensures Joined(s, Apply(Apply(s, AllocList(c, addr, fl, pid, sc)), AllocSlot(c, at)), c, addr, fl, pid, sc)
  {
    var id := MakeId(addr, at.index);
    var s1 := Apply(s, AllocList(c, addr, fl, pid, sc));
    ListedForm(s, s1, c, addr, fl, pid, sc);
    var s2 := Apply(s1, AllocSlot(c, at));
    SlottedForm(s1, s2, c, at, id);
    JoinedForm(s, s2, c, addr, fl, pid, sc, at, id);
  }

  lemma ListedForm(s: State, s1: State, c: Ctx, addr: bv64, fl: File, pid: int, sc: int)
    requires fl in s.files && c !in s.ctxs && s1 == Apply(s, AllocList(c, addr, fl, pid, sc))
    ensures s1 == s.(files := s.files[fl := s.files[fl].(pending := [c] + s.files[fl].pending)],
                     ctxs := s.ctxs[c := CtxRec(addr, fl, pid, sc, 0, true, 0, -1, Listed, None)])
  {
  }

  lemma SlottedForm(s1: State, s2: State, c: Ctx, at: Slot, id: bv64)
    requires Enabled(s1, AllocSlot(c, at)) && at.index < CTX_MAX && s2 == Apply(s1, AllocSlot(c, at))
    requires id == MakeId(s1.ctxs[c].addr, at.index)
    ensures s2 == s1.(table := s1.table[at := c], ctxs := s1.ctxs[c := s1.ctxs[c].(ctxid := id, phase := Ready, slot := Some(at))])
  {
  }

  lemma JoinedForm(s: State, s2: State, c: Ctx, addr: bv64, fl: File, pid: int, sc: int, at: Slot, id: bv64)
    requires fl in s.files && c !in s.ctxs && at.index < CTX_MAX && FirstFree(s.table, at) && id == MakeId(addr, at.index)
    requires s2 == s.(files := s.files[fl := s.files[fl].(pending := [c] + s.files[fl].pending)], table := s.table[at := c],
                      ctxs := s.ctxs[c := CtxRec(addr, fl, pid, sc, id, true, 0, -1, Ready, Some(at))])
    ensures Joined(s, s2, c, addr, fl, pid, sc)
  {
    assert s2.ctxs - {c} == s.ctxs;
  }

  lemma AllocOutcome(s: State, s1: State, c: Ctx, addr: bv64, fl: File, pid: int, sc: int, at: Slot)
    requires LifeInv(s) && fl in s.files && c !in s.ctxs
    requires s1 == Apply(s, AllocList(c, addr, fl, pid, sc)) && Enabled(s1, AllocSlot(c, at))
    ensures LifeInv(Apply(s1, AllocSlot(c, at)))
    ensures at.index < CTX_MAX ==> Joined(s, Apply(s1, AllocSlot(c, at)), c, addr, fl, pid, sc)
    ensures at.index >= CTX_MAX ==> Apply(s1, AllocSlot(c, at)) == s1 && Enabled(s1, FreeUnlist(c)) && Freed(s1, c) == s
  {
    LifeStep(s, AllocList(c, addr, fl, pid, sc));
    LifeStep(s1, AllocSlot(c, at));
    if at.index < CTX_MAX {
      AllocJoins(s, c, addr, fl, pid, sc, at);
    } else {
      FailedAllocUndone(s, c, addr, fl, pid, sc);
    }
  }

  /** The bounds check and the look-up of the context never decide the outcome. */
  lemma TargetChecked(s: State, rsp: bv64)
    requires LifeInv(s)
    ensures var k := Slot(SlotOf(rsp));
            && (k in s.table ==> s.table[k] in s.ctxs)
            && Target(s, rsp) == (if k in s.table && s.ctxs[s.table[k]].ctxid == Untag(rsp) && s.ctxs[s.table[k]].magic
                                  then Some(s.table[k]) else None)
  {
    SlotInTable(rsp);
    var k := Slot(SlotOf(rsp));
    if k in s.table {
      assert SlotOk(s, k);
    }
  }

  /** The driver without the context: what the three sections of context_free leave. */
  ghost function Freed(s: State, c: Ctx): State
    requires c in s.ctxs && s.ctxs[c].fl in s.files
  {
    var fl := s.ctxs[c].fl;
    var f := s.files[fl];
    s.(files := s.files[fl := f.(pending := Del(f.pending, c), interrupted := Del(f.interrupted, c))],
       ctxs := s.ctxs - {c}, table := Without(s.table, c))
  }

  lemma FreedInThreeSteps(s: State, c: Ctx)
    requires Enabled(s, FreeUnlist(c))
    ensures Apply(Apply(Apply(s, FreeUnlist(c)), FreeRetire(c)), FreeSlot(c)) == Freed(s, c)
  {
    var s1 := Apply(s, FreeUnlist(c));
    var s2 := Apply(s1, FreeRetire(c));
    RetiredForm(s1, s2, c);
    assert s1.ctxs - {c} == s.ctxs - {c};
  }

  lemma RetiredForm(s1: State, s2: State, c: Ctx)
    requires Enabled(s1, FreeRetire(c)) && s2 == Apply(s1, FreeRetire(c))
    ensures s2 == s1.(ctxs := s2.ctxs) && c in s2.ctxs && s2.ctxs[c].phase == Retired && s2.ctxs - {c} == s1.ctxs - {c}
  {
  }

  lemma FreedKeepsLife(s: State, c: Ctx)
    requires LifeInv(s) && Enabled(s, FreeUnlist(c))
    ensures LifeInv(Apply(Apply(s, FreeUnlist(c)), FreeRetire(c))) && LifeInv(Freed(s, c))
  {
    FreedInThreeSteps(s, c);
    var s1 := Apply(s, FreeUnlist(c));
    LifeStep(s, FreeUnlist(c));
    LifeStep(s1, FreeRetire(c));
    LifeStep(Apply(s1, FreeRetire(c)), FreeSlot(c));
  }

  /** A context that never got a slot leaves no trace. */
  lemma FailedAllocUndone(s: State, c: Ctx, addr: bv64, fl: File, pid: int, sc: int)
    requires LifeInv(s) && fl in s.files && c !in s.ctxs
    ensures Freed(Apply(s, AllocList(c, addr, fl, pid, sc)), c) == s
  {
    FreshNotOwned(s, c, fl);
    var f := s.files[fl];
    DelAddHead(f.pending, c);
    NeverHeld(s, c);
    var s1 := Apply(s, AllocList(c, addr, fl, pid, sc));
    assert s1.files[fl] == f.(pending := AddHead(f.pending, c));
    assert s1.files[fl := f] == s.files;
    assert s1.ctxs - {c} == s.ctxs;
  }

  lemma NeverHeld(s: State, c: Ctx)
    requires LifeInv(s) && c !in s.ctxs
    ensures Without(s.table, c) == s.table
    ensures forall k: Slot :: !Holds(s.table, k, c)
  {
    forall k | k in s.table ensures s.table[k] != c && !Holds(s.table, k, c) {
      assert SlotOk(s, k);
    }
  }

  /** What the scan of context_free found is the context's one entry, if it has one. */
  lemma OnlyEntry(s: State, c: Ctx, ii: bv64)
    requires LifeInv(s) && ii <= CTX_MAX
    requires forall jj: Slot :: Holds(s.table, jj, c) ==> ii <= jj.index
    requires ii < CTX_MAX ==> Holds(s.table, Slot(ii), c)
    ensures Without(s.table, c) == if ii < CTX_MAX then s.table - {Slot(ii)} else s.table
  {
    forall k | Holds(s.table, k, c) ensures k == Slot(ii) {
      assert SlotOk(s, k);
      if ii < CTX_MAX {
        assert SlotOk(s, Slot(ii));
      }
    }
  }

  lemma BumpedTwice(s: State, fl: File)
    requires fl in s.files && forall c :: c in s.files[fl].pending ==> c !in s.files[fl].interrupted
    ensures NotifyUsers(s, fl) == s.(ctxs := Bumped(Bumped(s.ctxs, s.files[fl].pending), s.files[fl].interrupted))
  {
  }

  /** The contexts on a file's lists exist, and no context is on both. */
  lemma FileCtxs(s: State, fl: File)
    requires LifeInv(s) && fl in s.files
    ensures NoDup(s.files[fl].pending) && NoDup(s.files[fl].interrupted)
    ensures forall c :: c in s.files[fl].pending ==> c in s.ctxs && c !in s.files[fl].interrupted && s.ctxs[c].fl == fl
    ensures forall c :: c in s.files[fl].interrupted ==> c in s.ctxs && s.ctxs[c].phase.Interrupted? && s.ctxs[c].fl == fl
  {
    assert FileOk(s, fl);
    forall c | Owns(s.files[fl], c)
      ensures c in s.ctxs && s.ctxs[c].fl == fl
      ensures (c in s.files[fl].interrupted <==> s.ctxs[c].phase.Interrupted?)
      ensures (c in s.files[fl].pending <==> c !in s.files[fl].interrupted)
    {
      assert CtxOk(s, c);
    }
    forall c | c in s.files[fl].pending ensures c in s.ctxs && c !in s.files[fl].interrupted && s.ctxs[c].fl == fl {
      assert Owns(s.files[fl], c);
    }
    forall c | c in s.files[fl].interrupted ensures c in s.ctxs && s.ctxs[c].phase.Interrupted? && s.ctxs[c].fl == fl {
      assert Owns(s.files[fl], c);
    }
  }
}
