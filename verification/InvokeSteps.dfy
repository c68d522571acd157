/** Every step of the invocation protocol keeps the invariant. */
module InvokeSteps {
  import opened Basics
  import opened CtxId
  import opened Lists
  import opened Invoke

  /** A step that changes one context and one file's lists, and leaves the table alone. */
  lemma LifeLocal(s: State, s': State, c: Ctx, fl: File)
    requires LifeInv(s) && s'.table == s.table && fl in s'.files && c in s'.ctxs
    requires s'.ctxs == s.ctxs[c := s'.ctxs[c]] && s'.files == s.files[fl := s'.files[fl]]
    requires CtxOk(s', c) && FileOk(s', fl) && s'.ctxs[c].fl == fl
    requires fl in s.files && c in s.ctxs ==> s.ctxs[c].fl == fl && s.ctxs[c].slot == s'.ctxs[c].slot
    requires c !in s.ctxs ==> s'.ctxs[c].slot == None
    requires forall d :: d != c ==> fl in s.files ==>
               (d in s'.files[fl].pending <==> d in s.files[fl].pending)
               && (d in s'.files[fl].interrupted <==> d in s.files[fl].interrupted)
    requires fl in s.files
    ensures LifeInv(s')
  {
    forall d | d in s'.ctxs ensures CtxOk(s', d) {
      if d != c {
        assert CtxOk(s, d);
      }
    }
    forall g | g in s'.files ensures FileOk(s', g) {
      if g != fl {
        assert FileOk(s, g);
        forall d | Owns(s'.files[g], d) ensures d in s'.ctxs && s'.ctxs[d].fl == g {
          assert Owns(s.files[g], d);
        }
      }
    }
    forall ii | ii in s'.table ensures SlotOk(s', ii) {
      assert SlotOk(s, ii);
    }
  }

  lemma FreshNotOwned(s: State, c: Ctx, fl: File)
    requires LifeInv(s) && c !in s.ctxs && fl in s.files
    ensures !Owns(s.files[fl], c)
  {
    assert FileOk(s, fl);
  }

  lemma LifeAllocList(s: State, a: Action)
    requires LifeInv(s) && a.AllocList? && Enabled(s, a)
    ensures LifeInv(Apply(s, a))
  {
    var s' := Apply(s, a);
    FreshNotOwned(s, a.c, a.fl);
    assert FileOk(s, a.fl);
    forall d | Owns(s'.files[a.fl], d) ensures d in s'.ctxs && s'.ctxs[d].fl == a.fl {
      assert d != a.c ==> Owns(s.files[a.fl], d);
    }
    LifeLocal(s, s', a.c, a.fl);
  }

  /** Moving a context between its file's lists. */
  lemma LifeMove(s: State, s': State, c: Ctx)
    requires LifeInv(s) && c in s.ctxs && s'.table == s.table && s.ctxs[c].fl in s'.files && c in s'.ctxs
    requires var fl := s.ctxs[c].fl;
             && s'.ctxs == s.ctxs[c := s'.ctxs[c]] && s'.files == s.files[fl := s'.files[fl]]
             && s'.ctxs[c].fl == fl && s'.ctxs[c].slot == s.ctxs[c].slot
             && CtxRecOk(c, s'.ctxs[c], s.table) && InLists(c, s'.ctxs[c].phase, s'.files[fl])
             && NoDup(s'.files[fl].pending) && NoDup(s'.files[fl].interrupted)
             && (fl in s.files ==> forall d :: d != c ==>
                   (d in s'.files[fl].pending <==> d in s.files[fl].pending)
                   && (d in s'.files[fl].interrupted <==> d in s.files[fl].interrupted))
    ensures LifeInv(s')
  {
    var fl := s.ctxs[c].fl;
    assert CtxOk(s, c);
    assert FileOk(s, fl);
    forall d | Owns(s'.files[fl], d) ensures d in s'.ctxs && s'.ctxs[d].fl == fl {
      assert d != c ==> Owns(s.files[fl], d);
    }
    LifeLocal(s, s', c, fl);
  }

  lemma LifeInterrupt(s: State, a: Action)
    requires LifeInv(s) && a.Interrupt? && Enabled(s, a)
    ensures LifeInv(Apply(s, a))
  {
    assert CtxOk(s, a.c) && FileOk(s, s.ctxs[a.c].fl);
    LifeMove(s, Apply(s, a), a.c);
  }

  lemma LifeRestore(s: State, a: Action)
    requires LifeInv(s) && a.Restore? && Enabled(s, a)
    ensures LifeInv(Apply(s, a))
  {
    var found := FindPid(s.files[a.fl].interrupted, s.ctxs, a.pid);
    if Apply(s, a) != s {
      assert CtxOk(s, found.value) && FileOk(s, a.fl);
      LifeMove(s, Apply(s, a), found.value);
    }
  }

  lemma LifeFreeUnlist(s: State, a: Action)
    requires LifeInv(s) && a.FreeUnlist? && Enabled(s, a)
    ensures LifeInv(Apply(s, a))
  {
    assert CtxOk(s, a.c) && FileOk(s, s.ctxs[a.c].fl);
    LifeMove(s, Apply(s, a), a.c);
  }

  /** Changing a context without touching lists or table. */
  lemma LifeInPlace(s: State, c: Ctx, x: CtxRec)
    requires LifeInv(s) && c in s.ctxs && x.fl == s.ctxs[c].fl && x.slot == s.ctxs[c].slot
    requires OnPending(x.phase) == OnPending(s.ctxs[c].phase) && x.phase.Interrupted? == s.ctxs[c].phase.Interrupted?
    requires CtxRecOk(c, x, s.table)
    ensures LifeInv(SetCtx(s, c, x))
  {
    assert CtxOk(s, c) && FileOk(s, x.fl);
    var s' := SetCtx(s, c, x);
    assert s'.files == s.files[x.fl := s'.files[x.fl]];
    LifeMove(s, s', c);
  }

  /** Taking a free entry leaves the other contexts' entries alone. */
  lemma TableTake(d: Ctx, x: CtxRec, table: map<Slot, Ctx>, ii: Slot, c: Ctx)
    requires CtxRecOk(d, x, table) && ii !in table
    ensures CtxRecOk(d, x, table[ii := c])
  {
  }

  lemma LifeAllocSlot(s: State, a: Action)
    requires LifeInv(s) && a.AllocSlot? && Enabled(s, a)
    ensures LifeInv(Apply(s, a))
  {
    var c, ii := a.c, a.ii;
    assert CtxOk(s, c);
    if ii.index != CTX_MAX {
      var s' := Apply(s, a);
      assert s'.table == s.table[ii := c] && s'.files == s.files;
      forall d | d in s'.ctxs ensures CtxOk(s', d) {
        assert CtxOk(s, d);
        if d != c {
          TableTake(d, s.ctxs[d], s.table, ii, c);
        }
      }
      forall g | g in s'.files ensures FileOk(s', g) {
        assert FileOk(s, g);
      }
      forall jj | jj in s'.table ensures SlotOk(s', jj) {
        if jj != ii {
          assert SlotOk(s, jj);
          assert s.table[jj] != c;
        }
      }
    }
  }

  /** Clearing a context's entry leaves the other contexts' entries alone. */
  lemma TableDrop(d: Ctx, x: CtxRec, table: map<Slot, Ctx>, c: Ctx)
    requires CtxRecOk(d, x, table) && d != c
    ensures CtxRecOk(d, x, Without(table, c))
  {
    if x.slot.Some? {
      var ii := x.slot.value;
      assert table[ii] == d;
      WithoutKeeps(table, c, ii);
    }
  }

  lemma LifeFreeSlot(s: State, a: Action)
    requires LifeInv(s) && a.FreeSlot? && Enabled(s, a)
    ensures LifeInv(Apply(s, a))
  {
    var s' := Apply(s, a);
    assert CtxOk(s, a.c);
    assert s'.table == Without(s.table, a.c) && s'.files == s.files;
    forall d | d in s'.ctxs ensures CtxOk(s', d) {
      assert CtxOk(s, d);
      TableDrop(d, s.ctxs[d], s.table, a.c);
    }
    forall g | g in s'.files ensures FileOk(s', g) {
      assert FileOk(s, g);
      forall d | Owns(s'.files[g], d) ensures d in s'.ctxs && s'.ctxs[d].fl == g {
        assert Owns(s.files[g], d);
      }
    }
    forall jj | jj in s'.table ensures SlotOk(s', jj) {
      WithoutKeeps(s.table, a.c, jj);
      assert SlotOk(s, jj);
    }
  }

  lemma LifeFileOnly(s: State, s': State, fl: File)
    requires LifeInv(s) && s'.ctxs == s.ctxs && s'.table == s.table && fl in s'.files
    requires s'.files == s.files[fl := s'.files[fl]]
    requires if fl in s.files then s'.files[fl].pending == s.files[fl].pending && s'.files[fl].interrupted == s.files[fl].interrupted
             else s'.files[fl].pending == [] && s'.files[fl].interrupted == []
    ensures LifeInv(s')
  {
    forall d | d in s'.ctxs ensures CtxOk(s', d) {
      assert CtxOk(s, d);
    }
    forall g | g in s'.files ensures FileOk(s', g) {
      assert g in s.files ==> FileOk(s, g);
    }
    forall jj | jj in s'.table ensures SlotOk(s', jj) {
      assert SlotOk(s, jj);
    }
  }

  lemma LifeNotifyUsers(s: State, fl: File)
    requires LifeInv(s) && fl in s.files
    ensures LifeInv(NotifyUsers(s, fl))
  {
    var s' := NotifyUsers(s, fl);
    forall d | d in s'.ctxs ensures CtxOk(s', d) {
      assert CtxOk(s, d);
    }
    forall g | g in s'.files ensures FileOk(s', g) {
      assert FileOk(s, g);
    }
    forall jj | jj in s'.table ensures SlotOk(s', jj) {
      assert SlotOk(s, jj);
    }
  }

  /** The life invariant does not mention restart counts and callbacks. */
  lemma LifeSameCore(s: State, s': State)
    requires LifeInv(s) && s'.files == s.files && s'.ctxs == s.ctxs && s'.table == s.table
    ensures LifeInv(s')
  {
    forall d | d in s'.ctxs ensures CtxOk(s', d) {
      assert CtxOk(s, d);
    }
    forall g | g in s'.files ensures FileOk(s', g) {
      assert FileOk(s, g);
    }
    forall jj | jj in s'.table ensures SlotOk(s', jj) {
      assert SlotOk(s, jj);
    }
  }

  lemma LifeSend(s: State, a: Action)
    requires LifeInv(s) && Enabled(s, a) && (a.Send? || a.Consume?)
    ensures LifeInv(Apply(s, a))
  {
    var x := Apply(s, a).ctxs[a.c];
    assert CtxOk(s, a.c);
    LifeInPlace(s, a.c, x);
    assert Apply(s, a) == SetCtx(s, a.c, x);
  }

  lemma LifeRetire(s: State, a: Action)
    requires LifeInv(s) && Enabled(s, a) && a.FreeRetire?
    ensures LifeInv(Apply(s, a))
  {
    var x := Apply(s, a).ctxs[a.c];
    assert CtxOk(s, a.c);
    LifeInPlace(s, a.c, x);
    assert Apply(s, a) == SetCtx(s, a.c, x);
  }

  lemma LifeRespond(s: State, a: Action)
    requires LifeInv(s) && a.Respond?
    ensures LifeInv(Apply(s, a))
  {
    var t := Target(s, a.rsp);
    if t.Some? {
      assert CtxOk(s, t.value);
      LifeInPlace(s, t.value, Apply(s, a).ctxs[t.value]);
    }
  }

  lemma LifeNotify(s: State, a: Action)
    requires LifeInv(s) && Enabled(s, a) && (a.Restart? || a.NotifyBegin? || a.NotifyFile? || a.NotifyEnd?)
    ensures LifeInv(Apply(s, a))
  {
    if a.NotifyFile? && s.files[a.fl].cid == s.notifies[a.n].cid {
      LifeNotifyUsers(s, a.fl);
      LifeSameCore(NotifyUsers(s, a.fl), Apply(s, a));
    } else {
      LifeSameCore(s, Apply(s, a));
    }
  }

  lemma LifeFile(s: State, a: Action)
    requires LifeInv(s) && Enabled(s, a) && (a.Open? || a.GetInfo? || a.ChannelOpen?)
    ensures LifeInv(Apply(s, a))
  {
    LifeFileOnly(s, Apply(s, a), a.fl);
  }

  predicate MovesLists(a: Action) {
    a.AllocList? || a.Interrupt? || a.Restore? || a.FreeUnlist?
  }

  lemma LifeLists(s: State, a: Action)
    requires LifeInv(s) && Enabled(s, a) && MovesLists(a)
    ensures LifeInv(Apply(s, a))
  {
    if a.AllocList? {
      LifeAllocList(s, a);
    } else if a.Interrupt? {
      LifeInterrupt(s, a);
    } else if a.Restore? {
      LifeRestore(s, a);
    } else {
      LifeFreeUnlist(s, a);
    }
  }

  predicate RewritesContext(a: Action) {
    a.AllocSlot? || a.FreeSlot? || a.Respond? || a.Send? || a.Consume? || a.FreeRetire?
  }

  lemma LifeContext(s: State, a: Action)
    requires LifeInv(s) && Enabled(s, a) && RewritesContext(a)
    ensures LifeInv(Apply(s, a))
  {
    if a.AllocSlot? {
      LifeAllocSlot(s, a);
    } else if a.FreeSlot? {
      LifeFreeSlot(s, a);
    } else if a.Respond? {
      LifeRespond(s, a);
    } else if a.FreeRetire? {
      LifeRetire(s, a);
    } else {
      LifeSend(s, a);
    }
  }

  /** Every step keeps the lists, the table and the ids consistent. */
  lemma LifeStep(s: State, a: Action)
    requires LifeInv(s) && Enabled(s, a)
    ensures LifeInv(Apply(s, a))
  {
    if a.Open? || a.GetInfo? || a.ChannelOpen? {
      LifeFile(s, a);
    } else if MovesLists(a) {
      LifeLists(s, a);
    } else if RewritesContext(a) {
      LifeContext(s, a);
    } else {
      LifeNotify(s, a);
    }
  }

  // ---- restart counts -----------------------------------------------------------------

  predicate SameChannel(s: State, s': State, fl: File) {
    fl in s.files && fl in s'.files && s'.files[fl].cid == s.files[fl].cid && s'.files[fl].ssrcount == s.files[fl].ssrcount
  }

  /** d is no further in flight than it was. */
  predicate NoNewFlight(s: State, s': State, d: Ctx) {
    d in s.ctxs && d in s'.ctxs && s'.ctxs[d].fl == s.ctxs[d].fl
    && (InFlight(s'.ctxs[d].phase) ==>
          InFlight(s.ctxs[d].phase) && s'.ctxs[d].phase.epoch == s.ctxs[d].phase.epoch
          && (s'.ctxs[d].done == 0 ==> s.ctxs[d].done == 0))
  }

  /** A step that touches neither the counts nor the callbacks, nor any file's channel. */
  lemma EpochFrame(s: State, s': State)
    requires EpochInv(s) && s'.ssrcount == s.ssrcount && s'.notifies == s.notifies
    requires s'.files.Keys == s.files.Keys
    requires forall fl :: fl in s.files ==> SameChannel(s, s', fl)
    requires forall d :: d in s'.ctxs ==> EpochOk(s', d) || NoNewFlight(s, s', d)
    ensures EpochInv(s')
  {
    forall fl | fl in s'.files ensures FileEpochOk(s', fl) {
      assert FileEpochOk(s, fl) && SameChannel(s, s', fl);
    }
    forall d | d in s'.ctxs ensures EpochOk(s', d) {
      if NoNewFlight(s, s', d) {
        assert EpochOk(s, d);
        var fl := s.ctxs[d].fl;
        if InFlight(s'.ctxs[d].phase) {
          assert SameChannel(s, s', fl);
          if NotifyOwed(s, fl, s.files[fl].cid) {
            var n :| Owes(s, n, fl, s.files[fl].cid);
            assert Owes(s', n, fl, s.files[fl].cid);
          }
        }
      }
    }
  }

  /** The steps within an invocation that leave the lists alone. */
  lemma EpochRecord(s: State, a: Action)
    requires EpochInv(s) && Enabled(s, a) && (a.AllocSlot? || a.Consume? || a.FreeRetire? || a.FreeSlot?)
    ensures EpochInv(Apply(s, a))
  {
    var s' := Apply(s, a);
    assert s'.files == s.files && s'.ssrcount == s.ssrcount && s'.notifies == s.notifies;
    forall fl | fl in s.files ensures SameChannel(s, s', fl) {
    }
    forall d | d in s'.ctxs ensures NoNewFlight(s, s', d) {
    }
    EpochFrame(s, s');
  }

  /** The steps within an invocation that move a context between lists. */
  lemma EpochMove(s: State, a: Action)
    requires EpochInv(s) && Enabled(s, a) && (a.FreeUnlist? || a.Interrupt?)
    ensures EpochInv(Apply(s, a))
  {
    var s' := Apply(s, a);
    assert s'.ssrcount == s.ssrcount && s'.notifies == s.notifies;
    forall fl | fl in s.files ensures SameChannel(s, s', fl) {
    }
    forall d | d in s'.ctxs ensures NoNewFlight(s, s', d) {
    }
    EpochFrame(s, s');
  }

  lemma EpochAllocList(s: State, a: Action)
    requires EpochInv(s) && a.AllocList? && Enabled(s, a)
    ensures EpochInv(Apply(s, a))
  {
    var s' := Apply(s, a);
    forall fl | fl in s.files ensures SameChannel(s, s', fl) {
    }
    forall d | d in s'.ctxs ensures EpochOk(s', d) || NoNewFlight(s, s', d) {
    }
    EpochFrame(s, s');
  }

  /** Past the check, the message belongs to the running subsystem. */
  lemma EpochSend(s: State, a: Action)
    requires EpochInv(s) && a.Send? && Enabled(s, a)
    ensures EpochInv(Apply(s, a))
    ensures var s' := Apply(s, a);
            var f := s'.files[s'.ctxs[a.c].fl];
            s'.ctxs[a.c].phase == Sent(s'.ssrcount[f.cid]) && f.ssrcount == s'.ssrcount[f.cid]
  {
    var s' := Apply(s, a);
    forall fl | fl in s.files ensures SameChannel(s, s', fl) {
    }
    forall d | d in s'.ctxs ensures EpochOk(s', d) || NoNewFlight(s, s', d) {
      if d == a.c {
        assert EpochOk(s', d);
      }
    }
    EpochFrame(s, s');
  }

  lemma EpochRestore(s: State, a: Action)
    requires EpochInv(s) && a.Restore? && Enabled(s, a)
    ensures EpochInv(Apply(s, a))
  {
    var s' := Apply(s, a);
    assert s'.ssrcount == s.ssrcount && s'.notifies == s.notifies;
    forall fl | fl in s.files ensures SameChannel(s, s', fl) {
    }
    forall d | d in s'.ctxs ensures NoNewFlight(s, s', d) {
    }
    EpochFrame(s, s');
  }

  lemma EpochRespond(s: State, a: Action)
    requires EpochInv(s) && a.Respond?
    ensures EpochInv(Apply(s, a))
  {
    var s' := Apply(s, a);
    forall fl | fl in s.files ensures SameChannel(s, s', fl) {
    }
    forall d | d in s'.ctxs ensures NoNewFlight(s, s', d) {
    }
    EpochFrame(s, s');
  }

  /** Binding a file to a channel, and taking the channel's count. */
  lemma EpochFile(s: State, a: Action)
    requires LifeInv(s) && EpochInv(s) && Enabled(s, a) && (a.Open? || a.GetInfo? || a.ChannelOpen?)
    ensures EpochInv(Apply(s, a))
  {
    var s' := Apply(s, a);
    assert a.fl in s.files ==> FileEpochOk(s, a.fl);
    assert FileEpochOk(s', a.fl);
    EpochOneFile(s, s', a.fl);
  }

  /** A file bound to a channel stays bound to it, and its count does not fall. */
  lemma EpochOneFile(s: State, s': State, f: File)
    requires LifeInv(s) && EpochInv(s) && f in s'.files
    requires s' == s.(files := s.files[f := s'.files[f]]) && FileEpochOk(s', f)
    requires f in s.files && IsChannel(s.files[f].cid) ==>
               s'.files[f].cid == s.files[f].cid && s.files[f].ssrcount <= s'.files[f].ssrcount
    ensures EpochInv(s')
  {
    forall fl | fl in s'.files ensures FileEpochOk(s', fl) {
      assert fl != f ==> FileEpochOk(s, fl);
    }
    forall d | d in s'.ctxs ensures EpochOk(s', d) {
      assert CtxOk(s, d) && EpochOk(s, d);
      var fl := s.ctxs[d].fl;
      if InFlight(s.ctxs[d].phase) && NotifyOwed(s, fl, s.files[fl].cid) {
        var n :| Owes(s, n, fl, s.files[fl].cid);
        assert Owes(s', n, fl, s.files[fl].cid);
      }
    }
  }

  /** The count moves on and a callback owes a completion to every file of the channel. */
  lemma EpochRestart(s: State, a: Action)
    requires EpochInv(s) && a.Restart? && Enabled(s, a)
    ensures EpochInv(Apply(s, a))
    ensures Apply(s, a).ssrcount[a.cid] == s.ssrcount[a.cid] + 1 && forall fl :: Owes(Apply(s, a), a.n, fl, a.cid)
  {
    var s' := Apply(s, a);
    forall fl | fl in s'.files ensures FileEpochOk(s', fl) {
      assert FileEpochOk(s, fl);
    }
    forall d | d in s'.ctxs ensures EpochOk(s', d) {
      assert EpochOk(s, d);
      if InFlight(s.ctxs[d].phase) {
        var fl := s.ctxs[d].fl;
        var cid := s.files[fl].cid;
        if cid == a.cid {
          assert Owes(s', a.n, fl, cid);
        } else if NotifyOwed(s, fl, cid) {
          var n :| Owes(s, n, fl, cid);
          assert Owes(s', n, fl, cid);
        }
      }
    }
  }

  lemma EpochNotifyEnds(s: State, a: Action)
    requires EpochInv(s) && Enabled(s, a) && (a.NotifyBegin? || a.NotifyEnd?)
    ensures EpochInv(Apply(s, a))
  {
    var s' := Apply(s, a);
    forall fl | fl in s'.files ensures FileEpochOk(s', fl) {
      assert FileEpochOk(s, fl);
    }
    forall d | d in s'.ctxs ensures EpochOk(s', d) {
      assert EpochOk(s, d);
      var fl := s.ctxs[d].fl;
      if InFlight(s.ctxs[d].phase) && NotifyOwed(s, fl, s.files[fl].cid) {
        var n :| Owes(s, n, fl, s.files[fl].cid);
        assert Owes(s', n, fl, s.files[fl].cid);
      }
    }
  }

  /** The callback has visited fl: what it owed to other files it still owes. */
  lemma OwedAfterVisit(s: State, a: Action, fl: File, cid: int)
    requires a.NotifyFile? && Enabled(s, a) && NotifyOwed(s, fl, cid)
    requires fl != a.fl || s.notifies[a.n].cid != cid
    ensures NotifyOwed(Apply(s, a), fl, cid)
  {
    var n :| Owes(s, n, fl, cid);
    assert Owes(Apply(s, a), n, fl, cid);
  }

  /** A visit completes every context in flight on the callback's channel. */
  lemma EpochVisit(s: State, a: Action)
    requires LifeInv(s) && EpochInv(s) && Enabled(s, a) && a.NotifyFile?
    ensures EpochInv(Apply(s, a))
    ensures s.files[a.fl].cid == s.notifies[a.n].cid ==>
              forall d :: d in s.ctxs && s.ctxs[d].fl == a.fl && InFlight(s.ctxs[d].phase) ==> Woken(Apply(s, a), d)
  {
    var s' := Apply(s, a);
    assert s'.files == s.files && s'.ssrcount == s.ssrcount;
    forall fl | fl in s'.files ensures FileEpochOk(s', fl) {
      assert FileEpochOk(s, fl);
    }
    forall d | d in s'.ctxs ensures EpochOk(s', d) {
      EpochVisited(s, a, d);
    }
    forall d | d in s.ctxs && s.ctxs[d].fl == a.fl && InFlight(s.ctxs[d].phase) && s.files[a.fl].cid == s.notifies[a.n].cid
      ensures Woken(s', d)
    {
      EpochVisited(s, a, d);
    }
  }

  predicate Woken(s: State, d: Ctx) {
    d in s.ctxs && s.ctxs[d].done > 0
  }

  lemma EpochVisited(s: State, a: Action, d: Ctx)
    requires LifeInv(s) && EpochInv(s) && Enabled(s, a) && a.NotifyFile? && d in s.ctxs
    ensures EpochOk(Apply(s, a), d)
    ensures s.ctxs[d].fl == a.fl && s.files[a.fl].cid == s.notifies[a.n].cid && InFlight(s.ctxs[d].phase) ==> Woken(Apply(s, a), d)
  {
    assert CtxOk(s, d) && EpochOk(s, d);
    var fl := s.ctxs[d].fl;
    if fl == a.fl && s.notifies[a.n].cid == s.files[fl].cid {
      assert InFlight(s.ctxs[d].phase) ==> Apply(s, a).ctxs[d].done > 0;
    } else if InFlight(s.ctxs[d].phase) && NotifyOwed(s, fl, s.files[fl].cid) {
      OwedAfterVisit(s, a, fl, s.files[fl].cid);
    }
  }

  /** Every step keeps the whole invariant. */
  lemma StepKeeps(s: State, a: Action)
    requires Inv(s) && Enabled(s, a)
    ensures Inv(Apply(s, a))
  {
    LifeStep(s, a);
    EpochStep(s, a);
  }

  lemma EpochStep(s: State, a: Action)
    requires Inv(s) && Enabled(s, a)
    ensures EpochInv(Apply(s, a))
  {
    if a.Open? || a.GetInfo? || a.ChannelOpen? {
      EpochFile(s, a);
    } else if a.Restart? || a.NotifyBegin? || a.NotifyFile? || a.NotifyEnd? {
      EpochCallback(s, a);
    } else {
      EpochInvoke(s, a);
    }
  }

  lemma EpochCallback(s: State, a: Action)
    requires Inv(s) && Enabled(s, a) && (a.Restart? || a.NotifyBegin? || a.NotifyFile? || a.NotifyEnd?)
    ensures EpochInv(Apply(s, a))
  {
    if a.Restart? {
      EpochRestart(s, a);
    } else if a.NotifyFile? {
      EpochVisit(s, a);
    } else {
      EpochNotifyEnds(s, a);
    }
  }

  /** The steps of an invocation. */
  lemma EpochInvoke(s: State, a: Action)
    requires Inv(s) && Enabled(s, a)
    requires !(a.Open? || a.GetInfo? || a.ChannelOpen? || a.Restart? || a.NotifyBegin? || a.NotifyFile? || a.NotifyEnd?)
    ensures EpochInv(Apply(s, a))
  {
    if a.AllocList? {
      EpochAllocList(s, a);
    } else if a.Send? {
      EpochSend(s, a);
    } else if a.Restore? {
      EpochRestore(s, a);
    } else if a.Respond? {
      EpochRespond(s, a);
    } else if a.Interrupt? || a.FreeUnlist? {
      EpochMove(s, a);
    } else {
      EpochRecord(s, a);
    }
  }
}
