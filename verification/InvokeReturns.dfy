/** What contexts and restart callbacks can do next, and that whoever must be woken can be. */
module InvokeReturns {
  import opened Basics
  import opened CtxId
  import opened Lists
  import opened Invoke
  import opened InvokeSteps
  import opened InvokeRuns

  // ---- restart callbacks --------------------------------------------------------------

  /** The lock admits one callback at a time, and the files it has to visit exist. */
  ghost predicate CallbacksOk(s: State) {
    forall n :: n in s.notifies ==> CallbackOk(s, n)
  }

  ghost predicate CallbackOk(s: State, n: nat) {
    && n in s.notifies && (forall fl :: fl in s.notifies[n].todo ==> fl in s.files)
    && (s.notifies[n].begun ==> forall m :: m in s.notifies && s.notifies[m].begun ==> m == n)
  }

  lemma CallbacksStep(s: State, a: Action)
    requires CallbacksOk(s) && Enabled(s, a)
    ensures CallbacksOk(Apply(s, a))
  {
    var s' := Apply(s, a);
    FilesStay(s, a);
    forall n | n in s'.notifies ensures CallbackOk(s', n) {
      assert n in s.notifies ==> CallbackOk(s, n);
      if s'.notifies[n].begun {
        forall m | m in s'.notifies && s'.notifies[m].begun ensures m == n {
          assert m in s.notifies && CallbackOk(s, m);
        }
      }
    }
  }

  lemma FilesStay(s: State, a: Action)
    requires Enabled(s, a)
    ensures forall fl :: fl in s.files ==> fl in Apply(s, a).files
  {
  }

  lemma {:induction false} RunCallbacksOk(tr: seq<State>, acts: seq<Action>, i: nat)
    requires Run(tr, acts) && i < |tr|
    ensures CallbacksOk(tr[i])
    decreases i
  {
    if i > 0 {
      assert StepAt(tr, acts, i - 1);
      RunCallbacksOk(tr, acts, i - 1);
      CallbacksStep(tr[i - 1], acts[i - 1]);
    }
  }

  predicate IsCallback(a: Action) {
    a.NotifyBegin? || a.NotifyFile? || a.NotifyEnd?
  }

  /** acts' goes on from acts with steps of restart callbacks only. */
  predicate GoesOn(acts: seq<Action>, acts': seq<Action>) {
    && |acts| <= |acts'| && acts'[..|acts|] == acts
    && forall i :: |acts| <= i < |acts'| ==> IsCallback(acts'[i])
  }

  /** Callbacks change nothing of files and contexts but completions, which they only raise. */
  ghost predicate OnlyWoken(s: State, s': State) {
    && s'.files == s.files && s'.ssrcount == s.ssrcount && s'.table == s.table && s'.ctxs.Keys == s.ctxs.Keys
    && forall c :: c in s.ctxs ==> s.ctxs[c].done <= s'.ctxs[c].done && s'.ctxs[c] == s.ctxs[c].(done := s'.ctxs[c].done)
  }

  lemma CallbackOnlyWakes(s: State, a: Action)
    requires Enabled(s, a) && IsCallback(a)
    ensures OnlyWoken(s, Apply(s, a))
  {
  }

  lemma OnlyWokenTrans(s: State, s1: State, s2: State)
    requires OnlyWoken(s, s1) && OnlyWoken(s1, s2)
    ensures OnlyWoken(s, s2)
  {
  }

  /** One more step of the callback that holds the lock. */
  lemma CallbackGoesOn(s: State, n: nat) returns (a: Action)
    requires CallbacksOk(s) && n in s.notifies && s.notifies[n].begun
    ensures Enabled(s, a) && IsCallback(a) && OnlyWoken(s, Apply(s, a))
    ensures var s' := Apply(s, a);
            if s.notifies[n].todo == {} then s'.notifies == s.notifies - {n}
            else n in s'.notifies && s'.notifies[n].begun && s'.notifies[n].todo < s.notifies[n].todo
                 && s'.notifies - {n} == s.notifies - {n}
  {
    assert CallbackOk(s, n);
    var todo := s.notifies[n].todo;
    if todo == {} {
      a := NotifyEnd(n);
    } else {
      var fl :| fl in todo;
      a := NotifyFile(n, fl);
    }
    CallbackOnlyWakes(s, a);
  }

  /** The callback that holds the lock can visit its remaining files and end. */
  lemma FinishCallback(tr: seq<State>, acts: seq<Action>, n: nat) returns (tr': seq<State>, acts': seq<Action>)
    requires Run(tr, acts) && n in tr[|acts|].notifies && tr[|acts|].notifies[n].begun
    ensures Run(tr', acts') && GoesOn(acts, acts') && OnlyWoken(tr[|acts|], tr'[|acts'|])
    ensures tr'[|acts'|].notifies == tr[|acts|].notifies - {n}
    decreases |tr[|acts|].notifies[n].todo|
  {
    var s := tr[|acts|];
    RunCallbacksOk(tr, acts, |acts|);
    var a := CallbackGoesOn(s, n);
    var s1 := Apply(s, a);
    tr', acts' := Extend(tr, acts, a);
    if s.notifies[n].todo != {} {
      SmallerSet(s1.notifies[n].todo, s.notifies[n].todo);
      var acts1 := acts';
      tr', acts' := FinishCallback(tr', acts', n);
      GoesOnTrans(acts, acts1, acts');
      OnlyWokenTrans(s, s1, tr'[|acts'|]);
    }
  }

  lemma {:induction false} SmallerSet(a: set<File>, b: set<File>)
    requires a < b
    ensures |a| < |b|
  {
    var x :| x in b && x !in a;
    if y :| y in a {
      SmallerSet(a - {y}, b - {y});
    }
  }

  lemma GoesOnTrans(a: seq<Action>, b: seq<Action>, c: seq<Action>)
    requires GoesOn(a, b) && GoesOn(b, c)
    ensures GoesOn(a, c)
  {
    assert c[..|a|] == c[..|b|][..|a|];
    forall i | |a| <= i < |c| ensures IsCallback(c[i]) {
      assert i < |b| ==> c[i] == c[..|b|][i];
    }
  }

  // ---- the waiting context ------------------------------------------------------------

  /** c waits for the answer to a message sent before the last restart of its channel. */
  predicate SentBeforeRestart(s: State, c: Ctx) {
    && c in s.ctxs && s.ctxs[c].phase.Sent? && s.ctxs[c].fl in s.files
    && IsChannel(s.files[s.ctxs[c].fl].cid) && |s.ssrcount| == NUM_CHANNELS
    && s.ctxs[c].phase.epoch < s.ssrcount[s.files[s.ctxs[c].fl].cid]
  }

  /** If the lock is taken, its holder can be waited for; then n can take it. */
  lemma TakeLock(tr: seq<State>, acts: seq<Action>, n: nat) returns (tr': seq<State>, acts': seq<Action>)
    requires Run(tr, acts) && n in tr[|acts|].notifies && !tr[|acts|].notifies[n].begun
    ensures Run(tr', acts') && GoesOn(acts, acts') && OnlyWoken(tr[|acts|], tr'[|acts'|])
    ensures var s' := tr'[|acts'|];
            n in s'.notifies && s'.notifies[n] == Notify(tr[|acts|].notifies[n].cid, true, s'.files.Keys)
  {
    var s := tr[|acts|];
    tr', acts' := tr, acts;
    if m :| m in s.notifies && s.notifies[m].begun {
      tr', acts' := FinishCallback(tr, acts, m);
      RunCallbacksOk(tr, acts, |acts|);
      assert CallbackOk(s, m);
    }
    var s1 := tr'[|acts'|];
    CallbackOnlyWakes(s1, NotifyBegin(n));
    var acts1 := acts';
    tr', acts' := Extend(tr', acts', NotifyBegin(n));
    GoesOnTrans(acts, acts1, acts');
  }

  lemma VisitWakes(tr: seq<State>, acts: seq<Action>, c: Ctx, n: nat) returns (tr': seq<State>, acts': seq<Action>)
    requires Run(tr, acts) && SentBeforeRestart(tr[|acts|], c)
    requires var s := tr[|acts|];
             && Owes(s, n, s.ctxs[c].fl, s.files[s.ctxs[c].fl].cid) && s.notifies[n].begun
    ensures Run(tr', acts') && GoesOn(acts, acts') && Enabled(tr'[|acts'|], Consume(c))
  {
    RunKeepsInv(tr, acts, |acts|);
    var a := VisitLetsReturn(tr[|acts|], c, n);
    tr', acts' := Extend(tr, acts, a);
  }

  lemma VisitLetsReturn(s: State, c: Ctx, n: nat) returns (a: Action)
    requires Inv(s) && SentBeforeRestart(s, c) && n in s.notifies && s.notifies[n].begun
    requires Owes(s, n, s.ctxs[c].fl, s.files[s.ctxs[c].fl].cid)
    ensures IsCallback(a) && Enabled(s, a) && Enabled(Apply(s, a), Consume(c))
  {
    a := NotifyFile(n, s.ctxs[c].fl);
    EpochVisit(s, a);
    CallbackOnlyWakes(s, a);
    assert Woken(Apply(s, a), c);
  }

  /** No waiter is lost: from every reachable state in which a context waits for an answer the
      restarted subsystem will not give, the restart callbacks alone can get it to return. */
  lemma LostWaiterCanReturn(tr: seq<State>, acts: seq<Action>, c: Ctx) returns (tr': seq<State>, acts': seq<Action>)
    requires Run(tr, acts) && SentBeforeRestart(tr[|acts|], c)
    ensures Run(tr', acts') && GoesOn(acts, acts') && Enabled(tr'[|acts'|], Consume(c))
  {
    var s := tr[|acts|];
    tr', acts' := tr, acts;
    if s.ctxs[c].done == 0 {
      var fl := s.ctxs[c].fl;
      var cid := s.files[fl].cid;
      NoWaiterLost(tr, acts, |acts|, c);
      var n :| Owes(s, n, fl, cid);
      if !s.notifies[n].begun {
        tr', acts' := TakeLock(tr, acts, n);
      }
      var acts1 := acts';
      tr', acts' := VisitWakes(tr', acts', c, n);
      GoesOnTrans(acts, acts1, acts');
    }
  }

  /** An answer to a waiting context lets it return with the answer's value. */
  lemma AnsweredCanReturn(s: State, c: Ctx, pd: bv64, retval: int)
    requires LifeInv(s) && c in s.ctxs && s.ctxs[c].phase.Sent? && pd <= 2
    ensures var s' := Apply(s, Respond(Tag(s.ctxs[c].ctxid, pd), retval));
            Enabled(s', Consume(c)) && Apply(s', Consume(c)).ctxs[c] == s.ctxs[c].(retval := retval, phase := Done)
  {
    assert CtxOk(s, c);
    ResponseCompletesOne(s, c, pd, retval);
  }

  // ---- what can be done in each phase -------------------------------------------------

  /** Binding a file to a channel, and opening the channel again, take the channel's count: a
      context of the file that is ready can then send. */
  lemma BoundCanSend(s: State, a: Action, c: Ctx)
    requires Enabled(s, a) && (a.GetInfo? || a.ChannelOpen?)
    requires c in s.ctxs && s.ctxs[c].fl == a.fl && s.ctxs[c].phase == Ready
    ensures Enabled(Apply(s, a), Send(c))
  {
  }

  lemma FirstFreeFrom(table: map<Slot, Ctx>, i: bv64) returns (ii: Slot)
    requires i <= CTX_MAX && forall jj: Slot :: jj.index < i ==> jj in table
    ensures FirstFree(table, ii)
    decreases CTX_MAX - i
  {
    if i < CTX_MAX && Slot(i) in table {
      ii := FirstFreeFrom(table, i + 1);
    } else {
      ii := Slot(i);
    }
  }

  /** The step with which a context goes on, or gives up. */
  ghost predicate CanMove(s: State, c: Ctx)
    requires c in s.ctxs
  {
    var p := s.ctxs[c].phase;
    if p.Listed? then exists ii :: Enabled(s, AllocSlot(c, ii))
    else if p.Unlisted? then Enabled(s, FreeRetire(c))
    else if p.Retired? then Enabled(s, FreeSlot(c))
    else Enabled(s, FreeUnlist(c)) && (p.Sent? ==> Enabled(s, Interrupt(c)))
  }

  /** No context is ever stuck: only the wait itself depends on others. */
  lemma ContextCanMove(tr: seq<State>, acts: seq<Action>, i: nat, c: Ctx)
    requires Run(tr, acts) && Lives(tr, i, c)
    ensures CanMove(tr[i], c)
  {
    RunKeepsInv(tr, acts, i);
    assert CtxOk(tr[i], c);
    if tr[i].ctxs[c].phase.Listed? {
      ListedCanMove(tr[i], c);
    } else {
      LaterCanMove(tr[i], c);
    }
  }

  lemma ListedCanMove(s: State, c: Ctx)
    requires c in s.ctxs && s.ctxs[c].phase.Listed?
    ensures exists ii :: Enabled(s, AllocSlot(c, ii))
  {
    var ii := FirstFreeFrom(s.table, 0);
    assert Enabled(s, AllocSlot(c, ii));
  }

  lemma LaterCanMove(s: State, c: Ctx)
    requires CtxOk(s, c) && !s.ctxs[c].phase.Listed?
    ensures CanMove(s, c)
  {
  }

  // ---- interrupted calls --------------------------------------------------------------

  /** s' is s with node i of the file's interrupted list moved to the head of its pending list,
      waiting again for the same message. */
  ghost predicate Resumed(s: State, s': State, fl: File, i: nat) {
    && fl in s.files && i < |s.files[fl].interrupted|
    && var l, c := s.files[fl].interrupted, s.files[fl].interrupted[i];
    && c in s.ctxs && s.ctxs[c].phase.Interrupted?
    && s' == s.(files := s.files[fl := s.files[fl].(interrupted := l[..i] + l[i + 1..], pending := [c] + s.files[fl].pending)],
                ctxs := s.ctxs[c := s.ctxs[c].(phase := Sent(s.ctxs[c].phase.epoch))])
  }

  /** A restarted call resumes the first interrupted context of its thread if the scalars agree,
      and otherwise moves nothing. */
  lemma RestoreStep(s: State, fl: File, pid: int, sc: int) returns (i: nat)
    requires LifeInv(s) && fl in s.files
    ensures var l := s.files[fl].interrupted;
            && i <= |l| && (forall j :: 0 <= j < i ==> !OfThread(s.ctxs, l[j], pid)) && (i < |l| ==> OfThread(s.ctxs, l[i], pid))
            && (i == |l| || s.ctxs[l[i]].sc != sc ==> Apply(s, Restore(fl, pid, sc)) == s)
            && (i < |l| && s.ctxs[l[i]].sc == sc ==> Resumed(s, Apply(s, Restore(fl, pid, sc)), fl, i))
  {
    var l := s.files[fl].interrupted;
    i := FindPidIsFirst(l, s.ctxs, pid);
    if i < |l| {
      assert FileOk(s, fl) && Owns(s.files[fl], l[i]) && CtxOk(s, l[i]);
      DelAt(l, i);
    }
  }

  /** A call that a signal interrupts and its thread restarts goes on waiting for the same
      message: nothing has changed but its place on the pending list. */
  lemma InterruptThenRestore(s: State, c: Ctx)
    requires LifeInv(s) && Enabled(s, Interrupt(c))
    ensures var x := s.ctxs[c];
            var f := s.files[x.fl];
            Apply(Apply(s, Interrupt(c)), Restore(x.fl, x.pid, x.sc)) == SetFile(s, x.fl, f.(pending := [c] + Del(f.pending, c)))
  {
    var x := s.ctxs[c];
    var f := s.files[x.fl];
    var s1 := Apply(s, Interrupt(c));
    InterruptStep(s, c, s1, x, f);
    LifeStep(s, Interrupt(c));
    var i := RestoreStep(s1, x.fl, x.pid, x.sc);
    assert OfThread(s1.ctxs, s1.files[x.fl].interrupted[0], x.pid);
    MovedBack(s, s1, Apply(s1, Restore(x.fl, x.pid, x.sc)), c, x, f);
  }

  lemma InterruptStep(s: State, c: Ctx, s1: State, x: CtxRec, f: FileRec)
    requires Enabled(s, Interrupt(c)) && s1 == Apply(s, Interrupt(c)) && x == s.ctxs[c] && f == s.files[x.fl]
    ensures s1 == s.(files := s.files[x.fl := f.(pending := Del(f.pending, c), interrupted := [c] + f.interrupted)],
                     ctxs := s.ctxs[c := x.(phase := Interrupted(x.phase.epoch))])
  {
  }

  lemma MovedBack(s: State, s1: State, s2: State, c: Ctx, x: CtxRec, f: FileRec)
    requires c in s.ctxs && x == s.ctxs[c] && x.phase.Sent? && x.fl in s.files && f == s.files[x.fl]
    requires s1 == s.(files := s.files[x.fl := f.(pending := Del(f.pending, c), interrupted := [c] + f.interrupted)],
                      ctxs := s.ctxs[c := x.(phase := Interrupted(x.phase.epoch))])
    requires Resumed(s1, s2, x.fl, 0)
    ensures s2 == SetFile(s, x.fl, f.(pending := [c] + Del(f.pending, c)))
  {
    assert s2.files[x.fl] == f.(pending := [c] + Del(f.pending, c));
    assert s2.ctxs[c] == x;
    assert s2.ctxs == s.ctxs;
    assert s2.files == s.files[x.fl := s2.files[x.fl]];
  }
}
