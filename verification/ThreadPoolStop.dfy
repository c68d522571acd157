/** Exactly when a graceful stop runs every task that was pushed before it. */
module ThreadPoolStop {
  import opened Basics
  import opened ThreadPool
  import opened ThreadPoolInv
  import opened ThreadPoolTasks
  import opened ThreadPoolRuns

  /** The worker was told to finish. */
  predicate Quitting(p: Phase) {
    p.Leaving? || p.Exited?
  }

  /** Once isDone is set, the worker will not pop again. */
  predicate PastPop(p: Phase) {
    p.Pred1? || Quitting(p)
  }

  ghost predicate NoneDiscarded(s: State) {
    forall t :: t in s.fate ==> s.fate[t] != Discarded
  }

  /** Before any stop or shrink: every worker is owned, unflagged and at work. */
  ghost predicate Calm(s: State) {
    && !s.isDone && !s.isStop && s.ctl.Idle? && NoneDiscarded(s)
    && forall w :: 0 <= w < |s.workers| ==> CalmWorker(s, w)
  }

  predicate CalmWorker(s: State, w: nat) {
    w < |s.workers| && w in s.threads && !s.workers[w].flag && !Quitting(s.workers[w].phase)
  }

  predicate MayPop(s: State, w: nat) {
    w < |s.workers| && !PastPop(s.workers[w].phase)
  }

  /** After stop(true): while a task is queued, some worker still has a pop to make. */
  ghost predicate Draining(s: State) {
    && s.isDone && !s.isStop && NoneDiscarded(s)
    && (s.ctl.StopNotify? || Notifying(s.ctl) || s.ctl.Idle?)
    && (forall w :: 0 <= w < |s.workers| ==> DrainWorker(s, w))
    && (s.queue != [] ==> exists w :: MayPop(s, w))
  }

  predicate DrainWorker(s: State, w: nat) {
    && w < |s.workers| && !s.workers[w].flag
    && (!s.ctl.Idle? ==> w in s.threads)
    && (s.ctl.LastClear? || s.ctl.Idle? ==> s.workers[w].phase.Exited?)
  }

  /** Tasks are queued, and every worker has found the queue empty and is about to read
      isDone. */
  ghost predicate Missed(s: State) {
    s.queue != [] && forall w :: 0 <= w < |s.workers| ==> s.workers[w].phase.Pred1?
  }

  ghost predicate AllFinished(s: State) {
    forall t: Task :: t < s.pushed ==> t in s.fate && s.fate[t] == Finished
  }

  predicate Harmless(a: Action) {
    !a.Stop? && !a.Shrink?
  }

  lemma CalmWork(s: State, a: Action)
    requires Calm(s) && Enabled(s, a) && a.Work?
    ensures Calm(Apply(s, a))
  {
    var s' := Apply(s, a);
    assert CalmWorker(s, a.w);
    forall w | 0 <= w < |s'.workers| ensures CalmWorker(s', w) {
      assert CalmWorker(s, w);
    }
  }

  lemma CalmRest(s: State, a: Action)
    requires Calm(s) && Enabled(s, a) && Harmless(a) && !a.Work?
    ensures Calm(Apply(s, a))
  {
    var s' := Apply(s, a);
    forall w | 0 <= w < |s'.workers| ensures CalmWorker(s', w) {
      if w < |s.workers| {
        assert CalmWorker(s, w);
      } else {
        assert s'.threads[|s.threads|] == w;
      }
    }
  }

  lemma {:induction false} CalmUntil(tr: seq<State>, acts: seq<Action>, k: nat)
    requires Run(tr, acts) && k < |tr| && forall i :: 0 <= i < k ==> Harmless(acts[i])
    ensures Calm(tr[k])
    decreases k
  {
    if k > 0 {
      CalmUntil(tr, acts, k - 1);
      assert StepAt(tr, acts, k - 1);
      if acts[k - 1].Work? {
        CalmWork(tr[k - 1], acts[k - 1]);
      } else {
        CalmRest(tr[k - 1], acts[k - 1]);
      }
    }
  }

  lemma StopStarts(s: State)
    requires Calm(s) && !Missed(s)
    ensures Draining(Apply(s, Stop(true)))
  {
    var s' := Apply(s, Stop(true));
    forall w | 0 <= w < |s'.workers| ensures DrainWorker(s', w) {
      assert CalmWorker(s, w);
    }
    if s.queue != [] {
      var w :| 0 <= w < |s.workers| && !s.workers[w].phase.Pred1?;
      assert CalmWorker(s, w);
      assert MayPop(s', w);
    }
  }

  lemma WorkMayPop(s: State, w: nat, v: nat)
    requires CanWork(s, w) && MayPop(s, v) && WorkStep(s, w).queue != [] && !s.workers[w].flag
    ensures MayPop(WorkStep(s, w), v)
  {
  }

  lemma DrainWork(s: State, a: Action)
    requires Draining(s) && Enabled(s, a) && a.Work?
    ensures Draining(Apply(s, a))
  {
    var s' := Apply(s, a);
    assert DrainWorker(s, a.w);
    forall w | 0 <= w < |s'.workers| ensures DrainWorker(s', w) {
      assert DrainWorker(s, w);
    }
    if s'.queue != [] {
      var v :| MayPop(s, v);
      WorkMayPop(s, a.w, v);
    }
  }

  lemma DrainRest(s: State, a: Action)
    requires Draining(s) && Enabled(s, a) && !a.Work? && !a.Push? && !a.Control? && a != Stop(false)
    ensures Draining(Apply(s, a))
  {
    var s' := Apply(s, a);
    forall w | 0 <= w < |s'.workers| ensures DrainWorker(s', w) {
      assert DrainWorker(s, w);
    }
    if s'.queue != [] {
      var v :| MayPop(s, v);
      assert MayPop(s', v);
    }
  }

  lemma DrainControl(s: State)
    requires Draining(s) && ControlInv(s) && CanControl(s)
    ensures Draining(ControlStep(s))
  {
    var s' := ControlStep(s);
    if s.queue != [] {
      var v :| MayPop(s, v);
      assert DrainWorker(s, v) && MayPop(s', v);
    }
    forall w | 0 <= w < |s'.workers| ensures DrainWorker(s', w) {
      assert DrainWorker(s, w);
      if s.ctl.Joining? && s'.ctl.LastClear? {
        var j :| 0 <= j < |s.threads| && s.threads[j] == w;
        assert Gone(s, j);
      }
    }
  }

  lemma {:induction false} DrainsOn(tr: seq<State>, acts: seq<Action>, k: nat, j: nat)
    requires Run(tr, acts) && k < j < |tr| && Draining(tr[k + 1])
    requires forall i :: k < i < j ==> !acts[i].Push? && acts[i] != Stop(false)
    ensures Draining(tr[j])
    decreases j
  {
    if k + 1 < j {
      DrainsOn(tr, acts, k, j - 1);
      assert StepAt(tr, acts, j - 1);
      RunKeepsInv(tr, acts, j - 1);
      var a := acts[j - 1];
      if a.Work? {
        DrainWork(tr[j - 1], a);
      } else if a.Control? {
        DrainControl(tr[j - 1]);
      } else {
        DrainRest(tr[j - 1], a);
      }
    }
  }

  /** After stop(true) with no worker left to pop, t is not finished. */
  ghost predicate Doomed(s: State, t: Task) {
    && s.isDone && (forall w :: 0 <= w < |s.workers| ==> !MayPop(s, w))
    && !(t in s.fate && s.fate[t] == Finished)
  }

  lemma DoomedStep(s: State, a: Action, t: Task)
    requires Doomed(s, t) && Enabled(s, a)
    ensures Doomed(Apply(s, a), t)
  {
    var s' := Apply(s, a);
    if a.Work? {
      assert !MayPop(s, a.w);
    }
    forall w | 0 <= w < |s'.workers| ensures !MayPop(s', w) {
      assert !MayPop(s, w);
    }
  }

  lemma {:induction false} DoomedStays(tr: seq<State>, acts: seq<Action>, t: Task, k: nat, j: nat)
    requires Run(tr, acts) && k < j < |tr| && Doomed(tr[k + 1], t)
    ensures Doomed(tr[j], t)
    decreases j
  {
    if k + 1 < j {
      DoomedStays(tr, acts, t, k, j - 1);
      assert StepAt(tr, acts, j - 1);
      DoomedStep(tr[j - 1], acts[j - 1], t);
    }
  }

  /** The first stop of a pool never shrunk is step k, a stop(true), and state j is when it has
      joined its threads or returned. */
  ghost predicate GracefulStop(tr: seq<State>, acts: seq<Action>, k: nat, j: nat) {
    && Run(tr, acts) && k < j < |tr| && acts[k] == Stop(true)
    && (forall i :: 0 <= i < k ==> Harmless(acts[i]))
    && (forall i :: k < i < j ==> !acts[i].Push? && acts[i] != Stop(false))
    && (tr[j].ctl.LastClear? || tr[j].ctl.Idle?)
  }

  lemma MissedIsLost(tr: seq<State>, acts: seq<Action>, k: nat, j: nat)
    requires GracefulStop(tr, acts, k, j) && Missed(tr[k])
    ensures !AllFinished(tr[j])
  {
    CalmUntil(tr, acts, k);
    RunKeepsInv(tr, acts, k);
    assert StepAt(tr, acts, k);
    var t := tr[k].queue[0];
    assert t == |tr[k].popped| && t < tr[k].pushed;
    DoomedStays(tr, acts, t, k, j);
    NoPushes(tr, acts, k + 1, j);
  }

  lemma DrainedIsFinished(tr: seq<State>, acts: seq<Action>, k: nat, j: nat)
    requires GracefulStop(tr, acts, k, j) && !Missed(tr[k])
    ensures tr[j].queue == [] && AllFinished(tr[j])
  {
    CalmUntil(tr, acts, k);
    assert StepAt(tr, acts, k);
    StopStarts(tr[k]);
    DrainsOn(tr, acts, k, j);
    RunKeepsInv(tr, acts, j);
    var s := tr[j];
    forall w | 0 <= w < |s.workers| ensures s.workers[w].phase.Exited? {
      assert DrainWorker(s, w);
    }
    forall t: Task | t < s.pushed ensures t in s.fate && s.fate[t] == Finished {
      assert FateOk(s, t);
    }
  }

  /** stop(true) runs every task pushed before it to its end, whether or not the push has
      notified yet, if and only if it does not come when tasks are queued and every worker is
      between its failed pop and its read of isDone. No push comes after the stop. */
  lemma GracefulStopIff(tr: seq<State>, acts: seq<Action>, k: nat, j: nat)
    requires GracefulStop(tr, acts, k, j)
    ensures tr[j].pushed == tr[k].pushed
    ensures AllFinished(tr[j]) <==> !Missed(tr[k])
    ensures !Missed(tr[k]) ==> tr[j].queue == []
  {
    assert StepAt(tr, acts, k);
    NoPushes(tr, acts, k + 1, j);
    if Missed(tr[k]) {
      MissedIsLost(tr, acts, k, j);
    } else {
      DrainedIsFinished(tr, acts, k, j);
    }
  }

  /** The lock lets one worker at most into that gap, and a push that has notified has found it
      empty: two workers, or one and no push under way, are enough. */
  lemma GracefulStopRunsAll(tr: seq<State>, acts: seq<Action>, k: nat, j: nat)
    requires GracefulStop(tr, acts, k, j)
    requires |tr[k].workers| >= 2 || (|tr[k].workers| == 1 && tr[k].owed == 0)
    ensures tr[j].queue == [] && tr[j].pushed == tr[k].pushed && AllFinished(tr[j])
  {
    RunKeepsInv(tr, acts, k);
    assert LockOk(tr[k], 0) && SleepOk(tr[k], 0);
    assert |tr[k].workers| >= 2 ==> LockOk(tr[k], 1);
    GracefulStopIff(tr, acts, k, j);
  }

  lemma {:induction false} NoPushes(tr: seq<State>, acts: seq<Action>, k: nat, j: nat)
    requires Run(tr, acts) && k <= j < |tr|
    requires forall i :: k <= i < j ==> !acts[i].Push?
    ensures tr[j].pushed == tr[k].pushed
    decreases j
  {
    if k < j {
      NoPushes(tr, acts, k, j - 1);
      assert StepAt(tr, acts, j - 1);
    }
  }

  // ---- a push under way at the stop ---------------------------------------------------

  lemma Extend(tr: seq<State>, acts: seq<Action>, a: Action) returns (tr': seq<State>, acts': seq<Action>)
    requires Run(tr, acts) && Enabled(tr[|acts|], a)
    ensures Run(tr', acts') && acts' == acts + [a] && tr' == tr + [Apply(tr[|acts|], a)]
  {
    tr', acts' := tr + [Apply(tr[|acts|], a)], acts + [a];
    forall i | 0 <= i < |acts'| ensures StepAt(tr', acts', i) {
      assert i < |acts| ==> StepAt(tr, acts, i);
    }
  }

  /** A worker on its way from the empty queue to sleep. */
  lemma WorkerInPredicate() returns (tr: seq<State>, acts: seq<Action>)
    ensures Run(tr, acts) && |acts| == 4 && forall a :: a in acts ==> Harmless(a) && !a.Push?
    ensures tr[4] == State(0, [], [], map[], [Worker(Pred1, false)], [0], Some(0), 0, 1, false, false, Idle)
  {
    var s0 := State(0, [], [], map[], [], [], None, 0, 0, false, false, Idle);
    tr, acts := [s0], [];
    tr, acts := Extend(tr, acts, Grow);
    assert tr[1].workers == [Worker(Start, false)] && tr[1].threads == [0];
    tr, acts := Extend(tr, acts, Work(0));
    assert tr[2].workers == [Worker(WantLock, false)];
    tr, acts := Extend(tr, acts, Work(0));
    assert tr[3].workers == [Worker(Pred0, false)];
    tr, acts := Extend(tr, acts, Work(0));
    assert tr[4].workers == [Worker(Pred1, false)];
  }

  /** The stop comes between a push and its notification, and the worker exits. */
  lemma WorkerMissesPush() returns (tr: seq<State>, acts: seq<Action>)
    ensures Run(tr, acts) && |acts| == 8 && acts[4] == Push && acts[5] == Stop(true) && tr[5].owed == 1 && Missed(tr[5])
    ensures forall i :: 0 <= i < 8 && i != 5 ==> Harmless(acts[i])
    ensures tr[8] == State(1, [0], [], map[], [Worker(Exited, false)], [0], None, 1, 0, true, false, StopNotify)
  {
    tr, acts := WorkerInPredicate();
    tr, acts := Extend(tr, acts, Push);
    tr, acts := Extend(tr, acts, Stop(true));
    tr, acts := Extend(tr, acts, Work(0));
    assert tr[7].workers == [Worker(Leaving, false)];
    tr, acts := Extend(tr, acts, Work(0));
    assert tr[8].workers == [Worker(Exited, false)];
  }

  /** That gap exists: a pool of one worker, a stop between a push and its notification, and
      the task is discarded. */
  lemma PushUnderWayIsLost() returns (tr: seq<State>, acts: seq<Action>)
    ensures Run(tr, acts) && |acts| == 12 && acts[4] == Push && acts[5] == Stop(true) && tr[5].owed == 1 && Missed(tr[5])
    ensures forall i :: 0 <= i < 12 && i != 5 ==> Harmless(acts[i])
    ensures tr[12].ctl.LastClear? && 0 in tr[12].fate && tr[12].fate[0] == Discarded
  {
    tr, acts := WorkerMissesPush();
    tr, acts := Extend(tr, acts, Action.Control);
    assert tr[9].workers == [Worker(Exited, false)];
    tr, acts := Extend(tr, acts, Action.Control);
    tr, acts := Extend(tr, acts, Action.Control);
    tr, acts := Extend(tr, acts, Action.Control);
  }
}
