/** What holds over whole runs of the thread pool. */
module ThreadPoolRuns {
  import opened Basics
  import opened ThreadPool
  import opened ThreadPoolInv
  import opened ThreadPoolTasks

  lemma WakeStep(s: State, a: Action)
    requires WakeInv(s) && LockInv(s) && Enabled(s, a)
    ensures WakeInv(Apply(s, a))
  {
    match a
    case Work(w) => WakeWork(s, w);
    case Control => WakeControl(s);
    case Push => WakePush(s, a);
    case NotifyOne(_) => WakePush(s, a);
    case Spurious(_) => WakePush(s, a);
    case _ => WakeRest(s, a);
  }

  lemma LockKeeps(s: State, a: Action)
    requires LockInv(s) && Enabled(s, a)
    ensures LockInv(Apply(s, a))
  {
    if a.Work? || a.Spurious? || (a.NotifyOne? && a.woken.Some?) {
      LockWork(s, a);
    } else if a.Grow? || a.NotifyOne? {
      LockRest(s, a);
    } else if a.Control? {
      LockControl(s);
    } else {
      LockStep(s, a);
    }
  }

  lemma IdleKeeps(s: State, a: Action)
    requires IdleInv(s) && Enabled(s, a)
    ensures IdleInv(Apply(s, a))
  {
    if a.Work? {
      IdleWorker(s, a.w);
    } else if a.Spurious? || (a.NotifyOne? && a.woken.Some?) {
      IdleWork(s, a);
    } else {
      IdleRest(s, a);
    }
  }

  lemma FateKeeps(s: State, a: Action)
    requires FateInv(s) && FifoInv(s) && Enabled(s, a)
    ensures FateInv(Apply(s, a))
  {
    if a.Work? {
      FateWork(s, a.w);
    } else {
      FateRest(s, a);
    }
  }

  lemma StepKeeps(s: State, a: Action)
    requires Inv(s) && Enabled(s, a)
    ensures Inv(Apply(s, a))
  {
    LockKeeps(s, a);
    IdleKeeps(s, a);
    WakeStep(s, a);
    FifoStep(s, a);
    FateKeeps(s, a);
    ControlKeeps(s, a);
  }

  lemma {:induction false} RunKeepsInv(tr: seq<State>, acts: seq<Action>, i: nat)
    requires Run(tr, acts) && i < |tr|
    ensures Inv(tr[i])
    decreases i
  {
    if i == 0 {
      InitKeeps(tr[0]);
    } else {
      assert StepAt(tr, acts, i - 1);
      RunKeepsInv(tr, acts, i - 1);
      StepKeeps(tr[i - 1], acts[i - 1]);
    }
  }

  // ---- no lost wake-up ----------------------------------------------------------------

  /** When a worker sleeps and no worker is on its way to the queue, every queued task has a
      pusher that has yet to notify. */
  lemma NoLostWakeup(tr: seq<State>, acts: seq<Action>, i: nat, w: nat)
    requires Run(tr, acts) && i < |tr| && w < |tr[i].workers| && tr[i].workers[w].phase.Asleep?
    requires forall v :: 0 <= v < |tr[i].workers| ==> !WillPop(tr[i].workers[v])
    ensures |tr[i].queue| <= tr[i].owed
  {
    RunKeepsInv(tr, acts, i);
    CountBounds(tr[i].workers, WillPop);
  }

  /** n_idle is never negative nor more than the workers. */
  lemma IdleBounds(tr: seq<State>, acts: seq<Action>, i: nat)
    requires Run(tr, acts) && i < |tr|
    ensures tr[i].nWaiting == Count(tr[i].workers, InWait) && 0 <= tr[i].nWaiting <= |tr[i].workers|
  {
    RunKeepsInv(tr, acts, i);
    CountBounds(tr[i].workers, InWait);
  }

  // ---- after a stop's notify_all ------------------------------------------------------

  /** From a stop's notify_all on, no worker started before sleeps, now or later. */
  lemma {:induction false} AwakeAfterStop(tr: seq<State>, acts: seq<Action>, i: nat, j: nat, w: nat)
    requires Run(tr, acts) && i <= j < |tr| && Notifying(tr[i].ctl) && w < |tr[i].workers|
    ensures Roused(tr[j], w) && !tr[j].workers[w].phase.Asleep?
    decreases j
  {
    if i == j {
      RunKeepsInv(tr, acts, i);
    } else {
      AwakeAfterStop(tr, acts, i, j - 1, w);
      assert StepAt(tr, acts, j - 1);
      RousedStays(tr[j - 1], acts[j - 1], w);
    }
  }

  /** While stop joins, some worker can move unless all have exited: nobody waits for a lock
      that nobody will release. */
  lemma SomeoneCanWork(tr: seq<State>, acts: seq<Action>, i: nat, w: nat)
    requires Run(tr, acts) && i < |tr| && Notifying(tr[i].ctl)
    requires w < |tr[i].workers| && !tr[i].workers[w].phase.Exited?
    ensures exists v :: CanWork(tr[i], v)
  {
    RunKeepsInv(tr, acts, i);
    var s := tr[i];
    assert Roused(s, w);
    if s.lock.Some? {
      assert LockOk(s, s.lock.value);
      assert CanWork(s, s.lock.value);
    } else {
      assert CanWork(s, w);
    }
  }

  function Rank(p: Phase): nat {
    match p
    case Exited => 0
    case Leaving => 1
    case Pred2 => 2
    case Pred1 => 3
    case Pred0 => 4
    case Notified => 5
    case Asleep => 6
    case WantLock => 6
    case Start => 7
    case PostRun => 8
    case Running(_) => 9
    case Got(_) => 10
  }

  function Total(ws: seq<Worker>): nat {
    if ws == [] then 0 else Total(ws[..|ws| - 1]) + Rank(ws[|ws| - 1].phase)
  }

  lemma {:induction false} TotalSet(ws: seq<Worker>, w: nat, x: Worker)
    requires w < |ws|
    ensures Total(ws[w := x]) == Total(ws) - Rank(ws[w].phase) + Rank(x.phase)
  {
    var n := |ws| - 1;
    if w < n {
      assert ws[w := x][..n] == ws[..n][w := x];
      TotalSet(ws[..n], w, x);
    } else {
      assert ws[w := x][..n] == ws[..n];
    }
  }

  /** How many steps the workers can still make when nobody pushes. */
  function Measure(s: State): nat {
    7 * |s.queue| + Total(s.workers)
  }

  lemma RankFalls(s: State, w: nat)
    requires CanWork(s, w) && Roused(s, w)
    ensures 7 * |WorkStep(s, w).queue| + Rank(WorkStep(s, w).workers[w].phase) < 7 * |s.queue| + Rank(s.workers[w].phase)
  {
    match s.workers[w].phase
    case Start =>
    case Pred0 =>
    case _ =>
  }

  lemma WorkFalls(s: State, w: nat)
    requires CanWork(s, w) && Roused(s, w)
    ensures Measure(WorkStep(s, w)) < Measure(s)
  {
    RankFalls(s, w);
    TotalSet(s.workers, w, WorkStep(s, w).workers[w]);
  }

  lemma OthersDoNotRaise(s: State, a: Action)
    requires Enabled(s, a) && Notifying(s.ctl) && !a.Work? && !a.Push?
    requires forall w :: 0 <= w < |s.workers| ==> !s.workers[w].phase.Asleep?
    ensures Measure(Apply(s, a)) <= Measure(s)
  {
  }

  function Works(acts: seq<Action>, i: nat, j: nat): nat
    requires i <= j <= |acts|
  {
    if i == j then 0 else Works(acts, i, j - 1) + if acts[j - 1].Work? then 1 else 0
  }

  /** While stop joins and nobody pushes, the workers make no more steps than the measure
      says: with the user's functions returning, stop returns. */
  lemma {:induction false} StopIsBounded(tr: seq<State>, acts: seq<Action>, i: nat, j: nat)
    requires Run(tr, acts) && i <= j < |tr|
    requires forall k :: i <= k < j ==> Notifying(tr[k].ctl) && !acts[k].Push?
    ensures Works(acts, i, j) + Measure(tr[j]) <= Measure(tr[i])
    decreases j
  {
    if i < j {
      StopIsBounded(tr, acts, i, j - 1);
      assert StepAt(tr, acts, j - 1);
      RunKeepsInv(tr, acts, j - 1);
      var s, a := tr[j - 1], acts[j - 1];
      forall w | 0 <= w < |s.workers| ensures !s.workers[w].phase.Asleep? {
        assert Roused(s, w);
      }
      if a.Work? {
        assert Roused(s, a.w);
        WorkFalls(s, a.w);
      } else {
        OthersDoNotRaise(s, a);
      }
    }
  }

  // ---- an abrupt stop -----------------------------------------------------------------

  predicate HasTask(p: Phase) {
    p.Running? || p.Got?
  }

  /** The tasks a flagged worker can still take: one, if it is on its way to the queue. */
  function Budget(p: Phase): nat {
    if NeedsLock(p) || p.Start? || p.Pred0? || p.Asleep? then 1 else 0
  }

  predicate IsFlagged(s: State, w: nat) {
    w < |s.workers| && s.workers[w].flag
  }

  /** Step a hands worker w a task. */
  predicate Takes(s: State, a: Action, w: nat)
    requires Enabled(s, a)
  {
    a == Work(w) && !HasTask(s.workers[w].phase) && HasTask(WorkStep(s, w).workers[w].phase)
  }

  lemma TakingSpends(s: State, a: Action, w: nat)
    requires Enabled(s, a) && IsFlagged(s, w)
    ensures IsFlagged(Apply(s, a), w)
    ensures Budget(Apply(s, a).workers[w].phase) + (if Takes(s, a, w) then 1 else 0) <= Budget(s.workers[w].phase)
  {
    if a == Work(w) {
      WorkSpends(s, w);
    } else {
      OthersDoNotSpend(s, a, w);
    }
  }

  lemma OthersDoNotSpend(s: State, a: Action, w: nat)
    requires Enabled(s, a) && IsFlagged(s, w) && a != Work(w)
    ensures IsFlagged(Apply(s, a), w) && Budget(Apply(s, a).workers[w].phase) <= Budget(s.workers[w].phase)
  {
    match a
    case Work(v) =>
    case Control => ControlDoesNotSpend(s, w);
    case _ =>
  }

  lemma ControlDoesNotSpend(s: State, w: nat)
    requires CanControl(s) && IsFlagged(s, w)
    ensures IsFlagged(ControlStep(s), w) && Budget(ControlStep(s).workers[w].phase) <= Budget(s.workers[w].phase)
  {
  }

  lemma WorkSpends(s: State, w: nat)
    requires CanWork(s, w) && s.workers[w].flag
    ensures Budget(WorkStep(s, w).workers[w].phase) + (if Takes(s, Work(w), w) then 1 else 0) <= Budget(s.workers[w].phase)
  {
  }

  function Taken(tr: seq<State>, acts: seq<Action>, w: nat, i: nat, j: nat): nat
    requires i <= j <= |acts| && |tr| == |acts| + 1 && forall k :: i <= k < j ==> StepAt(tr, acts, k)
  {
    if i == j then 0
    else
      assert StepAt(tr, acts, j - 1);
      Taken(tr, acts, w, i, j - 1) + if Takes(tr[j - 1], acts[j - 1], w) then 1 else 0
  }

  /** Once its flag is set, by stop(false) or by a shrinking resize, a worker takes at most one
      more task, and none if it has one in hand. */
  lemma {:induction false} FlaggedTakesAtMostOne(tr: seq<State>, acts: seq<Action>, w: nat, i: nat, j: nat)
    requires Run(tr, acts) && i <= j < |tr| && IsFlagged(tr[i], w)
    ensures IsFlagged(tr[j], w)
    ensures Taken(tr, acts, w, i, j) + Budget(tr[j].workers[w].phase) <= Budget(tr[i].workers[w].phase) <= 1
    ensures HasTask(tr[i].workers[w].phase) ==> Taken(tr, acts, w, i, j) == 0
    decreases j
  {
    if i < j {
      FlaggedTakesAtMostOne(tr, acts, w, i, j - 1);
      assert StepAt(tr, acts, j - 1);
      TakingSpends(tr[j - 1], acts[j - 1], w);
    }
  }

  // ---- tasks --------------------------------------------------------------------------

  /** A pushed task is in the queue or has one fate, not both; it is in the hand of a worker
      exactly when that worker carries it; and tasks leave in push order. */
  lemma TaskIsSomewhere(tr: seq<State>, acts: seq<Action>, i: nat, t: Task)
    requires Run(tr, acts) && i < |tr|
    ensures t in tr[i].queue <==> |tr[i].popped| <= t < tr[i].pushed
    ensures t in tr[i].fate <==> t < |tr[i].popped| <= tr[i].pushed
    ensures forall w :: 0 <= w < |tr[i].workers| ==>
              (Carries(tr[i].workers[w].phase, t) <==> t in tr[i].fate && tr[i].fate[t] == InHand(w))
    ensures forall k :: 0 <= k < |tr[i].popped| ==> tr[i].popped[k] == k
  {
    RunKeepsInv(tr, acts, i);
    var s := tr[i];
    if |s.popped| <= t < s.pushed {
      assert s.queue[t - |s.popped|] == t;
    }
    assert t in s.fate ==> FateOk(s, t);
  }

  lemma StepPops(s: State, a: Action)
    requires Enabled(s, a)
    ensures |s.popped| <= |Apply(s, a).popped|
  {
    match a
    case Work(w) =>
    case Control =>
    case _ =>
  }

  lemma {:induction false} PoppedGrows(tr: seq<State>, acts: seq<Action>, i: nat, j: nat)
    requires Run(tr, acts) && i <= j < |tr|
    ensures |tr[i].popped| <= |tr[j].popped|
    decreases j
  {
    if i < j {
      PoppedGrows(tr, acts, i, j - 1);
      assert StepAt(tr, acts, j - 1);
      StepPops(tr[j - 1], acts[j - 1]);
    }
  }

  /** Step i hands t to a worker. */
  ghost predicate Starts(tr: seq<State>, acts: seq<Action>, i: nat, t: Task) {
    && i < |acts| && |tr| == |acts| + 1 && acts[i].Work?
    && acts[i].w < |tr[i].workers| && acts[i].w < |tr[i + 1].workers|
    && !Carries(tr[i].workers[acts[i].w].phase, t) && Carries(tr[i + 1].workers[acts[i].w].phase, t)
  }

  lemma StartPops(s: State, w: nat, t: Task)
    requires FifoInv(s) && CanWork(s, w)
    requires !Carries(s.workers[w].phase, t) && Carries(WorkStep(s, w).workers[w].phase, t)
    ensures t == |s.popped| && |WorkStep(s, w).popped| == t + 1
  {
    match s.workers[w].phase
    case Start =>
    case Pred0 =>
    case _ =>
  }

  lemma RunsAtMostOnce(tr: seq<State>, acts: seq<Action>, i: nat, j: nat, t: Task)
    requires Run(tr, acts) && i < j && Starts(tr, acts, i, t)
    ensures !Starts(tr, acts, j, t)
  {
    if Starts(tr, acts, j, t) {
      assert StepAt(tr, acts, i) && StepAt(tr, acts, j);
      RunKeepsInv(tr, acts, i);
      RunKeepsInv(tr, acts, j);
      StartPops(tr[i], acts[i].w, t);
      StartPops(tr[j], acts[j].w, t);
      PoppedGrows(tr, acts, i + 1, j);
    }
  }
}
