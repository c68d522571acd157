/** Every step of the thread pool keeps its invariants. */
module ThreadPoolInv {
  import opened Basics
  import opened ThreadPool

  lemma InitKeeps(s: State)
    requires Init(s)
    ensures Inv(s)
  {
  }

  // ---- the lock -----------------------------------------------------------------------

  /** A step in which one worker moves and the lock follows it. */
  lemma LockMove(s: State, s': State, w: nat)
    requires LockInv(s) && w < |s.workers| == |s'.workers|
    requires forall v :: 0 <= v < |s.workers| && v != w ==> s'.workers[v].phase == s.workers[v].phase
    requires LockOk(s', w)
    requires s'.lock == s.lock || (s.lock == None && s'.lock == Some(w)) || (s.lock == Some(w) && s'.lock == None)
    ensures LockInv(s')
  {
    forall v | 0 <= v < |s'.workers| ensures LockOk(s', v) {
      assert LockOk(s, v);
    }
  }

  lemma LockControl(s: State)
    requires LockInv(s) && CanControl(s)
    ensures LockInv(ControlStep(s))
  {
    var s' := ControlStep(s);
    forall v | 0 <= v < |s'.workers| ensures LockOk(s', v) {
      assert LockOk(s, v);
    }
  }

  lemma LockStep(s: State, a: Action)
    requires LockInv(s) && Enabled(s, a) && (a.Stop? || a.Push? || a.Shrink?)
    ensures LockInv(Apply(s, a))
  {
    var s' := Apply(s, a);
    forall v | 0 <= v < |s'.workers| ensures LockOk(s', v) {
      assert LockOk(s, v);
    }
  }

  lemma LockWork(s: State, a: Action)
    requires LockInv(s) && Enabled(s, a) && (a.Work? || a.Spurious? || (a.NotifyOne? && a.woken.Some?))
    ensures LockInv(Apply(s, a))
  {
    var w := if a.NotifyOne? then a.woken.value else a.w;
    assert LockOk(s, w);
    LockMove(s, Apply(s, a), w);
  }

  lemma LockRest(s: State, a: Action)
    requires LockInv(s) && Enabled(s, a) && (a.Grow? || (a.NotifyOne? && a.woken.None?))
    ensures LockInv(Apply(s, a))
  {
    var s' := Apply(s, a);
    forall v | 0 <= v < |s'.workers| ensures LockOk(s', v) {
      assert v < |s.workers| ==> LockOk(s, v);
    }
  }

  // ---- the idle count -----------------------------------------------------------------

  lemma {:induction false} WakeAllCount(ws: seq<Worker>)
    ensures Count(WakeAll(ws), InWait) == Count(ws, InWait)
  {
    if ws != [] {
      var n := |ws| - 1;
      WakeAllCount(ws[..n]);
      assert WakeAll(ws)[..n] == WakeAll(ws[..n]);
    }
  }

  lemma IdleWork(s: State, a: Action)
    requires IdleInv(s) && Enabled(s, a) && (a.Spurious? || (a.NotifyOne? && a.woken.Some?))
    ensures IdleInv(Apply(s, a))
  {
    var w := if a.NotifyOne? then a.woken.value else a.w;
    CountSet(s.workers, w, Apply(s, a).workers[w], InWait);
  }

  lemma IdleBalance(s: State, w: nat)
    requires CanWork(s, w)
    ensures WorkStep(s, w).nWaiting - s.nWaiting
            == (if InWait(WorkStep(s, w).workers[w]) then 1 else 0) - (if InWait(s.workers[w]) then 1 else 0)
  {
    match s.workers[w].phase
    case Start =>
    case Pred0 =>
    case _ =>
  }

  lemma IdleWorker(s: State, w: nat)
    requires IdleInv(s) && CanWork(s, w)
    ensures IdleInv(WorkStep(s, w))
  {
    IdleBalance(s, w);
    CountSet(s.workers, w, WorkStep(s, w).workers[w], InWait);
  }

  lemma CountFlag(s: State, w: nat, f: Worker -> bool)
    requires w < |s.workers| && f(s.workers[w].(flag := true)) == f(s.workers[w])
    ensures Count(SetFlag(s, w).workers, f) == Count(s.workers, f)
  {
    CountSet(s.workers, w, s.workers[w].(flag := true), f);
  }

  lemma CountControl(s: State)
    requires CanControl(s)
    ensures Count(ControlStep(s).workers, InWait) == Count(s.workers, InWait)
  {
    WakeAllCount(s.workers);
    match s.ctl
    case StopFlags(i) =>
      if i < |s.threads| {
        CountFlag(s, s.threads[i], InWait);
      }
    case ShrinkFlags(i, n) =>
      if n < i {
        CountFlag(s, s.threads[i - 1], InWait);
      }
    case _ =>
  }

  lemma IdleRest(s: State, a: Action)
    requires IdleInv(s) && Enabled(s, a) && !a.Work? && !a.Spurious? && !(a.NotifyOne? && a.woken.Some?)
    ensures IdleInv(Apply(s, a))
  {
    if a.Control? {
      CountControl(s);
    } else if a.Grow? {
      var ws := Apply(s, a).workers;
      assert ws[..|ws| - 1] == s.workers;
    }
  }

  // ---- wake-ups -----------------------------------------------------------------------

  /** What the wake-up invariant needs of a step. */
  lemma WakeBalance(s: State, s': State)
    requires WakeInv(s)
    requires |s'.queue| - s'.owed <= |s.queue| - s.owed
    requires forall v :: 0 <= v < |s'.workers| ==> SleepOk(s', v)
    requires forall v :: 0 <= v < |s'.workers| && s'.workers[v].phase.Asleep? ==>
               |s'.queue| <= s'.owed
               || (v < |s.workers| && s.workers[v].phase.Asleep?
                   && |s'.queue| - s'.owed - Count(s'.workers, WillPop) <= |s.queue| - s.owed - Count(s.workers, WillPop))
    ensures WakeInv(s')
  {
  }

  lemma WakeWork(s: State, w: nat)
    requires WakeInv(s) && CanWork(s, w)
    ensures WakeInv(WorkStep(s, w))
  {
    var s' := WorkStep(s, w);
    var x := s'.workers[w];
    CountSet(s.workers, w, x, WillPop);
    assert s'.workers == s.workers[w := x];
    PopBalance(s, w);
    assert SleepOk(s, w);
    SleepAfter(s, w);
    forall v | 0 <= v < |s'.workers| ensures SleepOk(s', v) {
      assert SleepOk(s, v);
    }
    WakeBalance(s, s');
  }

  function One(b: bool): int {
    if b then 1 else 0
  }

  /** A worker stops being on its way to the queue only by taking a task or finding none. */
  lemma PopBalance(s: State, w: nat)
    requires CanWork(s, w)
    ensures var s' := WorkStep(s, w);
            && |s'.queue| <= |s.queue|
            && (s'.queue == [] || s'.workers[w].phase.Asleep?
                || |s'.queue| - One(WillPop(s'.workers[w])) <= |s.queue| - One(WillPop(s.workers[w])))
  {
    match s.workers[w].phase
    case Start =>
    case Pred0 =>
    case _ =>
  }

  /** A worker is about to sleep only past an empty queue. */
  lemma SleepAfter(s: State, w: nat)
    requires CanWork(s, w) && SleepOk(s, w)
    ensures SleepOk(WorkStep(s, w), w)
    ensures WorkStep(s, w).workers[w].phase.Asleep? ==> |WorkStep(s, w).queue| <= s.owed
  {
    match s.workers[w].phase
    case Start =>
    case Pred0 =>
    case _ =>
  }

  /** A push owes its notification; the notification, made with the lock held, finds nobody
      about to sleep. */
  lemma WakePush(s: State, a: Action)
    requires WakeInv(s) && LockInv(s) && Enabled(s, a) && (a.Push? || a.NotifyOne? || a.Spurious?)
    ensures WakeInv(Apply(s, a))
  {
    var s' := Apply(s, a);
    if a.Spurious? {
      CountSet(s.workers, a.w, s'.workers[a.w], WillPop);
    } else if a.NotifyOne? && a.woken.Some? {
      CountSet(s.workers, a.woken.value, s'.workers[a.woken.value], WillPop);
    }
    forall v | 0 <= v < |s'.workers| ensures SleepOk(s', v) {
      assert SleepOk(s, v) && LockOk(s, v);
    }
  }

  lemma WakeControl(s: State)
    requires WakeInv(s) && CanControl(s)
    ensures WakeInv(ControlStep(s))
  {
    if s.ctl.StopFlags? && s.ctl.i < |s.threads| {
      WakeFlag(s, s.threads[s.ctl.i], StopFlags(s.ctl.i + 1));
    } else if s.ctl.ShrinkFlags? && s.ctl.n < s.ctl.i {
      WakeFlag(s, s.threads[s.ctl.i - 1], ShrinkFlags(s.ctl.i - 1, s.ctl.n));
    } else if s.ctl.StopNotify? || s.ctl.ShrinkNotify? {
      WakeEverybody(s);
    } else {
      WakeKept(s, ControlStep(s));
    }
  }

  lemma WakeFlag(s: State, w: nat, ctl: Control)
    requires WakeInv(s) && w < |s.workers|
    ensures WakeInv(SetFlag(s, w).(ctl := ctl))
  {
    CountFlag(s, w, WillPop);
    var s' := SetFlag(s, w).(ctl := ctl);
    forall v | 0 <= v < |s'.workers| ensures SleepOk(s', v) {
      assert SleepOk(s, v);
    }
  }

  lemma WakeEverybody(s: State)
    requires WakeInv(s) && CanControl(s) && (s.ctl.StopNotify? || s.ctl.ShrinkNotify?)
    ensures WakeInv(ControlStep(s))
  {
    var s' := ControlStep(s);
    forall v | 0 <= v < |s'.workers| ensures SleepOk(s', v) && !s'.workers[v].phase.Asleep? {
      assert SleepOk(s, v);
    }
  }

  lemma WakeKept(s: State, s': State)
    requires WakeInv(s) && s'.workers == s.workers && s'.owed == s.owed && |s'.queue| <= |s.queue|
    ensures WakeInv(s')
  {
    forall v | 0 <= v < |s'.workers| ensures SleepOk(s', v) {
      assert SleepOk(s, v);
    }
  }

  lemma WakeRest(s: State, a: Action)
    requires WakeInv(s) && Enabled(s, a) && (a.Grow? || a.Shrink? || a.Stop?)
    ensures WakeInv(Apply(s, a))
  {
    var s' := Apply(s, a);
    if a.Grow? {
      assert s'.workers[..|s'.workers| - 1] == s.workers;
    }
    forall v | 0 <= v < |s'.workers| ensures SleepOk(s', v) {
      assert v < |s.workers| ==> SleepOk(s, v);
    }
  }
}
