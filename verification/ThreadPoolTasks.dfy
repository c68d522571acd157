/** What becomes of the tasks, and of the thread that stops or shrinks the pool. */
module ThreadPoolTasks {
  import opened Basics
  import opened ThreadPool

  // ---- first in, first out ------------------------------------------------------------

  lemma FifoPop(s: State, f: Fate)
    requires FifoInv(s) && s.queue != []
    ensures FifoInv(Pop(s, f)) && s.queue[0] == |s.popped|
  {
  }

  lemma FifoWork(s: State, w: nat)
    requires FifoInv(s) && CanWork(s, w)
    ensures FifoInv(WorkStep(s, w))
  {
    if (s.workers[w].phase.Start? || s.workers[w].phase.Pred0?) && s.queue != [] {
      FifoPop(s, InHand(w));
    }
  }

  lemma FifoStep(s: State, a: Action)
    requires FifoInv(s) && Enabled(s, a)
    ensures FifoInv(Apply(s, a))
  {
    if a.Work? {
      FifoWork(s, a.w);
    } else if a.Control? && s.queue != [] {
      FifoPop(s, Discarded);
    }
  }

  // ---- fates --------------------------------------------------------------------------

  lemma FateSame(s: State, s': State)
    requires FateInv(s) && s'.popped == s.popped && s'.fate == s.fate && |s.workers| <= |s'.workers|
    requires forall w, t: Task :: 0 <= w < |s'.workers| ==>
               (Carries(s'.workers[w].phase, t) <==> w < |s.workers| && Carries(s.workers[w].phase, t))
    ensures FateInv(s')
  {
    forall t: Task | t in s'.fate ensures FateOk(s', t) {
      assert FateOk(s, t);
    }
  }

  /** The front task is dropped by a clearing loop. */
  lemma FateDiscard(s: State)
    requires FateInv(s) && FifoInv(s) && s.queue != []
    ensures FateInv(Pop(s, Discarded))
  {
    var s' := Pop(s, Discarded);
    FifoPop(s, Discarded);
    forall t: Task | t in s'.fate ensures FateOk(s', t) {
      assert t in s.fate ==> FateOk(s, t);
    }
  }

  /** Worker w takes the front task, which nobody had before. */
  lemma FateTake(s: State, w: nat, p: Phase)
    requires FateInv(s) && FifoInv(s) && s.queue != [] && w < |s.workers| && (p == Running(s.queue[0]) || p == Got(s.queue[0]))
    requires !s.workers[w].phase.Running? && !s.workers[w].phase.Got?
    ensures FateInv(SetPhase(Pop(s, InHand(w)), w, p))
  {
    var s' := SetPhase(Pop(s, InHand(w)), w, p);
    var t0 := s.queue[0];
    FifoPop(s, InHand(w));
    assert s'.fate == s.fate[t0 := InHand(w)] && |s'.popped| == t0 + 1;
    forall t: Task | t in s'.fate ensures FateOk(s', t) {
      assert t != t0 ==> FateOk(s, t);
    }
    forall v, t: Task | 0 <= v < |s'.workers| && Carries(s'.workers[v].phase, t) ensures t in s'.fate && s'.fate[t] == InHand(v) {
      assert v != w ==> Carries(s.workers[v].phase, t) && t in s.fate;
    }
  }

  /** Worker w ends its task: no other worker has it. */
  lemma FateFinish(s: State, w: nat, t: Task)
    requires FateInv(s) && w < |s.workers| && s.workers[w].phase == Running(t)
    ensures FateInv(SetPhase(s, w, PostRun).(fate := s.fate[t := Finished]))
  {
    var s' := SetPhase(s, w, PostRun).(fate := s.fate[t := Finished]);
    assert Carries(s.workers[w].phase, t);
    assert s.fate[t] == InHand(w);
    forall u: Task | u in s'.fate ensures FateOk(s', u) {
      assert FateOk(s, u);
    }
    forall v, u: Task | 0 <= v < |s'.workers| && Carries(s'.workers[v].phase, u) ensures u in s'.fate && s'.fate[u] == InHand(v) {
      assert v != w && Carries(s.workers[v].phase, u);
    }
  }

  lemma FateWork(s: State, w: nat)
    requires FateInv(s) && FifoInv(s) && CanWork(s, w)
    ensures FateInv(WorkStep(s, w))
  {
    var s' := WorkStep(s, w);
    match s.workers[w].phase
    case Start => if s.queue != [] { FateTake(s, w, Running(s.queue[0])); } else { FateSame(s, s'); }
    case Pred0 => if s.queue != [] { FateTake(s, w, Got(s.queue[0])); } else { FateSame(s, s'); }
    case Running(t) => FateFinish(s, w, t);
    case _ => FateSame(s, s');
  }

  lemma FateControl(s: State)
    requires FateInv(s) && FifoInv(s) && CanControl(s)
    ensures FateInv(ControlStep(s))
  {
    if (s.ctl.StopClear? || s.ctl.LastClear?) && s.queue != [] {
      FateDiscard(s);
    } else {
      FateSame(s, ControlStep(s));
    }
  }

  lemma FateRest(s: State, a: Action)
    requires FateInv(s) && FifoInv(s) && Enabled(s, a) && !a.Work?
    ensures FateInv(Apply(s, a))
  {
    if a.Control? {
      FateControl(s);
    } else {
      FateSame(s, Apply(s, a));
    }
  }

  // ---- the controlling thread ---------------------------------------------------------

  /** Once awake for good, always. */
  lemma RousedStays(s: State, a: Action, v: nat)
    requires Enabled(s, a) && Roused(s, v)
    ensures Roused(Apply(s, a), v)
  {
    if a.Work? && a.w == v {
      RousedWork(s, v);
    }
  }

  lemma RousedWork(s: State, v: nat)
    requires CanWork(s, v) && Roused(s, v)
    ensures Roused(WorkStep(s, v), v)
  {
  }

  lemma FlaggedStays(s: State, a: Action, j: nat)
    requires Enabled(s, a) && Flagged(s, j) && !(a.Control? && s.ctl.LastClear?) && !(a.Control? && s.ctl.ShrinkNotify?)
    ensures Flagged(Apply(s, a), j)
  {
  }

  lemma GoneStays(s: State, a: Action, j: nat)
    requires Enabled(s, a) && Gone(s, j) && !(a.Control? && s.ctl.LastClear?) && !(a.Control? && s.ctl.ShrinkNotify?)
    ensures Gone(Apply(s, a), j)
  {
  }

  /** With the lock free nobody is between the reads of the predicate, so notify_all leaves
      awake for good everybody who is flagged, and everybody once isDone is set. */
  lemma NotifyRouses(s: State, v: nat)
    requires LockInv(s) && s.lock == None && v < |s.workers| && (s.workers[v].flag || s.isDone)
    ensures Roused(NotifyAll(s), v)
  {
    assert LockOk(s, v);
  }

  /** The steps of workers and pushers. */
  lemma ControlOthers(s: State, a: Action)
    requires ControlInv(s) && Enabled(s, a) && (a.Push? || a.NotifyOne? || a.Work? || a.Spurious?)
    ensures ControlInv(Apply(s, a))
  {
    var s' := Apply(s, a);
    assert s'.ctl == s.ctl && s'.threads == s.threads && |s'.workers| == |s.workers| && s'.isDone == s.isDone;
    forall v | 0 <= v < |s'.workers| && Roused(s, v) ensures Roused(s', v) {
      RousedStays(s, a, v);
    }
    forall j | 0 <= j < |s.threads| && Flagged(s, j) ensures Flagged(s', j) {
      FlaggedStays(s, a, j);
    }
    forall j | 0 <= j < |s.threads| && Gone(s, j) ensures Gone(s', j) {
      GoneStays(s, a, j);
    }
  }

  lemma ControlStarts(s: State, a: Action)
    requires ControlInv(s) && Enabled(s, a) && (a.Grow? || a.Shrink? || a.Stop?)
    ensures ControlInv(Apply(s, a))
  {
    var s' := Apply(s, a);
    forall v | 0 <= v < |s'.workers| ensures v in s'.threads || Roused(s', v) {
      if v < |s.workers| && Roused(s, v) {
        RousedStays(s, a, v);
      } else if v < |s.workers| {
        assert v in s.threads;
      } else {
        assert s'.threads[|s.threads|] == v;
      }
    }
  }

  lemma ControlFlags(s: State)
    requires ControlInv(s) && CanControl(s) && (s.ctl.StopFlags? || s.ctl.ShrinkFlags?)
    ensures ControlInv(ControlStep(s))
  {
    var s' := ControlStep(s);
    forall v | 0 <= v < |s'.workers| && Roused(s, v) ensures Roused(s', v) {
      RousedStays(s, Action.Control, v);
    }
    forall j | 0 <= j < |s.threads| && Flagged(s, j) ensures Flagged(s', j) {
      FlaggedStays(s, Action.Control, j);
    }
  }

  lemma ControlClears(s: State)
    requires ControlInv(s) && CanControl(s) && (s.ctl.StopClear? || s.ctl.LastClear? || s.ctl.Joining?)
    ensures ControlInv(ControlStep(s))
  {
    var s' := ControlStep(s);
    assert s'.workers == s.workers && s'.isDone == s.isDone;
    forall v | 0 <= v < |s'.workers| && Roused(s, v) ensures Roused(s', v) {
    }
    forall j | 0 <= j < |s'.threads| ensures Flagged(s', j) == Flagged(s, j) && Gone(s', j) == Gone(s, j) {
    }
  }

  lemma ControlNotifies(s: State)
    requires ControlInv(s) && LockInv(s) && CanControl(s) && (s.ctl.StopNotify? || s.ctl.ShrinkNotify?)
    ensures ControlInv(ControlStep(s))
  {
    var s' := ControlStep(s);
    forall v | 0 <= v < |s'.workers| ensures v in s'.threads || Roused(s', v) {
      if v in s.threads {
        var j :| 0 <= j < |s.threads| && s.threads[j] == v;
        if s.isDone || Flagged(s, j) {
          NotifyRouses(s, v);
        } else {
          assert s'.threads[j] == v;
        }
      } else {
        RousedStays(s, Action.Control, v);
      }
    }
    if s.ctl.StopNotify? {
      forall v | 0 <= v < |s'.workers| ensures Roused(s', v) {
        if v in s.threads {
          var j :| 0 <= j < |s.threads| && s.threads[j] == v;
          assert s.isDone || Flagged(s, j);
          NotifyRouses(s, v);
        } else {
          RousedStays(s, Action.Control, v);
        }
      }
    }
  }

  lemma ControlKeeps(s: State, a: Action)
    requires ControlInv(s) && LockInv(s) && Enabled(s, a)
    ensures ControlInv(Apply(s, a))
  {
    if a.Control? {
      match s.ctl
      case StopFlags(_) => ControlFlags(s);
      case ShrinkFlags(_, _) => ControlFlags(s);
      case StopNotify => ControlNotifies(s);
      case ShrinkNotify(_) => ControlNotifies(s);
      case _ => ControlClears(s);
    } else if a.Grow? || a.Shrink? || a.Stop? {
      ControlStarts(s, a);
    } else {
      ControlOthers(s, a);
    }
  }

  /** The controlling thread is never stuck but where it waits: for the lock, and for the
      thread it joins. */
  lemma ControlNeverStuck(s: State)
    requires ControlInv(s) && !s.ctl.Idle?
    ensures CanControl(s) || (s.ctl.StopNotify? && s.lock != None) || (s.ctl.ShrinkNotify? && s.lock != None)
            || (s.ctl.Joining? && s.ctl.i < |s.threads| && !s.workers[s.threads[s.ctl.i]].phase.Exited?)
  {
  }
}
