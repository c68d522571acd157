/** How stop and resize end, whatever the workers and pushers do meanwhile. */
module ThreadPoolEnds {
  import opened Basics
  import opened ThreadPool
  import opened ThreadPoolInv
  import opened ThreadPoolTasks
  import opened ThreadPoolRuns
  import opened ThreadPoolStop
  import opened ThreadPoolRest

  // ---- stop and resize return ---------------------------------------------------------

  predicate InShrink(c: Control) {
    c.ShrinkFlags? || c.ShrinkNotify?
  }

  /** How far the call is from its end. */
  function Stage(c: Control, n: nat): int {
    match c
    case Idle => 0
    case LastClear => 1
    case Joining(i) => 2 + n - i
    case StopNotify => 3 + n
    case StopClear => 4 + n
    case StopFlags(i) => 5 + n + n - i
    case ShrinkNotify(_) => 1
    case ShrinkFlags(i, m) => 2 + i - m
  }

  lemma StageBounds(s: State)
    requires ControlInv(s)
    ensures Stage(s.ctl, |s.threads|) >= 0 && (Stage(s.ctl, |s.threads|) == 0 <==> s.ctl.Idle?)
  {
  }

  /** A step of the call brings it nearer to its end, or discards a task. */
  lemma ControlAdvances(s: State)
    requires ControlInv(s) && CanControl(s) && !s.ctl.Idle?
    ensures var s', n := ControlStep(s), |s.threads|;
            || Stage(s'.ctl, |s'.threads|) < Stage(s.ctl, n)
            || (s'.ctl == s.ctl && s'.threads == s.threads && Left(s') < Left(s))
  {
  }

  /** What the call can wait for is a step of some worker. */
  lemma CallCanGoOn(s: State) returns (a: Action)
    requires Inv(s) && !s.ctl.Idle?
    ensures Enabled(s, a) && (a.Control? || a.Work?)
  {
    ControlNeverStuck(s);
    if CanControl(s) {
      a := Action.Control;
    } else if s.lock.Some? {
      assert LockOk(s, s.lock.value);
      a := Work(s.lock.value);
    } else {
      var w := s.threads[s.ctl.i];
      assert Roused(s, w);
      a := Work(w);
    }
  }

  predicate Ends(a: Action) {
    a.Control? || a.Work?
  }

  /** From every reachable state in the middle of stop or resize, the call's own steps and the
      workers' lead to its end: nobody needs to push or notify. */
  lemma CallReturns(tr: seq<State>, acts: seq<Action>) returns (tr': seq<State>, acts': seq<Action>)
    requires Run(tr, acts)
    ensures Run(tr', acts') && |acts| <= |acts'| && acts'[..|acts|] == acts
    ensures forall i :: |acts| <= i < |acts'| ==> Ends(acts'[i])
    ensures tr'[|acts'|].ctl.Idle?
    decreases Stage(tr[|acts|].ctl, |tr[|acts|].threads|), Left(tr[|acts|])
  {
    var s := tr[|acts|];
    RunKeepsInv(tr, acts, |acts|);
    StageBounds(s);
    if s.ctl.Idle? {
      tr', acts' := tr, acts;
    } else {
      var a := CallCanGoOn(s);
      if a.Control? {
        ControlAdvances(s);
      } else {
        WorkerSettles(s, a.w);
      }
      var tr1, acts1 := Extend(tr, acts, a);
      tr', acts' := CallReturns(tr1, acts1);
      assert acts'[..|acts|] == acts'[..|acts1|][..|acts|];
      assert acts'[|acts|] == acts'[..|acts1|][|acts|];
    }
  }

  // ---- what they leave ----------------------------------------------------------------

  /** Step k begins a call that has just ended at state j. */
  ghost predicate Call(tr: seq<State>, acts: seq<Action>, k: nat, j: nat) {
    && Run(tr, acts) && k + 1 < j < |tr|
    && (forall m :: k < m < j ==> !tr[m].ctl.Idle?) && tr[j].ctl.Idle?
  }

  /** stop(isWait) returns at once. */
  predicate Returns(s: State, isWait: bool) {
    s.isStop || (isWait && s.isDone)
  }

  /** A stop that does not return at once is under way, with the threads of its beginning. */
  predicate Stopping(s: State, isWait: bool, threads: seq<nat>) {
    && !s.ctl.Idle? && !InShrink(s.ctl) && s.threads == threads
    && if isWait then s.isDone else s.isStop
  }

  lemma StoppingStep(s: State, a: Action, isWait: bool, threads: seq<nat>)
    requires Stopping(s, isWait, threads) && Enabled(s, a)
    ensures var s' := Apply(s, a);
            Stopping(s', isWait, threads) || (a.Control? && s.ctl.LastClear? && s.queue == [] && s' == s.(threads := [], ctl := Idle))
  {
  }

  lemma {:induction false} StopGoesOn(tr: seq<State>, acts: seq<Action>, k: nat, j: nat, i: nat)
    requires Call(tr, acts, k, j) && acts[k].Stop? && !Returns(tr[k], acts[k].isWait) && k < i < j
    ensures Stopping(tr[i], acts[k].isWait, tr[k].threads)
    decreases i
  {
    if i == k + 1 {
      assert StepAt(tr, acts, k);
    } else {
      StopGoesOn(tr, acts, k, j, i - 1);
      assert StepAt(tr, acts, i - 1);
      StoppingStep(tr[i - 1], acts[i - 1], acts[k].isWait, tr[k].threads);
    }
  }

  /** When stop returns, the pool is marked, its threads have all exited and are dropped, the
      queue is empty, and no task is in the hand of any of them. */
  lemma StopOutcome(tr: seq<State>, acts: seq<Action>, k: nat, j: nat)
    requires Call(tr, acts, k, j) && acts[k].Stop? && !Returns(tr[k], acts[k].isWait)
    ensures var s := tr[j];
            && (if acts[k].isWait then s.isDone else s.isStop) && s.threads == [] && s.queue == []
            && (forall w :: w in tr[k].threads ==> w < |s.workers| && s.workers[w].phase.Exited?)
            && (forall t: Task :: t < s.pushed ==> t in s.fate && (s.fate[t].InHand? ==> s.fate[t].w !in tr[k].threads))
  {
    StopGoesOn(tr, acts, k, j, j - 1);
    assert StepAt(tr, acts, j - 1);
    StoppingStep(tr[j - 1], acts[j - 1], acts[k].isWait, tr[k].threads);
    RunKeepsInv(tr, acts, j - 1);
    RunKeepsInv(tr, acts, j);
    var s := tr[j];
    forall w | w in tr[k].threads ensures w < |s.workers| && s.workers[w].phase.Exited? {
      var i :| 0 <= i < |tr[k].threads| && tr[k].threads[i] == w;
      assert Gone(tr[j - 1], i);
    }
    forall t: Task | t < s.pushed ensures t in s.fate && (s.fate[t].InHand? ==> s.fate[t].w !in tr[k].threads) {
      assert FateOk(s, t);
    }
  }

  /** A second stop of the kind, or any after stop(false), changes nothing. */
  lemma StopReturnsAtOnce(s: State, isWait: bool)
    requires s.ctl.Idle?
    ensures Returns(s, isWait) <==> Apply(s, Stop(isWait)) == s
  {
  }

  /** A shrink to n is under way. */
  ghost predicate Shrinking(s: State, s0: State, n: nat) {
    && InShrink(s.ctl) && s.ctl.n == n && s.threads == s0.threads && |s0.workers| == |s.workers|
    && forall w :: 0 <= w < |s.workers| && !Dropped(s0, n, w) ==> s.workers[w].flag == s0.workers[w].flag
  }

  /** The pool gives the worker up when it shrinks to n threads. */
  ghost predicate Dropped(s0: State, n: nat, w: nat) {
    exists i :: n <= i < |s0.threads| && s0.threads[i] == w
  }

  lemma ShrinkingStep(s: State, a: Action, s0: State, n: nat)
    requires Shrinking(s, s0, n) && ControlInv(s) && Enabled(s, a)
    ensures var s' := Apply(s, a);
            || Shrinking(s', s0, n)
            || (a.Control? && s.ctl.ShrinkNotify? && s' == NotifyAll(s).(threads := s0.threads[..n], ctl := Idle))
  {
    if a.Control? && s.ctl.ShrinkFlags? && s.ctl.n < s.ctl.i {
      assert Dropped(s0, n, s.threads[s.ctl.i - 1]);
    }
  }

  lemma {:induction false} ShrinkGoesOn(tr: seq<State>, acts: seq<Action>, k: nat, j: nat, i: nat)
    requires Call(tr, acts, k, j) && acts[k].Shrink? && k < i < j
    ensures Shrinking(tr[i], tr[k], acts[k].n)
    decreases i
  {
    if i == k + 1 {
      assert StepAt(tr, acts, k);
    } else {
      ShrinkGoesOn(tr, acts, k, j, i - 1);
      assert StepAt(tr, acts, i - 1);
      RunKeepsInv(tr, acts, i - 1);
      ShrinkingStep(tr[i - 1], acts[i - 1], tr[k], acts[k].n);
    }
  }

  /** When resize has shrunk the pool it owns the first n threads, their flags as before, and
      each of the others is flagged and awake for good. */
  lemma ShrinkOutcome(tr: seq<State>, acts: seq<Action>, k: nat, j: nat)
    requires Call(tr, acts, k, j) && acts[k].Shrink?
    ensures var s, s0, n := tr[j], tr[k], acts[k].n;
            && n <= |s0.threads| && s.threads == s0.threads[..n] && |s.workers| == |s0.workers|
            && (forall w :: 0 <= w < |s.workers| && !Dropped(s0, n, w) ==> s.workers[w].flag == s0.workers[w].flag)
            && (forall w :: 0 <= w < |s.workers| && Dropped(s0, n, w) ==> s.workers[w].flag)
            && (forall w :: 0 <= w < |s.workers| && Dropped(s0, n, w) ==> !s.workers[w].phase.Asleep?)
  {
    ShrinkGoesOn(tr, acts, k, j, j - 1);
    assert StepAt(tr, acts, j - 1);
    RunKeepsInv(tr, acts, j - 1);
    ShrinkingStep(tr[j - 1], acts[j - 1], tr[k], acts[k].n);
    forall w | 0 <= w < |tr[j].workers| && Dropped(tr[k], acts[k].n, w)
      ensures tr[j].workers[w].flag && !tr[j].workers[w].phase.Asleep?
    {
      var i :| acts[k].n <= i < |tr[k].threads| && tr[k].threads[i] == w;
      assert Flagged(tr[j - 1], i);
    }
  }
}
