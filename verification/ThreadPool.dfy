/** The thread pool (android/cpp/src/ctpl.h:41-257) as a step system over its workers, its
    pushers and the one thread that resizes and stops it. The queue has its own mutex, so a
    queue operation is a step at any time; the condition variable's mutex is `lock`. */
module ThreadPool {
  import opened Basics

  type Task = nat

  /** Where a worker's loop is. Pred0, Pred1 and Pred2 are the three reads of the predicate
      of cv.wait, made with the lock held. */
  datatype Phase =
    | Start                // about to pop outside the lock
    | Running(task: Task)  // in the user's function
    | PostRun              // about to read its flag
    | WantLock             // the queue was empty
    | Pred0                // about to pop
    | Pred1                // the pop failed, about to read isDone
    | Pred2                // isDone was false, about to read the flag
    | Asleep               // in cv.wait, not notified
    | Notified             // woken, about to take the lock again
    | Got(task: Task)      // the pop succeeded, the lock still held
    | Leaving              // told to finish, the lock still held
    | Exited

  datatype Worker = Worker(phase: Phase, flag: bool)

  /** What became of a task that left the queue. */
  datatype Fate = InHand(w: nat) | Finished | Discarded

  /** Where the thread that calls stop and resize is. */
  datatype Control =
    | Idle
    | StopFlags(i: nat)
    | StopClear
    | StopNotify
    | Joining(i: nat)
    | LastClear
    | ShrinkFlags(i: nat, n: nat)  // flags i-1 down to n are still to be set
    | ShrinkNotify(n: nat)

  /** Tasks are numbered in push order. workers are all that were ever started; threads are
      those the pool still owns. owed counts the pushers between q.push and notify_one. */
  datatype State = State(pushed: nat, queue: seq<Task>, popped: seq<Task>, fate: map<Task, Fate>,
                         workers: seq<Worker>, threads: seq<nat>, lock: Option<nat>, owed: nat, nWaiting: int,
                         isDone: bool, isStop: bool, ctl: Control)

  datatype Action =
    | Push
    | NotifyOne(woken: Option<nat>)
    | Work(w: nat)
    | Spurious(w: nat)
    | Grow
    | Shrink(n: nat)
    | Stop(isWait: bool)
    | Control

  // ---- the queue ----------------------------------------------------------------------

  function Pop(s: State, f: Fate): State
    requires s.queue != []
  {
    s.(queue := s.queue[1..], popped := s.popped + [s.queue[0]], fate := s.fate[s.queue[0] := f])
  }

  function SetPhase(s: State, w: nat, p: Phase): State
    requires w < |s.workers|
  {
    s.(workers := s.workers[w := s.workers[w].(phase := p)])
  }

  function SetFlag(s: State, w: nat): State
    requires w < |s.workers|
  {
    s.(workers := s.workers[w := s.workers[w].(flag := true)])
  }

  function Wake(x: Worker): Worker {
    if x.phase == Asleep then x.(phase := Notified) else x
  }

  function WakeAll(ws: seq<Worker>): seq<Worker> {
    seq(|ws|, i requires 0 <= i < |ws| => Wake(ws[i]))
  }

  function NotifyAll(s: State): State {
    s.(workers := WakeAll(s.workers))
  }

  // ---- the worker ---------------------------------------------------------------------

  predicate NeedsLock(p: Phase) {
    p.WantLock? || p.Notified?
  }

  predicate CanWork(s: State, w: nat) {
    && w < |s.workers|
    && !s.workers[w].phase.Asleep? && !s.workers[w].phase.Exited?
    && (NeedsLock(s.workers[w].phase) ==> s.lock == None)
  }

  /** One step of a worker's loop. It changes the worker's own entry only. */
  function WorkStep(s: State, w: nat): (r: State)
    requires CanWork(s, w)
    ensures |r.workers| == |s.workers| && r.workers == s.workers[w := Worker(r.workers[w].phase, s.workers[w].flag)]
    ensures r.pushed == s.pushed && r.threads == s.threads && r.owed == s.owed && r.isDone == s.isDone && r.isStop == s.isStop && r.ctl == s.ctl
  {
    var x := s.workers[w];
    match x.phase
    case Start => if s.queue != [] then SetPhase(Pop(s, InHand(w)), w, Running(s.queue[0])) else SetPhase(s, w, WantLock)
    case Running(t) => SetPhase(s, w, PostRun).(fate := s.fate[t := Finished])
    case PostRun => SetPhase(s, w, if x.flag then Exited else Start)
    case WantLock => SetPhase(s, w, Pred0).(lock := Some(w), nWaiting := s.nWaiting + 1)
    case Notified => SetPhase(s, w, Pred0).(lock := Some(w))
    case Pred0 => if s.queue != [] then SetPhase(Pop(s, InHand(w)), w, Got(s.queue[0])) else SetPhase(s, w, Pred1)
    case Pred1 => SetPhase(s, w, if s.isDone then Leaving else Pred2)
    case Pred2 => if x.flag then SetPhase(s, w, Leaving) else SetPhase(s, w, Asleep).(lock := None)
    case Got(t) => SetPhase(s, w, Running(t)).(lock := None, nWaiting := s.nWaiting - 1)
    case Leaving => SetPhase(s, w, Exited).(lock := None, nWaiting := s.nWaiting - 1)
    case _ => s
  }

  // ---- the controlling thread ---------------------------------------------------------

  predicate CanControl(s: State) {
    match s.ctl
    case Idle => false
    case StopFlags(i) => i < |s.threads| ==> s.threads[i] < |s.workers|
    case StopNotify => s.lock == None
    case Joining(i) => i < |s.threads| ==> s.threads[i] < |s.workers| && s.workers[s.threads[i]].phase.Exited?
    case ShrinkFlags(i, n) => n <= i <= |s.threads| && (n < i ==> s.threads[i - 1] < |s.workers|)
    case ShrinkNotify(n) => n <= |s.threads| && s.lock == None
    case _ => true
  }

  function ControlStep(s: State): State
    requires CanControl(s)
  {
    match s.ctl
    case StopFlags(i) => if i < |s.threads| then SetFlag(s, s.threads[i]).(ctl := StopFlags(i + 1)) else s.(ctl := StopClear)
    case StopClear => if s.queue != [] then Pop(s, Discarded) else s.(ctl := StopNotify)
    case StopNotify => NotifyAll(s).(ctl := Joining(0))
    case Joining(i) => s.(ctl := if i < |s.threads| then Joining(i + 1) else LastClear)
    case LastClear => if s.queue != [] then Pop(s, Discarded) else s.(threads := [], ctl := Idle)
    case ShrinkFlags(i, n) =>
      if n < i then SetFlag(s, s.threads[i - 1]).(ctl := ShrinkFlags(i - 1, n)) else s.(ctl := ShrinkNotify(n))
    case ShrinkNotify(n) => NotifyAll(s).(threads := s.threads[..n], ctl := Idle)
    case Idle => s
  }

  /** What stop does before its first loop; a second stop of the kind returns at once. */
  function StopStep(s: State, isWait: bool): State {
    if isWait then if s.isDone || s.isStop then s else s.(isDone := true, ctl := StopNotify)
    else if s.isStop then s else s.(isStop := true, ctl := StopFlags(0))
  }

  // ---- the steps ----------------------------------------------------------------------

  predicate Enabled(s: State, a: Action) {
    match a
    case Push => true
    case NotifyOne(woken) =>
      && s.owed > 0 && s.lock == None
      && if woken.Some? then woken.value < |s.workers| && s.workers[woken.value].phase.Asleep?
         else forall w :: 0 <= w < |s.workers| ==> !s.workers[w].phase.Asleep?
    case Work(w) => CanWork(s, w)
    case Spurious(w) => w < |s.workers| && s.workers[w].phase.Asleep?
    case Grow => s.ctl.Idle? && !s.isStop && !s.isDone
    case Shrink(n) => s.ctl.Idle? && !s.isStop && !s.isDone && 1 <= n < |s.threads|
    case Stop(isWait) => s.ctl.Idle?
    case Control => CanControl(s)
  }

  function Apply(s: State, a: Action): State
    requires Enabled(s, a)
  {
    match a
    case Push => s.(pushed := s.pushed + 1, queue := s.queue + [s.pushed], owed := s.owed + 1)
    case NotifyOne(woken) => (if woken.Some? then SetPhase(s, woken.value, Notified) else s).(owed := s.owed - 1)
    case Work(w) => WorkStep(s, w)
    case Spurious(w) => SetPhase(s, w, Notified)
    case Grow => s.(workers := s.workers + [Worker(Start, false)], threads := s.threads + [|s.workers|])
    case Shrink(n) => s.(ctl := ShrinkFlags(|s.threads|, n))
    case Stop(isWait) => StopStep(s, isWait)
    case Control => ControlStep(s)
  }

  ghost predicate Init(s: State) {
    s == State(0, [], [], map[], [], [], None, 0, 0, false, false, Idle)
  }

  ghost predicate StepAt(tr: seq<State>, acts: seq<Action>, i: int) {
    |tr| == |acts| + 1 && 0 <= i < |acts| && Enabled(tr[i], acts[i]) && tr[i + 1] == Apply(tr[i], acts[i])
  }

  ghost predicate Run(tr: seq<State>, acts: seq<Action>) {
    |tr| == |acts| + 1 && Init(tr[0]) && forall i :: 0 <= i < |acts| ==> StepAt(tr, acts, i)
  }

  // ---- counting workers ---------------------------------------------------------------

  /** Workers that will pop before they can sleep or leave. */
  predicate WillPop(x: Worker) {
    x.phase.Start? || x.phase.WantLock? || x.phase.Pred0? || x.phase.Notified?
  }

  predicate InWait(x: Worker) {
    HoldsLock(x.phase) || x.phase.Asleep? || x.phase.Notified?
  }

  predicate HoldsLock(p: Phase) {
    p.Pred0? || p.Pred1? || p.Pred2? || p.Got? || p.Leaving?
  }

  predicate Carries(p: Phase, t: Task) {
    p == Running(t) || p == Got(t)
  }

  // ---- the invariants -----------------------------------------------------------------

  /** The lock is held by the worker that is inside its section, and by no other. */
  ghost predicate LockInv(s: State) {
    (s.lock.Some? ==> s.lock.value < |s.workers|) && forall w :: 0 <= w < |s.workers| ==> LockOk(s, w)
  }

  predicate LockOk(s: State, w: nat) {
    w < |s.workers| && (HoldsLock(s.workers[w].phase) <==> s.lock == Some(w))
  }

  /** n_idle is the number of workers inside cv.wait or its predicate. */
  predicate IdleInv(s: State) {
    s.nWaiting == Count(s.workers, InWait)
  }

  /** What is queued beyond the outstanding notifications is covered: no worker is about to
      sleep on it, and while one sleeps, enough others will pop. */
  ghost predicate WakeInv(s: State) {
    && (forall w :: 0 <= w < |s.workers| ==> SleepOk(s, w))
    && (forall w :: 0 <= w < |s.workers| && s.workers[w].phase.Asleep? ==> |s.queue| <= s.owed + Count(s.workers, WillPop))
  }

  predicate SleepOk(s: State, w: nat) {
    w < |s.workers| && (s.workers[w].phase.Pred1? || s.workers[w].phase.Pred2? ==> |s.queue| <= s.owed)
  }

  /** First in, first out: the tasks taken and the tasks queued are the tasks pushed. */
  ghost predicate FifoInv(s: State) {
    && |s.popped| + |s.queue| == s.pushed
    && (forall i :: 0 <= i < |s.popped| ==> s.popped[i] == i)
    && (forall i :: 0 <= i < |s.queue| ==> s.queue[i] == |s.popped| + i)
  }

  /** A task off the queue has one fate, and it is in the hand of the worker that says so. */
  ghost predicate FateInv(s: State) {
    && (forall t: Task :: t in s.fate <==> t < |s.popped|)
    && (forall t: Task :: t in s.fate ==> FateOk(s, t))
    && (forall w, t: Task :: 0 <= w < |s.workers| && Carries(s.workers[w].phase, t) ==> t in s.fate && s.fate[t] == InHand(w))
  }

  predicate FateOk(s: State, t: Task) {
    t in s.fate && (s.fate[t].InHand? ==> s.fate[t].w < |s.workers| && Carries(s.workers[s.fate[t].w].phase, t))
  }

  /** w is awake for good: it has been told to finish and is past the point of sleeping. */
  predicate Roused(s: State, w: nat) {
    && w < |s.workers|
    && var x := s.workers[w];
       (x.flag && !x.phase.Asleep?) || (s.isDone && !x.phase.Asleep? && !x.phase.Pred2?)
  }

  predicate Flagged(s: State, i: nat) {
    i < |s.threads| && s.threads[i] < |s.workers| && s.workers[s.threads[i]].flag
  }

  /** stop has notified everybody. */
  predicate Notifying(c: Control) {
    c.Joining? || c.LastClear?
  }

  /** The thread in stop or resize has flagged what it has gone over; workers the pool no
      longer owns, and after stop's notify_all all workers, are awake for good. */
  ghost predicate ControlInv(s: State) {
    && (forall i :: 0 <= i < |s.threads| ==> s.threads[i] < |s.workers|)
    && (forall w :: 0 <= w < |s.workers| ==> w in s.threads || Roused(s, w))
    && (Notifying(s.ctl) ==> forall w :: 0 <= w < |s.workers| ==> Roused(s, w))
    && match s.ctl
       case Idle => true
       case StopFlags(i) => i <= |s.threads| && forall j :: 0 <= j < i ==> Flagged(s, j)
       case StopClear => forall j :: 0 <= j < |s.threads| ==> Flagged(s, j)
       case StopNotify => s.isDone || forall j :: 0 <= j < |s.threads| ==> Flagged(s, j)
       case Joining(i) => i <= |s.threads| && forall j :: 0 <= j < i ==> Gone(s, j)
       case LastClear => forall j :: 0 <= j < |s.threads| ==> Gone(s, j)
       case ShrinkFlags(i, n) => 1 <= n <= i <= |s.threads| && forall j :: i <= j < |s.threads| ==> Flagged(s, j)
       case ShrinkNotify(n) => 1 <= n <= |s.threads| && forall j :: n <= j < |s.threads| ==> Flagged(s, j)
  }

  /** The thread has been joined. */
  predicate Gone(s: State, i: nat) {
    i < |s.threads| && s.threads[i] < |s.workers| && s.workers[s.threads[i]].phase.Exited?
  }

  ghost predicate Inv(s: State) {
    LockInv(s) && IdleInv(s) && WakeInv(s) && FifoInv(s) && FateInv(s) && ControlInv(s)
  }
}
