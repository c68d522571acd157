/** The classes of android/cpp/src/ctpl.h. Each method is proved to follow the steps of
    ThreadPool from the state it is called in; nobody else moves meanwhile. */
module Pool {
  import opened Basics
  import opened ThreadPool

  /** `detail::Queue` */
  class Queue<T> {
    var q: seq<T>

    constructor ()
      ensures q == []
    {
      q := [];
    }

    method Push(value: T) returns (ok: bool)
      modifies this
      ensures ok && q == old(q) + [value]
    {
      q := q + [value];
      ok := true;
    }

    /** Takes the front element, or says that there is none. */
    method Pop() returns (v: Option<T>)
      modifies this
      ensures if old(q) == [] then v == None && q == [] else v == Some(old(q)[0]) && q == old(q)[1..]
    {
      if q == [] {
        return None;
      }
      v := Some(q[0]);
      q := q[1..];
    }
  }

  /** The state the steps lead to, if each is possible where it is made. */
  ghost function After(s: State, acts: seq<Action>): Option<State> {
    if acts == [] then Some(s) else Next(After(s, acts[..|acts| - 1]), acts[|acts| - 1])
  }

  ghost function Next(r: Option<State>, a: Action): Option<State> {
    if r.Some? && Enabled(r.value, a) then Some(Apply(r.value, a)) else None
  }

  lemma AfterStep(s: State, acts: seq<Action>, u: State, a: Action)
    requires After(s, acts) == Some(u) && Enabled(u, a)
    ensures After(s, acts + [a]) == Some(Apply(u, a))
  {
    assert (acts + [a])[..|acts + [a]| - 1] == acts;
  }

  lemma AfterPush(s: State, u: State, pick: Option<nat>)
    requires u == Apply(s, Push) && Enabled(u, NotifyOne(pick))
    ensures After(s, [Push] + [NotifyOne(pick)]) == Some(Apply(u, NotifyOne(pick)))
  {
    AfterStep(s, [], s, Push);
    assert [] + [Push] == [Push];
    AfterStep(s, [Push], u, NotifyOne(pick));
  }

  /** s has been cleared as far as t: what left the queue was dropped. */
  ghost predicate Clearing(s: State, t: State) {
    && t.ctl == s.ctl && (t.ctl.StopClear? || t.ctl.LastClear?) && t.popped + t.queue == s.popped + s.queue
    && forall k :: k in s.queue ==> k in t.queue || (k in t.fate && t.fate[k] == Discarded)
  }

  lemma ClearFront(s: State, u: State)
    requires Clearing(s, u) && u.queue != []
    ensures Clearing(s, ControlStep(u))
  {
    assert u.popped + u.queue == u.popped + [u.queue[0]] + u.queue[1..];
  }

  lemma ClearOne(s: State, steps: seq<Action>, u: State)
    requires After(s, steps) == Some(u) && Clearing(s, u) && u.queue != []
    ensures After(s, steps + [Action.Control]) == Some(ControlStep(u)) && Clearing(s, ControlStep(u))
  {
    AfterStep(s, steps, u, Action.Control);
    ClearFront(s, u);
  }

  /** The threads of l have been flagged, and nothing else has changed. */
  predicate Commanded(before: seq<Worker>, after: seq<Worker>, l: seq<nat>) {
    |after| == |before| && forall w :: 0 <= w < |after| ==> after[w] == Worker(before[w].phase, before[w].flag || w in l)
  }

  lemma CommandOne(before: seq<Worker>, mid: seq<Worker>, l: seq<nat>, x: nat, l': seq<nat>)
    requires Commanded(before, mid, l) && x < |mid| && (l' == l + [x] || l' == [x] + l)
    ensures Commanded(before, mid[x := mid[x].(flag := true)], l')
  {
  }

  lemma CommandNext(before: seq<Worker>, mid: seq<Worker>, threads: seq<nat>, i: nat)
    requires i < |threads| && threads[i] < |mid| && Commanded(before, mid, threads[..i])
    ensures Commanded(before, mid[threads[i] := mid[threads[i]].(flag := true)], threads[..i + 1])
  {
    assert threads[..i + 1] == threads[..i] + [threads[i]];
    CommandOne(before, mid, threads[..i], threads[i], threads[..i + 1]);
  }

  lemma CommandBack(before: seq<Worker>, mid: seq<Worker>, threads: seq<nat>, i: nat)
    requires i < |threads| && threads[i] < |mid| && Commanded(before, mid, threads[i + 1..])
    ensures Commanded(before, mid[threads[i] := mid[threads[i]].(flag := true)], threads[i..])
  {
    assert threads[i..] == [threads[i]] + threads[i + 1..];
    CommandOne(before, mid, threads[i + 1..], threads[i], threads[i..]);
  }

  /** `thread_pool`. The ghost fields are the history, the workers' lock and the point the
      calling thread has reached. */
  class Pool {
    const queue: Queue<Task>
    var workers: seq<Worker>
    var threads: seq<nat>
    var nWaiting: int
    var isDone: bool
    var isStop: bool
    ghost var pushed: nat
    ghost var popped: seq<Task>
    ghost var fate: map<Task, Fate>
    ghost var lock: Option<nat>
    ghost var owed: nat
    ghost var ctl: Control

    ghost function View(): State
      reads this, queue
    {
      State(pushed, queue.q, popped, fate, workers, threads, lock, owed, nWaiting, isDone, isStop, ctl)
    }

    constructor ()
      ensures Init(View()) && fresh(queue)
    {
      queue := new Queue<Task>();
      workers, threads, nWaiting, isDone, isStop := [], [], 0, false, false;
      pushed, popped, fate, lock, owed, ctl := 0, [], map[], None, 0, Idle;
    }

    /** One turn of clear_queue. */
    method DropFront() returns (f: Option<Task>)
      requires ctl.StopClear? || ctl.LastClear?
      modifies this`popped, this`fate, queue
      ensures f.None? <==> old(queue.q) == []
      ensures f.None? ==> View() == old(View())
      ensures f.Some? ==> f.value == old(queue.q)[0] && View() == ControlStep(old(View()))
    {
      f := queue.Pop();
      if f.Some? {
        popped := popped + [f.value];
        fate := fate[f.value := Discarded];
      }
    }

    /** clear_queue, as stop calls it: every task still queued is dropped. */
    method ClearQueue() returns (ghost steps: seq<Action>)
      requires ctl.StopClear? || ctl.LastClear?
      modifies this`popped, this`fate, queue
      ensures After(old(View()), steps) == Some(View()) && queue.q == []
      ensures popped == old(popped) + old(queue.q)
      ensures forall t :: t in old(queue.q) ==> t in fate && fate[t] == Discarded
    {
      ghost var s := View();
      steps := [];
      while true
        invariant After(s, steps) == Some(View()) && Clearing(s, View())
        decreases |queue.q|
      {
        ghost var u := View();
        var f := DropFront();
        if f.None? {
          break;
        }
        ClearOne(s, steps, u);
        steps := steps + [Action.Control];
      }
    }

    /** One turn of a flag loop. */
    method Command(i: nat, ghost next: Control)
      requires i < |threads| && threads[i] < |workers|
      requires ctl == StopFlags(i) || (ctl.ShrinkFlags? && ctl.n < ctl.i == i + 1)
      requires next == ControlStep(View()).ctl
      modifies this`workers, this`ctl
      ensures workers == old(workers)[threads[i] := old(workers)[threads[i]].(flag := true)]
      ensures ctl == next && View() == ControlStep(old(View()))
    {
      workers := workers[threads[i] := workers[threads[i]].(flag := true)];
      ctl := next;
    }

    /** The loop of stop(false) over the threads' flags. */
    method CommandAll() returns (ghost steps: seq<Action>)
      requires ctl == StopFlags(0) && forall i :: 0 <= i < |threads| ==> threads[i] < |workers|
      modifies this`workers, this`ctl
      ensures After(old(View()), steps) == Some(View()) && ctl == StopClear
      ensures Commanded(old(workers), workers, threads)
    {
      ghost var s := View();
      steps := [];
      var i := 0;
      while i < |threads|
        invariant i <= |threads| && ctl == StopFlags(i)
        invariant After(s, steps) == Some(View()) && Commanded(s.workers, workers, threads[..i])
      {
        ghost var u := View();
        CommandNext(s.workers, workers, threads, i);
        Command(i, StopFlags(i + 1));
        AfterStep(s, steps, u, Action.Control);
        steps := steps + [Action.Control];
        i := i + 1;
      }
      assert threads[..i] == threads;
      ghost var u := View();
      ctl := StopClear;
      AfterStep(s, steps, u, Action.Control);
      steps := steps + [Action.Control];
    }

    method NotifyEveryone()
      requires lock == None
      modifies this`workers
      ensures workers == WakeAll(old(workers))
    {
      workers := WakeAll(workers);
    }

    /** What stop(false) does before it notifies: command the threads and drop the queue. */
    method Abandon() returns (ghost steps: seq<Action>)
      requires ctl == StopFlags(0) && forall i :: 0 <= i < |threads| ==> threads[i] < |workers|
      modifies this`workers, this`popped, this`fate, this`ctl, queue
      ensures After(old(View()), steps) == Some(View())
      ensures ctl.StopNotify? && queue.q == []
    {
      ghost var s := View();
      ghost var flags := CommandAll();
      ghost var u := View();
      ghost var clears := ClearQueue();
      AfterConcat(s, flags, u, clears);
      u := View();
      ctl := StopNotify;
      AfterStep(s, flags + clears, u, Action.Control);
      steps := flags + clears + [Action.Control];
    }

    /** stop up to its notify_all. A pool that is stopping already is left alone. */
    method StopMark(isWait: bool) returns (early: bool, ghost steps: seq<Action>)
      requires ctl.Idle? && forall i :: 0 <= i < |threads| ==> threads[i] < |workers|
      modifies this`workers, this`popped, this`fate, this`isDone, this`isStop, this`ctl, queue
      ensures After(old(View()), steps) == Some(View())
      ensures early <==> old(isStop) || (isWait && old(isDone))
      ensures if early then View() == old(View())
              else ctl == StopNotify && (isWait ==> isDone) && (!isWait ==> isStop && queue.q == [])
    {
      ghost var s := View();
      steps := [Stop(isWait)];
      AfterStep(s, [], s, Stop(isWait));
      assert [] + [Stop(isWait)] == steps;
      early := isStop || (isWait && isDone);
      if early {
        return;
      }
      if isWait {
        isDone := true;
        ctl := StopNotify;
      } else {
        isStop := true;
        ctl := StopFlags(0);
        ghost var u := View();
        ghost var rest := Abandon();
        AfterConcat(s, steps, u, rest);
        steps := steps + rest;
      }
    }

    /** The notify_all of stop. */
    method StopWake() returns (ghost steps: seq<Action>)
      requires ctl.StopNotify? && lock == None
      modifies this`workers, this`ctl
      ensures After(old(View()), steps) == Some(View())
      ensures ctl == Joining(0) && workers == WakeAll(old(workers))
    {
      ghost var s := View();
      NotifyEveryone();
      ctl := Joining(0);
      AfterStep(s, [], s, Action.Control);
      steps := [] + [Action.Control];
    }

    /** stop up to the joins: nobody sleeps afterwards, and stop(false) has dropped the queue. */
    method StopBegin(isWait: bool) returns (early: bool, ghost steps: seq<Action>)
      requires ctl.Idle? && lock == None && forall i :: 0 <= i < |threads| ==> threads[i] < |workers|
      modifies this, queue
      ensures After(old(View()), steps) == Some(View())
      ensures early <==> old(isStop) || (isWait && old(isDone))
      ensures early ==> View() == old(View())
      ensures !early ==> ctl == Joining(0) && (isWait ==> isDone) && (!isWait ==> isStop && queue.q == [])
                         && forall w :: 0 <= w < |workers| ==> !workers[w].phase.Asleep?
    {
      ghost var s := View();
      early, steps := StopMark(isWait);
      if !early {
        ghost var u := View();
        ghost var last := StopWake();
        AfterConcat(s, steps, u, last);
        steps := steps + last;
      }
    }

    /** stop after the joins. */
    method StopEnd() returns (ghost steps: seq<Action>)
      requires ctl.LastClear?
      modifies this`popped, this`fate, this`threads, this`ctl, queue
      ensures After(old(View()), steps) == Some(View())
      ensures ctl.Idle? && threads == [] && queue.q == [] && popped == old(popped) + old(queue.q)
    {
      ghost var s := View();
      steps := ClearQueue();
      ghost var u := View();
      threads := [];
      ctl := Idle;
      AfterStep(s, steps, u, Action.Control);
      steps := steps + [Action.Control];
    }

    /** The queue half of push. Tasks are numbered. */
    method Enqueue(task: Task)
      requires task == pushed
      modifies this`pushed, this`owed, queue
      ensures View() == Apply(old(View()), Action.Push)
      ensures queue.q == old(queue.q) + [task] && owed == old(owed) + 1
    {
      var ok := queue.Push(task);
      pushed := pushed + 1;
      owed := owed + 1;
    }

    /** The notify half: one sleeper, if any, is woken. */
    method NotifyOne(pick: Option<nat>)
      requires Enabled(View(), Action.NotifyOne(pick))
      modifies this`owed, this`workers
      ensures View() == Apply(old(View()), Action.NotifyOne(pick)) && owed == old(owed) - 1
    {
      if pick.Some? {
        workers := workers[pick.value := workers[pick.value].(phase := Notified)];
      }
      owed := owed - 1;
    }

    /** push: the task is queued, then one sleeper, if any, is woken. */
    method Push(task: Task, pick: Option<nat>) returns (ghost steps: seq<Action>)
      requires task == pushed && Enabled(View().(owed := owed + 1), Action.NotifyOne(pick))
      modifies this`pushed, this`owed, this`workers, queue
      ensures After(old(View()), steps) == Some(View()) && steps == [Action.Push] + [Action.NotifyOne(pick)]
      ensures queue.q == old(queue.q) + [task] && owed == old(owed)
    {
      ghost var s := View();
      Enqueue(task);
      ghost var u := View();
      NotifyOne(pick);
      AfterPush(s, u, pick);
      steps := [Action.Push] + [Action.NotifyOne(pick)];
    }

    /** The growing half of resize: each new thread has a flag of its own. */
    method GrowTo(n: nat) returns (ghost steps: seq<Action>)
      requires ctl.Idle? && !isStop && !isDone && |threads| <= n
      modifies this`workers, this`threads
      ensures After(old(View()), steps) == Some(View()) && |threads| == n
      ensures |workers| == |old(workers)| + n - |old(threads)|
      ensures threads[..|old(threads)|] == old(threads) && workers[..|old(workers)|] == old(workers)
      ensures forall w :: |old(workers)| <= w < |workers| ==> workers[w] == Worker(Start, false)
    {
      steps := [];
      while |threads| < n
        invariant |old(threads)| <= |threads| <= n && |workers| == |old(workers)| + |threads| - |old(threads)|
        invariant After(old(View()), steps) == Some(View())
        invariant threads[..|old(threads)|] == old(threads) && workers[..|old(workers)|] == old(workers)
        invariant forall w :: |old(workers)| <= w < |workers| ==> workers[w] == Worker(Start, false)
      {
        ghost var u := View();
        threads := threads + [|workers|];
        workers := workers + [Worker(Start, false)];
        AfterStep(old(View()), steps, u, Grow);
        steps := steps + [Grow];
      }
    }

    /** The loop of resize over the flags of the threads to be let go, last to first. */
    method CommandLast(n: nat) returns (ghost steps: seq<Action>)
      requires 1 <= n <= |threads| && ctl == ShrinkFlags(|threads|, n)
      requires forall i :: 0 <= i < |threads| ==> threads[i] < |workers|
      modifies this`workers, this`ctl
      ensures After(old(View()), steps) == Some(View()) && ctl == ShrinkNotify(n)
      ensures Commanded(old(workers), workers, threads[n..])
    {
      ghost var s := View();
      steps := [];
      var i := |threads|;
      while n < i
        invariant n <= i <= |threads| && ctl == ShrinkFlags(i, n)
        invariant After(s, steps) == Some(View()) && Commanded(s.workers, workers, threads[i..])
      {
        ghost var u := View();
        i := i - 1;
        CommandBack(s.workers, workers, threads, i);
        Command(i, ShrinkFlags(i, n));
        AfterStep(s, steps, u, Action.Control);
        steps := steps + [Action.Control];
      }
      ghost var u := View();
      ctl := ShrinkNotify(n);
      AfterStep(s, steps, u, Action.Control);
      steps := steps + [Action.Control];
    }

    /** The shrinking half of resize: the last threads are told to finish and let go, and the
        sleepers are woken. */
    method ShrinkTo(n: nat) returns (ghost steps: seq<Action>)
      requires ctl.Idle? && !isStop && !isDone && 1 <= n < |threads| && lock == None
      requires forall i :: 0 <= i < |threads| ==> threads[i] < |workers|
      modifies this`workers, this`threads, this`ctl
      ensures After(old(View()), steps) == Some(View()) && ctl.Idle?
      ensures threads == old(threads)[..n]
      ensures exists flagged :: Commanded(old(workers), flagged, old(threads)[n..]) && workers == WakeAll(flagged)
    {
      ghost var s := View();
      steps := [Shrink(n)];
      AfterStep(s, [], s, Shrink(n));
      assert [] + [Shrink(n)] == steps;
      ctl := ShrinkFlags(|threads|, n);
      ghost var u := View();
      ghost var flags := CommandLast(n);
      AfterConcat(s, steps, u, flags);
      steps := steps + flags;
      u := View();
      NotifyEveryone();
      threads := threads[..n];
      ctl := Idle;
      AfterStep(s, steps, u, Action.Control);
      steps := steps + [Action.Control];
    }

    /** The same loop counting down to 0, which an unsigned index is never below: after the
        first thread it goes on with the greatest index there is. */
    method CommandToZero() returns (next: Word)
      requires 0 < |threads| < WORD && forall i :: 0 <= i < |threads| ==> threads[i] < |workers|
      modifies this`workers
      ensures Commanded(old(workers), workers, threads) && next >= |threads|
    {
      next := |threads| - 1;
      ghost var i := |threads|;
      while next < |threads|
        invariant 0 <= i <= |threads| && next == (i - 1) % WORD
        invariant Commanded(old(workers), workers, threads[i..])
        decreases i
      {
        i := i - 1;
        CommandBack(old(workers), workers, threads, i);
        workers := workers[threads[next] := workers[threads[next]].(flag := true)];
        next := (next - 1) % WORD;
      }
      assert threads[i..] == threads;
    }

    /** resize; a pool that is stopping keeps its size. Asked for no threads at all, a pool that
        has some flags them and then indexes its flags out of range: ok says that this is not
        the case. */
    method Resize(n: nat) returns (ok: bool, ghost steps: seq<Action>)
      requires ctl.Idle? && lock == None && |threads| < WORD && forall i :: 0 <= i < |threads| ==> threads[i] < |workers|
      modifies this`workers, this`threads, this`ctl
      ensures ok <==> n > 0 || |old(threads)| == 0 || old(isStop) || old(isDone)
      ensures ok ==> After(old(View()), steps) == Some(View())
      ensures if old(isStop) || old(isDone) then View() == old(View())
              else if ok then ctl.Idle? && |threads| == n
              else threads == old(threads) && Commanded(old(workers), workers, threads)
    {
      ok, steps := true, [];
      if !isStop && !isDone {
        if |threads| <= n {
          steps := GrowTo(n);
        } else if n > 0 {
          steps := ShrinkTo(n);
        } else {
          var next := CommandToZero();
          ok := next < |threads|;
        }
      }
    }
  }

  lemma {:induction false} AfterConcat(s: State, acts: seq<Action>, u: State, bcts: seq<Action>)
    requires After(s, acts) == Some(u)
    ensures After(s, acts + bcts) == After(u, bcts)
  {
    if bcts == [] {
      assert acts + bcts == acts;
    } else {
      var n, all := |bcts| - 1, acts + bcts;
      AfterConcat(s, acts, u, bcts[..n]);
      assert all[..|all| - 1] == acts + bcts[..n] && all[|all| - 1] == bcts[n];
    }
  }

  /** Sequences of steps are runs: what holds in every state of a run holds of the pool after
      its methods. */
  lemma {:induction false} AfterIsRun(s: State, acts: seq<Action>) returns (tr: seq<State>)
    requires Init(s) && After(s, acts).Some?
    ensures Run(tr, acts) && Some(tr[|acts|]) == After(s, acts)
  {
    if acts == [] {
      tr := [s];
    } else {
      var n := |acts| - 1;
      tr := AfterIsRun(s, acts[..n]);
      var t := After(s, acts).value;
      var tr0 := tr;
      tr := tr0 + [t];
      forall i | 0 <= i < |acts| ensures StepAt(tr, acts, i) {
        assert i < n ==> StepAt(tr0, acts[..n], i);
      }
    }
  }
}
