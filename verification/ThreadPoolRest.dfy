/** A pool left alone: the workers come to rest after boundedly many steps, and then every task
    has been run. */
module ThreadPoolRest {
  import opened Basics
  import opened ThreadPool
  import opened ThreadPoolInv
  import opened ThreadPoolTasks
  import opened ThreadPoolRuns
  import opened ThreadPoolStop

  // ---- what workers do unasked --------------------------------------------------------

  /** A worker that has quit was told to, and nothing is discarded before a stop. */
  ghost predicate ToldInv(s: State) {
    && (forall w :: 0 <= w < |s.workers| ==> Told(s, w))
    && (s.isDone || s.isStop || (NoneDiscarded(s) && (s.ctl.Idle? || s.ctl.ShrinkFlags? || s.ctl.ShrinkNotify?)))
  }

  predicate Told(s: State, w: nat) {
    w < |s.workers| && (Quitting(s.workers[w].phase) ==> s.workers[w].flag || s.isDone)
  }

  lemma ToldWork(s: State, a: Action)
    requires ToldInv(s) && Enabled(s, a) && a.Work?
    ensures ToldInv(Apply(s, a))
  {
    var s' := Apply(s, a);
    assert Told(s, a.w);
    forall w | 0 <= w < |s'.workers| ensures Told(s', w) {
      assert Told(s, w);
    }
  }

  lemma ToldRest(s: State, a: Action)
    requires ToldInv(s) && Enabled(s, a) && !a.Work?
    ensures ToldInv(Apply(s, a))
  {
    var s' := Apply(s, a);
    forall w | 0 <= w < |s'.workers| ensures Told(s', w) {
      if w < |s.workers| {
        assert Told(s, w);
      }
    }
  }

  lemma {:induction false} RunToldInv(tr: seq<State>, acts: seq<Action>, i: nat)
    requires Run(tr, acts) && i < |tr|
    ensures ToldInv(tr[i])
    decreases i
  {
    if i > 0 {
      RunToldInv(tr, acts, i - 1);
      assert StepAt(tr, acts, i - 1);
      if acts[i - 1].Work? {
        ToldWork(tr[i - 1], acts[i - 1]);
      } else {
        ToldRest(tr[i - 1], acts[i - 1]);
      }
    }
  }

  /** No worker ends by itself: one that has left its loop was flagged, or the pool was told to
      finish. */
  lemma QuitsOnlyWhenTold(tr: seq<State>, acts: seq<Action>, i: nat, w: nat)
    requires Run(tr, acts) && i < |tr| && w < |tr[i].workers| && tr[i].workers[w].phase.Exited?
    ensures tr[i].workers[w].flag || tr[i].isDone
  {
    RunToldInv(tr, acts, i);
    assert Told(tr[i], w);
  }

  /** A worker goes to wait only on an empty queue; with a task queued it takes the oldest
      without the lock. */
  lemma WaitsOnlyOnEmpty(s: State, w: nat)
    requires CanWork(s, w) && s.workers[w].phase.Start?
    ensures WorkStep(s, w).workers[w].phase.WantLock? <==> s.queue == []
    ensures s.queue != [] ==> var s' := WorkStep(s, w);
                              && s'.workers[w].phase == Running(s.queue[0]) && s'.queue == s.queue[1..]
                              && s'.lock == s.lock && s'.nWaiting == s.nWaiting
  {
  }

  // ---- coming to rest -----------------------------------------------------------------

  /** The steps a pool makes when it is left alone: its workers', and notifications still owed. */
  predicate Settles(a: Action) {
    a.Work? || a.NotifyOne?
  }

  /** As Rank, with sleep for an end. */
  function RestRank(p: Phase): nat {
    if p.Asleep? then 0 else Rank(p)
  }

  function RestTotal(ws: seq<Worker>): nat {
    if ws == [] then 0 else RestTotal(ws[..|ws| - 1]) + RestRank(ws[|ws| - 1].phase)
  }

  lemma {:induction false} RestTotalSet(ws: seq<Worker>, w: nat, x: Worker)
    requires w < |ws|
    ensures RestTotal(ws[w := x]) == RestTotal(ws) - RestRank(ws[w].phase) + RestRank(x.phase)
  {
    var n := |ws| - 1;
    if w < n {
      assert ws[w := x][..n] == ws[..n][w := x];
      RestTotalSet(ws[..n], w, x);
    } else {
      assert ws[w := x][..n] == ws[..n];
    }
  }

  /** How many steps are left. */
  function Left(s: State): nat {
    7 * |s.queue| + RestTotal(s.workers) + 6 * s.owed
  }

  lemma WorkerSettles(s: State, w: nat)
    requires CanWork(s, w)
    ensures Left(WorkStep(s, w)) < Left(s)
  {
    var s' := WorkStep(s, w);
    RestTotalSet(s.workers, w, s'.workers[w]);
    WorkerFalls(s, w);
  }

  lemma WorkerFalls(s: State, w: nat)
    requires CanWork(s, w)
    ensures 7 * |WorkStep(s, w).queue| + RestRank(WorkStep(s, w).workers[w].phase) < 7 * |s.queue| + RestRank(s.workers[w].phase)
  {
  }

  lemma NotifySettles(s: State, a: Action)
    requires a.NotifyOne? && Enabled(s, a)
    ensures Left(Apply(s, a)) < Left(s)
  {
    if a.woken.Some? {
      var w := a.woken.value;
      RestTotalSet(s.workers, w, s.workers[w].(phase := Notified));
    }
  }

  /** A pool left alone makes boundedly many steps. */
  lemma {:induction false} SettlingIsBounded(tr: seq<State>, acts: seq<Action>, i: nat, j: nat)
    requires Run(tr, acts) && i <= j < |tr| && forall k :: i <= k < j ==> Settles(acts[k])
    ensures j - i + Left(tr[j]) <= Left(tr[i])
    decreases j
  {
    if i < j {
      SettlingIsBounded(tr, acts, i, j - 1);
      assert StepAt(tr, acts, j - 1);
      var s, a := tr[j - 1], acts[j - 1];
      SettlesBy(s, a);
    }
  }

  /** Nothing is left to do without somebody asking. */
  ghost predicate AtRest(s: State) {
    forall a :: Settles(a) ==> !Enabled(s, a)
  }

  lemma RestForm(s: State)
    requires LockInv(s) && AtRest(s)
    ensures s.owed == 0 && forall w :: 0 <= w < |s.workers| ==> Idles(s, w)
  {
    LockFree(s);
    forall w | 0 <= w < |s.workers| ensures Idles(s, w) {
      assert !Enabled(s, Work(w));
    }
    var a := Pick(s);
    assert Settles(a) && !Enabled(s, a);
  }

  lemma LockFree(s: State)
    requires LockInv(s) && AtRest(s)
    ensures s.lock.None?
  {
    assert s.lock.Some? ==> LockOk(s, s.lock.value) && !Enabled(s, Work(s.lock.value));
  }

  /** notify_one wakes a sleeper if there is one. */
  lemma Pick(s: State) returns (a: Action)
    ensures a.NotifyOne? && (Enabled(s, a) <==> s.owed > 0 && s.lock.None?)
  {
    if w :| 0 <= w < |s.workers| && s.workers[w].phase.Asleep? {
      a := NotifyOne(Some(w));
    } else {
      a := NotifyOne(None);
    }
  }

  predicate Idles(s: State, w: nat) {
    w < |s.workers| && (s.workers[w].phase.Asleep? || s.workers[w].phase.Exited?)
  }

  /** At rest a pool that was not stopped, with a worker that was not told to finish, has run
      every task that was pushed. */
  lemma RestIsDone(tr: seq<State>, acts: seq<Action>, i: nat, w: nat)
    requires Run(tr, acts) && i < |tr| && AtRest(tr[i]) && !tr[i].isStop && !tr[i].isDone
    requires w < |tr[i].workers| && !tr[i].workers[w].flag
    ensures tr[i].queue == [] && AllFinished(tr[i])
    ensures tr[i].workers[w].phase.Asleep?
  {
    var s := tr[i];
    RunKeepsInv(tr, acts, i);
    RunToldInv(tr, acts, i);
    RestForm(s);
    assert Told(s, w) && Idles(s, w);
    NobodyWillPop(s);
    forall t: Task | t < s.pushed ensures t in s.fate && s.fate[t] == Finished {
      assert FateOk(s, t);
      assert s.fate[t].InHand? ==> Idles(s, s.fate[t].w);
    }
  }

  lemma NobodyWillPop(s: State)
    requires forall w :: 0 <= w < |s.workers| ==> Idles(s, w)
    ensures Count(s.workers, WillPop) == 0
  {
    CountBounds(s.workers, WillPop);
    forall w | 0 <= w < |s.workers| ensures !WillPop(s.workers[w]) {
      assert Idles(s, w);
    }
  }

  lemma SettlingKeeps(s: State, a: Action)
    requires Enabled(s, a) && Settles(a)
    ensures var s' := Apply(s, a);
            && s'.isStop == s.isStop && s'.isDone == s.isDone && s'.pushed == s.pushed && |s'.workers| == |s.workers|
            && forall w :: 0 <= w < |s.workers| ==> s'.workers[w].flag == s.workers[w].flag
  {
  }

  /** Left alone, from whatever state it is in, a pool that was not stopped, with a worker that
      was not told to finish, runs every task that was pushed, and every way to go on gets
      there: each step is one of at most Left many. */
  lemma LeftAloneRunsAll(tr: seq<State>, acts: seq<Action>, w: nat) returns (tr': seq<State>, acts': seq<Action>)
    requires Run(tr, acts) && !tr[|acts|].isStop && !tr[|acts|].isDone
    requires w < |tr[|acts|].workers| && !tr[|acts|].workers[w].flag
    ensures Run(tr', acts') && |acts| <= |acts'| <= |acts| + Left(tr[|acts|]) && acts'[..|acts|] == acts
    ensures forall i :: |acts| <= i < |acts'| ==> Settles(acts'[i])
    ensures tr'[|acts'|].pushed == tr[|acts|].pushed && AllFinished(tr'[|acts'|])
    decreases Left(tr[|acts|])
  {
    var s := tr[|acts|];
    if AtRest(s) {
      tr', acts' := tr, acts;
      RestIsDone(tr, acts, |acts|, w);
    } else {
      var a :| Settles(a) && Enabled(s, a);
      SettlingKeeps(s, a);
      SettlesBy(s, a);
      var tr1, acts1 := Extend(tr, acts, a);
      tr', acts' := LeftAloneRunsAll(tr1, acts1, w);
      assert acts'[..|acts|] == acts'[..|acts1|][..|acts|];
      assert acts'[|acts|] == acts'[..|acts1|][|acts|];
    }
  }

  lemma SettlesBy(s: State, a: Action)
    requires Enabled(s, a) && Settles(a)
    ensures Left(Apply(s, a)) < Left(s)
  {
    if a.Work? {
      WorkerSettles(s, a.w);
    } else {
      NotifySettles(s, a);
    }
  }
}
