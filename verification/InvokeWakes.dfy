/** What wakes a waiting context, over single steps and over runs. */
module InvokeWakes {
  import opened Basics
  import opened CtxId
  import opened Lists
  import opened Invoke
  import opened InvokeSteps
  import opened InvokeRuns

  // ---- what completes a context -------------------------------------------------------

  /** The step is a response addressed to c. */
  predicate Answers(s: State, a: Action, c: Ctx) {
    a.Respond? && Target(s, a.rsp) == Some(c)
  }

  /** The step is a restart callback's visit of c's own file, which is on the callback's channel. */
  predicate Visits(s: State, a: Action, c: Ctx) {
    && a.NotifyFile? && c in s.ctxs && a.fl == s.ctxs[c].fl && a.fl in s.files && a.n in s.notifies
    && s.files[a.fl].cid == s.notifies[a.n].cid
  }

  /** On a list until context_free takes it off. */
  predicate IsListed(p: Phase) {
    !p.Unlisted? && !p.Retired?
  }

  lemma VisitStep(s: State, a: Action, c: Ctx)
    requires LifeInv(s) && a.NotifyFile? && Enabled(s, a) && c in s.ctxs
    ensures c in Apply(s, a).ctxs
    ensures Apply(s, a).ctxs[c].done == s.ctxs[c].done + if Visits(s, a, c) && IsListed(s.ctxs[c].phase) then 1 else 0
  {
    assert CtxOk(s, c) && FileOk(s, a.fl);
    assert Owns(s.files[a.fl], c) ==> s.ctxs[c].fl == a.fl;
  }

  lemma QuietStep(s: State, a: Action, c: Ctx)
    requires Enabled(s, a) && !a.NotifyFile? && !a.Consume? && !a.Respond? && c in s.ctxs && c in Apply(s, a).ctxs
    ensures Apply(s, a).ctxs[c].done == s.ctxs[c].done
  {
  }

  /** A completion goes up by one at a response to the context and at a visit of its file by a
      callback of that file's channel, down by one when the context consumes it, and by nothing
      else. */
  lemma CompletionStep(s: State, a: Action, c: Ctx)
    requires LifeInv(s) && Enabled(s, a) && c in s.ctxs && c in Apply(s, a).ctxs
    ensures Apply(s, a).ctxs[c].done
            == s.ctxs[c].done + (if Answers(s, a, c) || (Visits(s, a, c) && IsListed(s.ctxs[c].phase)) then 1 else 0)
               - (if a == Consume(c) then 1 else 0)
  {
    if a.NotifyFile? {
      VisitStep(s, a, c);
    } else if !a.Consume? && !a.Respond? {
      QuietStep(s, a, c);
    }
  }

  /** A visit of a file on another channel changes no context, file, slot or count. */
  lemma OtherChannelKept(s: State, n: nat, fl: File)
    requires Enabled(s, NotifyFile(n, fl)) && s.files[fl].cid != s.notifies[n].cid
    ensures var s' := Apply(s, NotifyFile(n, fl));
            s' == s.(notifies := s'.notifies)
  {
  }

  /** Step k completes c. */
  ghost predicate WokenAt(tr: seq<State>, acts: seq<Action>, k: nat, c: Ctx) {
    k < |tr| && k < |acts| && (Answers(tr[k], acts[k], c) || Visits(tr[k], acts[k], c))
  }

  /** Step k completes c, which lives on until state i. */
  ghost predicate WokenSince(tr: seq<State>, acts: seq<Action>, k: nat, i: nat, c: Ctx) {
    k < i && WokenAt(tr, acts, k, c) && forall m :: k <= m <= i ==> Lives(tr, m, c)
  }

  /** A pending completion has a cause within the life of the context. */
  lemma {:induction false} CompletionHasCause(tr: seq<State>, acts: seq<Action>, i: nat, c: Ctx)
    requires Run(tr, acts) && Lives(tr, i, c) && tr[i].ctxs[c].done > 0
    ensures exists k: nat :: WokenSince(tr, acts, k, i, c)
    decreases i
  {
    CauseAtStep(tr, acts, i, c);
    if WokenAt(tr, acts, i - 1, c) {
      assert WokenSince(tr, acts, i - 1, i, c);
    } else {
      CompletionHasCause(tr, acts, i - 1, c);
      var k: nat :| WokenSince(tr, acts, k, i - 1, c);
      assert WokenSince(tr, acts, k, i, c);
    }
  }

  lemma CauseAtStep(tr: seq<State>, acts: seq<Action>, i: nat, c: Ctx)
    requires Run(tr, acts) && Lives(tr, i, c) && tr[i].ctxs[c].done > 0
    ensures i > 0 && Lives(tr, i - 1, c) && (tr[i - 1].ctxs[c].done > 0 || WokenAt(tr, acts, i - 1, c))
  {
    assert StepAt(tr, acts, i - 1);
    RunKeepsInv(tr, acts, i - 1);
    var s, a := tr[i - 1], acts[i - 1];
    if c in s.ctxs {
      CompletionStep(s, a, c);
    } else {
      NewIsUnwoken(s, a, c);
    }
  }

  lemma NewIsUnwoken(s: State, a: Action, c: Ctx)
    requires Enabled(s, a) && c !in s.ctxs && c in Apply(s, a).ctxs
    ensures Apply(s, a).ctxs[c].done == 0
  {
  }

  // ---- restarts behind visits ---------------------------------------------------------

  /** Step j is a restart of the channel that starts callback n. */
  predicate RestartAt(acts: seq<Action>, j: nat, i: nat, cid: int, n: nat) {
    j < i <= |acts| && acts[j] == Restart(cid, n)
  }

  /** Every callback comes from a restart of its channel. */
  lemma {:induction false} CallbackHasRestart(tr: seq<State>, acts: seq<Action>, i: nat, n: nat)
    requires Run(tr, acts) && i < |tr| && n in tr[i].notifies
    ensures IsChannel(tr[i].notifies[n].cid) && exists j: nat :: RestartAt(acts, j, i, tr[i].notifies[n].cid, n)
    decreases i
  {
    assert StepAt(tr, acts, i - 1);
    var s, a := tr[i - 1], acts[i - 1];
    NotifyStep(s, a, n);
    if a.Restart? && a.n == n {
      assert RestartAt(acts, i - 1, i, a.cid, n);
    } else {
      CallbackHasRestart(tr, acts, i - 1, n);
      var j: nat :| RestartAt(acts, j, i - 1, s.notifies[n].cid, n);
      assert RestartAt(acts, j, i, s.notifies[n].cid, n);
    }
  }

  lemma NotifyStep(s: State, a: Action, n: nat)
    requires Enabled(s, a) && n in Apply(s, a).notifies
    ensures if a.Restart? && a.n == n then Apply(s, a).notifies[n].cid == a.cid
            else n in s.notifies && Apply(s, a).notifies[n].cid == s.notifies[n].cid
  {
  }

  /** A file once bound stays on its channel. */
  lemma {:induction false} ChannelKept(tr: seq<State>, acts: seq<Action>, fl: File, i: nat, j: nat)
    requires Run(tr, acts) && i <= j < |tr| && fl in tr[i].files && IsChannel(tr[i].files[fl].cid)
    ensures fl in tr[j].files && tr[j].files[fl].cid == tr[i].files[fl].cid
    decreases j
  {
    if i < j {
      ChannelKept(tr, acts, fl, i, j - 1);
      assert StepAt(tr, acts, j - 1);
      ChannelStep(tr[j - 1], acts[j - 1], fl);
    }
  }

  lemma ChannelStep(s: State, a: Action, fl: File)
    requires Enabled(s, a) && fl in s.files && IsChannel(s.files[fl].cid)
    ensures fl in Apply(s, a).files && Apply(s, a).files[fl].cid == s.files[fl].cid
  {
  }

  lemma FileOfContext(s: State, a: Action, c: Ctx)
    requires Enabled(s, a) && c in s.ctxs && c in Apply(s, a).ctxs
    ensures Apply(s, a).ctxs[c].fl == s.ctxs[c].fl
  {
    if MovesLists(a) {
    } else if RewritesContext(a) {
    }
  }

  lemma {:induction false} FileOfContextKept(tr: seq<State>, acts: seq<Action>, k: nat, i: nat, c: Ctx)
    requires Run(tr, acts) && k <= i < |tr| && forall m :: k <= m <= i ==> Lives(tr, m, c)
    ensures Lives(tr, k, c) && Lives(tr, i, c) && tr[i].ctxs[c].fl == tr[k].ctxs[c].fl
    decreases i
  {
    assert Lives(tr, k, c) && Lives(tr, i, c);
    if k < i {
      FileOfContextKept(tr, acts, k, i - 1, c);
      assert StepAt(tr, acts, i - 1);
      FileOfContext(tr[i - 1], acts[i - 1], c);
    }
  }

  /** Nobody else's restart wakes a context: one with a completion that no response to it gave
      belongs to a file whose channel has restarted before. */
  lemma UnansweredWakeHasRestart(tr: seq<State>, acts: seq<Action>, i: nat, c: Ctx)
    requires Run(tr, acts) && Lives(tr, i, c) && tr[i].ctxs[c].done > 0
    requires forall k: nat :: WokenSince(tr, acts, k, i, c) ==> !Answers(tr[k], acts[k], c)
    ensures var fl := tr[i].ctxs[c].fl;
            && fl in tr[i].files && IsChannel(tr[i].files[fl].cid)
            && exists j: nat, n :: RestartAt(acts, j, i, tr[i].files[fl].cid, n)
  {
    CompletionHasCause(tr, acts, i, c);
    var k: nat :| WokenSince(tr, acts, k, i, c);
    FileOfContextKept(tr, acts, k, i, c);
    var a := acts[k];
    CallbackHasRestart(tr, acts, k, a.n);
    ChannelKept(tr, acts, a.fl, k, i);
    var j: nat :| RestartAt(acts, j, k, tr[k].notifies[a.n].cid, a.n);
    assert RestartAt(acts, j, i, tr[i].files[a.fl].cid, a.n);
  }
}
