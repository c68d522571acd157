/** What holds over whole runs of the invocation protocol. */
module InvokeRuns {
  import opened Basics
  import opened CtxId
  import opened Lists
  import opened Invoke
  import opened InvokeSteps

  ghost predicate StepAt(tr: seq<State>, acts: seq<Action>, i: int) {
    && |tr| == |acts| + 1 && 0 <= i < |acts|
    && Enabled(tr[i], acts[i]) && tr[i + 1] == Apply(tr[i], acts[i])
  }

  ghost predicate Run(tr: seq<State>, acts: seq<Action>) {
    |tr| == |acts| + 1 && Init(tr[0]) && forall i :: 0 <= i < |acts| ==> StepAt(tr, acts, i)
  }

  lemma {:induction false} RunKeepsInv(tr: seq<State>, acts: seq<Action>, i: nat)
    requires Run(tr, acts) && i < |tr|
    ensures Inv(tr[i])
    decreases i
  {
    if i == 0 {
      InitKeeps(tr[0]);
    } else {
      assert StepAt(tr, acts, i - 1);
      RunKeepsInv(tr, acts, i - 1);
      StepKeeps(tr[i - 1], acts[i - 1]);
    }
  }

  lemma Extend(tr: seq<State>, acts: seq<Action>, a: Action) returns (tr': seq<State>, acts': seq<Action>)
    requires Run(tr, acts) && Enabled(tr[|acts|], a)
    ensures Run(tr', acts') && acts' == acts + [a] && tr' == tr + [Apply(tr[|acts|], a)]
  {
    tr', acts' := tr + [Apply(tr[|acts|], a)], acts + [a];
    forall i | 0 <= i < |acts'| ensures StepAt(tr', acts', i) {
      assert i < |acts| ==> StepAt(tr, acts, i);
    }
  }

  // ---- subsystem restarts -------------------------------------------------------------

  /** No waiter is lost: a context in flight that nobody completed belongs to a file whose
      count is the channel's, or a restart callback still owes it a completion. Once the
      callbacks of the channel are over, a context sent before the last restart is awake. */
  lemma NoWaiterLost(tr: seq<State>, acts: seq<Action>, i: nat, c: Ctx)
    requires Run(tr, acts) && i < |tr| && c in tr[i].ctxs && InFlight(tr[i].ctxs[c].phase)
    ensures var s, x := tr[i], tr[i].ctxs[c];
            && x.fl in s.files && IsChannel(s.files[x.fl].cid) && |s.ssrcount| == NUM_CHANNELS
            && (x.done == 0 ==> s.files[x.fl].ssrcount == s.ssrcount[s.files[x.fl].cid] || NotifyOwed(s, x.fl, s.files[x.fl].cid))
            && (x.phase.epoch < s.ssrcount[s.files[x.fl].cid] && !NotifyOwed(s, x.fl, s.files[x.fl].cid) ==> x.done > 0)
  {
    RunKeepsInv(tr, acts, i);
    assert EpochOk(tr[i], c);
    assert FileEpochOk(tr[i], tr[i].ctxs[c].fl);
  }

  /** The restarts of a channel among the steps i..j. */
  function Restarts(acts: seq<Action>, cid: int, i: nat, j: nat): nat
    requires i <= j <= |acts|
  {
    if i == j then 0
    else Restarts(acts, cid, i, j - 1) + if acts[j - 1].Restart? && acts[j - 1].cid == cid then 1 else 0
  }

  lemma StepCountsRestart(s: State, a: Action, cid: int)
    requires Enabled(s, a) && |s.ssrcount| == NUM_CHANNELS && IsChannel(cid)
    ensures |Apply(s, a).ssrcount| == NUM_CHANNELS
    ensures Apply(s, a).ssrcount[cid] == s.ssrcount[cid] + if a.Restart? && a.cid == cid then 1 else 0
  {
  }

  lemma {:induction false} CountsRestarts(tr: seq<State>, acts: seq<Action>, cid: int, i: nat, j: nat)
    requires Run(tr, acts) && i <= j < |tr| && IsChannel(cid)
    ensures |tr[i].ssrcount| == |tr[j].ssrcount| == NUM_CHANNELS
    ensures tr[j].ssrcount[cid] == tr[i].ssrcount[cid] + Restarts(acts, cid, i, j)
    decreases j
  {
    RunKeepsInv(tr, acts, j);
    if i < j {
      CountsRestarts(tr, acts, cid, i, j - 1);
      assert StepAt(tr, acts, j - 1);
      StepCountsRestart(tr[j - 1], acts[j - 1], cid);
    }
  }

  /** No step i..j opens the file's channel again. */
  ghost predicate NotReopened(acts: seq<Action>, fl: File, i: nat, j: nat) {
    i <= j <= |acts| && ChannelOpen(fl) !in acts[i..j]
  }

  lemma StepKeepsFile(s: State, a: Action, fl: File)
    requires Enabled(s, a) && fl in s.files && IsChannel(s.files[fl].cid) && a != ChannelOpen(fl)
    ensures SameChannel(s, Apply(s, a), fl)
  {
  }

  lemma {:induction false} FileKept(tr: seq<State>, acts: seq<Action>, fl: File, i: nat, j: nat)
    requires Run(tr, acts) && i <= j < |tr| && NotReopened(acts, fl, i, j)
    requires fl in tr[i].files && IsChannel(tr[i].files[fl].cid)
    ensures SameChannel(tr[i], tr[j], fl)
    decreases j
  {
    if i < j {
      assert acts[i..j] == acts[i..j - 1] + [acts[j - 1]];
      FileKept(tr, acts, fl, i, j - 1);
      assert StepAt(tr, acts, j - 1);
      StepKeepsFile(tr[j - 1], acts[j - 1], fl);
    }
  }

  /** The comparison at the end of fastrpc_internal_invoke passes exactly when the channel
      has not restarted since the send. */
  lemma FinalCheckSeesRestarts(tr: seq<State>, acts: seq<Action>, i: nat, j: nat, c: Ctx)
    requires Run(tr, acts) && i < j < |tr| && acts[i] == Send(c)
    requires c in tr[i].ctxs && NotReopened(acts, tr[i].ctxs[c].fl, i, j)
    ensures var fl := tr[i].ctxs[c].fl;
            && fl in tr[i].files && fl in tr[j].files
            && var cid := tr[i].files[fl].cid;
            && IsChannel(cid) && |tr[j].ssrcount| == NUM_CHANNELS
            && (tr[j].files[fl].ssrcount == tr[j].ssrcount[cid] <==> Restarts(acts, cid, i, j) == 0)
  {
    assert StepAt(tr, acts, i);
    var fl := tr[i].ctxs[c].fl;
    FileKept(tr, acts, fl, i, j);
    CountsRestarts(tr, acts, tr[i].files[fl].cid, i, j);
  }

  // ---- demultiplexing -----------------------------------------------------------------

  /** A context between context_alloc and context_free is on exactly one list of its own
      file, once, on no list of another, and in exactly one table slot; its id decodes to
      that slot. */
  lemma InUseHasOneHome(tr: seq<State>, acts: seq<Action>, i: nat, c: Ctx)
    requires Run(tr, acts) && i < |tr| && c in tr[i].ctxs && InUse(tr[i].ctxs[c].phase)
    ensures var s, x := tr[i], tr[i].ctxs[c];
            && x.fl in s.files
            && (c in s.files[x.fl].pending <==> c !in s.files[x.fl].interrupted)
            && NoDup(s.files[x.fl].pending) && NoDup(s.files[x.fl].interrupted)
            && (forall g :: g in s.files && g != x.fl ==> !Owns(s.files[g], c))
            && x.slot.Some? && x.slot.value in s.table && s.table[x.slot.value] == c
            && (forall k :: k in s.table && s.table[k] == c ==> k == x.slot.value)
            && SlotOf(x.ctxid) == x.slot.value.index
  {
    var s, x := tr[i], tr[i].ctxs[c];
    RunKeepsInv(tr, acts, i);
    assert CtxOk(s, c) && FileOk(s, x.fl);
    forall g | g in s.files && g != x.fl ensures !Owns(s.files[g], c) {
      assert FileOk(s, g);
    }
    forall k | k in s.table && s.table[k] == c ensures k == x.slot.value {
      assert SlotOk(s, k);
    }
    IdDecodes(x.addr, x.slot.value.index, 0);
  }

  lemma LiveIdsDiffer(tr: seq<State>, acts: seq<Action>, i: nat, c: Ctx, d: Ctx)
    requires Run(tr, acts) && i < |tr| && c in tr[i].ctxs && d in tr[i].ctxs && c != d
    requires InUse(tr[i].ctxs[c].phase) && InUse(tr[i].ctxs[d].phase)
    ensures tr[i].ctxs[c].ctxid != tr[i].ctxs[d].ctxid
  {
    RunKeepsInv(tr, acts, i);
    var x, y := tr[i].ctxs[c], tr[i].ctxs[d];
    assert CtxOk(tr[i], c) && CtxOk(tr[i], d);
    IdsDiffer(x.addr, x.slot.value.index, y.addr, y.slot.value.index);
  }

  predicate HasId(s: State, c: Ctx) {
    c in s.ctxs && s.ctxs[c].slot.Some? && !s.ctxs[c].phase.Retired?
  }

  /** A response tagged by the sender with the id of a context that still has one completes
      that context and no other. */
  lemma ResponseFindsContext(s: State, c: Ctx, pd: bv64)
    requires LifeInv(s) && HasId(s, c) && pd <= 2
    ensures Target(s, Tag(s.ctxs[c].ctxid, pd)) == Some(c)
  {
    assert CtxOk(s, c);
    IdDecodes(s.ctxs[c].addr, s.ctxs[c].slot.value.index, pd);
  }

  /** The response sets that context's return value, wakes it once, and touches nothing else. */
  lemma ResponseCompletesOne(s: State, c: Ctx, pd: bv64, retval: int)
    requires LifeInv(s) && HasId(s, c) && pd <= 2
    ensures var s' := Apply(s, Respond(Tag(s.ctxs[c].ctxid, pd), retval));
            && s' == s.(ctxs := s'.ctxs) && s'.ctxs.Keys == s.ctxs.Keys
            && s'.ctxs[c] == s.ctxs[c].(retval := retval, done := s.ctxs[c].done + 1)
            && forall d :: d in s.ctxs && d != c ==> s'.ctxs[d] == s.ctxs[d]
  {
    ResponseFindsContext(s, c, pd);
    var rsp := Tag(s.ctxs[c].ctxid, pd);
    DeliveryForm(s, rsp, retval, c);
    OneChanged(s, Apply(s, Respond(rsp, retval)), c, Completed(s.ctxs[c].(retval := retval)));
  }

  lemma OneChanged(s: State, s': State, c: Ctx, x: CtxRec)
    requires c in s.ctxs && s' == SetCtx(s, c, x)
    ensures s' == s.(ctxs := s'.ctxs) && s'.ctxs.Keys == s.ctxs.Keys && s'.ctxs[c] == x
    ensures forall d :: d in s.ctxs && d != c ==> s'.ctxs[d] == s.ctxs[d]
  {
  }

  lemma DeliveryForm(s: State, rsp: bv64, retval: int, c: Ctx)
    requires Target(s, rsp) == Some(c)
    ensures c in s.ctxs && Apply(s, Respond(rsp, retval)) == SetCtx(s, c, Completed(s.ctxs[c].(retval := retval)))
  {
  }

  /** Whatever arrives, at most one context is completed: one that carries the very id, not
      one whose id context_free has cleared. */
  lemma TargetCarriesId(s: State, rsp: bv64, c: Ctx)
    requires LifeInv(s) && Target(s, rsp) == Some(c)
    ensures HasId(s, c) && s.ctxs[c].ctxid == Untag(rsp)
  {
    SlotInTable(rsp);
    assert SlotOk(s, Slot(SlotOf(rsp)));
    assert CtxOk(s, c);
  }

  /** A response completes c exactly when c still has its id and the response agrees with it but
      for the two lowest bits. */
  lemma TargetIff(s: State, rsp: bv64, c: Ctx)
    requires LifeInv(s)
    ensures Target(s, rsp) == Some(c) <==> HasId(s, c) && rsp >> 2 == s.ctxs[c].ctxid >> 2
  {
    if Target(s, rsp) == Some(c) {
      TargetCarriesId(s, rsp, c);
    }
    if HasId(s, c) {
      IdOf(s, c);
      IdHasNoTag(s.ctxs[c].addr, s.ctxs[c].slot.value.index);
      MeansId(rsp, s.ctxs[c].ctxid);
      if Untag(rsp) == s.ctxs[c].ctxid {
        TargetByWord(s, rsp, c);
      }
    }
  }

  lemma TargetByWord(s: State, rsp: bv64, c: Ctx)
    requires LifeInv(s) && HasId(s, c) && Untag(rsp) == s.ctxs[c].ctxid && SlotOf(rsp) == SlotOf(s.ctxs[c].ctxid)
    ensures Target(s, rsp) == Some(c)
  {
    assert CtxOk(s, c);
    IdDecodes(s.ctxs[c].addr, s.ctxs[c].slot.value.index, 0);
  }

  /** c would answer to the id of a context at address a in slot k. */
  predicate SameHome(s: State, c: Ctx, a: bv64, k: bv64) {
    HasId(s, c) && s.ctxs[c].slot == Some(Slot(k)) && s.ctxs[c].addr >> 12 == a >> 12
  }

  lemma IdOf(s: State, c: Ctx)
    requires LifeInv(s) && HasId(s, c)
    ensures s.ctxs[c].slot.value.index < CTX_MAX
    ensures s.ctxs[c].ctxid == MakeId(s.ctxs[c].addr, s.ctxs[c].slot.value.index)
  {
    assert CtxOk(s, c);
  }

  lemma LateReaches(s: State, a: bv64, k: bv64, pd: bv64, c: Ctx)
    requires LifeInv(s) && k < CTX_MAX && pd <= 2 && SameHome(s, c, a, k)
    ensures Target(s, Tag(MakeId(a, k), pd)) == Some(c)
  {
    IdOf(s, c);
    SameId(a, s.ctxs[c].addr, k);
    ResponseFindsContext(s, c, pd);
  }

  lemma ReachedIsHome(s: State, a: bv64, k: bv64, rsp: bv64, c: Ctx)
    requires LifeInv(s) && k < CTX_MAX && Target(s, rsp) == Some(c)
    requires SlotOf(rsp) == k && Untag(rsp) == MakeId(a, k)
    ensures SameHome(s, c, a, k)
  {
    TargetCarriesId(s, rsp, c);
    IdOf(s, c);
    assert SlotOk(s, Slot(k));
    SameId(a, s.ctxs[c].addr, k);
  }

  /** A response to a context that was at address a in slot k reaches the context c exactly
      when c holds the same slot, lies in the same 4096-byte page and has its id. */
  lemma LateResponse(s: State, a: bv64, k: bv64, pd: bv64, c: Ctx)
    requires LifeInv(s) && k < CTX_MAX && pd <= 2
    ensures Target(s, Tag(MakeId(a, k), pd)) == Some(c) <==> SameHome(s, c, a, k)
  {
    if SameHome(s, c, a, k) {
      LateReaches(s, a, k, pd, c);
    } else if Target(s, Tag(MakeId(a, k), pd)) == Some(c) {
      IdDecodes(a, k, pd);
      ReachedIsHome(s, a, k, Tag(MakeId(a, k), pd), c);
    }
  }

  // ---- return values ------------------------------------------------------------------

  /** Step k is a response that sets c's return value, and c lives on until state i. */
  ghost predicate Answered(tr: seq<State>, acts: seq<Action>, k: nat, i: nat, c: Ctx, retval: int) {
    && k < i < |tr| == |acts| + 1
    && acts[k].Respond? && acts[k].retval == retval && Target(tr[k], acts[k].rsp) == Some(c)
    && forall m :: k <= m <= i ==> Lives(tr, m, c)
  }

  predicate Lives(tr: seq<State>, m: nat, c: Ctx) {
    m < |tr| && c in tr[m].ctxs
  }

  lemma RetvalStep(s: State, a: Action, c: Ctx)
    requires Enabled(s, a) && c in Apply(s, a).ctxs
    ensures if c !in s.ctxs then Apply(s, a).ctxs[c].retval == -1
            else if a.Respond? && Target(s, a.rsp) == Some(c) then Apply(s, a).ctxs[c].retval == a.retval
            else Apply(s, a).ctxs[c].retval == s.ctxs[c].retval
  {
  }

  /** A context's return value is -1 until a response to its id says otherwise: a completion
      by a restart callback never reads as success. */
  lemma {:induction false} RetvalIsAnswered(tr: seq<State>, acts: seq<Action>, i: nat, c: Ctx)
    requires Run(tr, acts) && Lives(tr, i, c) && tr[i].ctxs[c].retval != -1
    ensures exists k: nat :: Answered(tr, acts, k, i, c, tr[i].ctxs[c].retval)
    decreases i
  {
    var r := tr[i].ctxs[c].retval;
    assert StepAt(tr, acts, i - 1);
    RetvalStep(tr[i - 1], acts[i - 1], c);
    assert Lives(tr, i - 1, c);
    if acts[i - 1].Respond? && Target(tr[i - 1], acts[i - 1].rsp) == Some(c) {
      assert Answered(tr, acts, i - 1, i, c, r);
    } else {
      RetvalIsAnswered(tr, acts, i - 1, c);
      var k: nat :| Answered(tr, acts, k, i - 1, c, r);
      assert Answered(tr, acts, k, i, c, r);
    }
  }
}
