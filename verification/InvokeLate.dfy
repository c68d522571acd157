/** A run in which a late response completes the wrong context. */
module InvokeLate {
  import opened Basics
  import opened CtxId
  import opened Lists
  import opened Invoke
  import opened InvokeRuns

  const ADDR: bv64 := 0x1000
  const SLOT: Slot := Slot(0)

  /** No response has arrived. */
  ghost predicate Unanswered(acts: seq<Action>) {
    forall i :: 0 <= i < |acts| ==> !acts[i].Respond?
  }

  /** One file on channel 0 and no context. */
  function Quiet(): State {
    State([0, 0, 0, 0], map[0 := FileRec(0, 0, [], [])], map[], map[], map[])
  }

  /** Context c, at the one address, with its message sent and unanswered. */
  function Waiting(c: Ctx, phase: Phase): CtxRec {
    CtxRec(ADDR, 0, 7, 3, MakeId(ADDR, 0), true, 0, -1, phase, Some(SLOT))
  }

  function Busy(c: Ctx): State {
    State([0, 0, 0, 0], map[0 := FileRec(0, 0, [c], [])], map[c := Waiting(c, Sent(0))], map[SLOT := c], map[])
  }

  lemma OpenFile() returns (tr: seq<State>, acts: seq<Action>)
    ensures Run(tr, acts) && |acts| == 2 && tr[2] == Quiet() && Unanswered(acts)
  {
    var s0 := State(seq(NUM_CHANNELS, i => 0), map[], map[], map[], map[]);
    tr, acts := [s0], [];
    tr, acts := Extend(tr, acts, Open(0));
    tr, acts := Extend(tr, acts, GetInfo(0, 0));
    assert tr[2].files == Quiet().files;
  }

  function Listed(c: Ctx): State {
    Quiet().(files := Busy(c).files, ctxs := map[c := Waiting(c, Phase.Listed).(ctxid := 0, slot := None)])
  }

  function Allocated(c: Ctx): State {
    Busy(c).(ctxs := map[c := Waiting(c, Ready)])
  }

  lemma ListsIt(c: Ctx)
    ensures Apply(Quiet(), AllocList(c, ADDR, 0, 7, 3)) == Listed(c)
  {
    assert AddHead([], c) == [c];
    assert Quiet().files[0 := FileRec(0, 0, [c], [])] == Busy(c).files;
  }

  lemma AllocatesIt(c: Ctx)
    ensures Enabled(Listed(c), AllocSlot(c, SLOT)) && Apply(Listed(c), AllocSlot(c, SLOT)) == Allocated(c)
  {
    assert Listed(c).ctxs[c := Waiting(c, Ready)] == Allocated(c).ctxs;
  }

  lemma SendsIt(c: Ctx)
    ensures Enabled(Allocated(c), Send(c)) && Apply(Allocated(c), Send(c)) == Busy(c)
  {
    assert Allocated(c).ctxs[c := Waiting(c, Sent(0))] == Busy(c).ctxs;
  }

  /** An invocation up to its wait, from the quiet state. */
  lemma Invokes(tr0: seq<State>, acts0: seq<Action>, c: Ctx) returns (tr: seq<State>, acts: seq<Action>)
    requires Run(tr0, acts0) && tr0[|acts0|] == Quiet()
    ensures Unanswered(acts0) ==> Unanswered(acts)
    ensures Run(tr, acts) && acts == acts0 + [AllocList(c, ADDR, 0, 7, 3), AllocSlot(c, SLOT), Send(c)]
    ensures tr[|acts|] == Busy(c)
  {
    ListsIt(c);
    tr, acts := Extend(tr0, acts0, AllocList(c, ADDR, 0, 7, 3));
    AllocatesIt(c);
    tr, acts := Extend(tr, acts, AllocSlot(c, SLOT));
    SendsIt(c);
    tr, acts := Extend(tr, acts, Send(c));
  }

  /** A signal ends the wait and the restarted call resumes it. */
  lemma Resumes(tr0: seq<State>, acts0: seq<Action>, c: Ctx) returns (tr: seq<State>, acts: seq<Action>)
    requires Run(tr0, acts0) && tr0[|acts0|] == Busy(c)
    ensures Unanswered(acts0) ==> Unanswered(acts)
    ensures Run(tr, acts) && acts == acts0 + [Interrupt(c), Restore(0, 7, 3)] && tr[|acts|] == Busy(c)
  {
    var n := |acts0|;
    tr, acts := Extend(tr0, acts0, Interrupt(c));
    assert tr[n + 1] == Apply(Busy(c), Interrupt(c)) && AddHead([], c) == [c] && Del([c], c) == [];
    assert tr[n + 1].files[0] == FileRec(0, 0, [], [c]);
    assert tr[n + 1].files == map[0 := FileRec(0, 0, [], [c])] && tr[n + 1].ctxs == map[c := Waiting(c, Interrupted(0))];
    assert FindPid([c], tr[n + 1].ctxs, 7) == Some(c);
    tr, acts := Extend(tr, acts, Restore(0, 7, 3));
    assert tr[n + 2].files == Busy(c).files && tr[n + 2].ctxs == Busy(c).ctxs;
  }

  /** The resumed call meets an SMMU fault and frees the context without waiting. */
  lemma Frees(tr0: seq<State>, acts0: seq<Action>, c: Ctx) returns (tr: seq<State>, acts: seq<Action>)
    requires Run(tr0, acts0) && tr0[|acts0|] == Busy(c)
    ensures Unanswered(acts0) ==> Unanswered(acts)
    ensures Run(tr, acts) && acts == acts0 + [FreeUnlist(c), FreeRetire(c), FreeSlot(c)] && tr[|acts|] == Quiet()
  {
    var n := |acts0|;
    tr, acts := Extend(tr0, acts0, FreeUnlist(c));
    assert tr[n + 1].files == Quiet().files;
    tr, acts := Extend(tr, acts, FreeRetire(c));
    tr, acts := Extend(tr, acts, FreeSlot(c));
    WithoutKeeps(tr0[n].table, c, SLOT);
    assert tr[n + 3].table == map[] && tr[n + 3].ctxs == map[];
  }

  /** A context freed before its response arrives hands its id to the next context in the same
      slot and page: the late response then completes a call that was never answered. */
  lemma LateResponseHits() returns (tr: seq<State>, acts: seq<Action>)
    ensures Run(tr, acts) && |acts| == 13
    ensures acts[4] == Send(0) && acts[9] == FreeSlot(0) && acts[12] == Send(1)
    ensures Unanswered(acts)
    ensures 1 in tr[13].ctxs && tr[13].ctxs[1].phase.Sent? && tr[13].ctxs[1].done == 0
    ensures Target(tr[13], Tag(MakeId(ADDR, 0), 1)) == Some(1)
  {
    tr, acts := OpenFile();
    tr, acts := Invokes(tr, acts, 0);
    tr, acts := Resumes(tr, acts, 0);
    tr, acts := Frees(tr, acts, 0);
    tr, acts := Invokes(tr, acts, 1);
    RunKeepsInv(tr, acts, 13);
    ResponseFindsContext(tr[13], 1, 1);
  }
}
