/** Context ids of the FastRPC driver (android/adsprpc.c:89-90, 1262, 1908, 1953, 1962): the
    high bits of the context's address, eight bits of table slot, four low bits of which the
    sender uses two for the remote domain. */
module CtxId {

  const CTX_MAX: bv64 := 256

  /** `(ptr_to_uint64(ctx) & ~0xFFF) | (ii << 4)` */
  function MakeId(ctx: bv64, slot: bv64): bv64 {
    Join(PageOf(ctx), slot)
  }

  function PageOf(a: bv64): bv64 {
    a & !0xFFF
  }

  function Join(page: bv64, slot: bv64): bv64 {
    page | (slot << 4)
  }

  /** The id the message carries: `ctx->ctxid | fl->pd` */
  function Tag(id: bv64, pd: bv64): bv64 {
    id | pd
  }

  /** `(rsp.ctx & FASTRPC_CTXID_MASK) >> 4` */
  function SlotOf(rsp: bv64): bv64 {
    (rsp & 0xFF0) >> 4
  }

  /** `rsp.ctx & ~3` */
  function Untag(rsp: bv64): bv64 {
    rsp & !3
  }

  /** An id decodes to the slot it was made for, with or without a domain tag, and removing
      the tag gives the id back. */
  lemma IdDecodes(ctx: bv64, slot: bv64, pd: bv64)
    requires slot < CTX_MAX && pd <= 2
    ensures SlotOf(MakeId(ctx, slot)) == slot
    ensures SlotOf(Tag(MakeId(ctx, slot), pd)) == slot
    ensures Untag(Tag(MakeId(ctx, slot), pd)) == MakeId(ctx, slot)
  {
  }

  /** Whatever arrives, the decoded slot is inside the table. */
  lemma SlotInTable(rsp: bv64)
    ensures SlotOf(rsp) < CTX_MAX
  {
  }

  /** Contexts in different slots have different ids. */
  lemma IdsDiffer(a: bv64, i: bv64, b: bv64, j: bv64)
    requires i < CTX_MAX && j < CTX_MAX && i != j
    ensures MakeId(a, i) != MakeId(b, j)
  {
  }

  /** The id keeps the page of the address, and nothing of where it lies in the page. */
  lemma IdKeepsPage(a: bv64, slot: bv64)
    requires slot < CTX_MAX
    ensures MakeId(a, slot) & !0xFFF == a & !0xFFF
    ensures MakeId(a, slot) >> 12 == a >> 12
    ensures MakeId(a, slot) & 0xFFF == slot << 4
  {
  }

  /** In one slot the id tells contexts apart by the 4096-byte page of their address only. */
  lemma SameId(a: bv64, b: bv64, slot: bv64)
    requires slot < CTX_MAX
    ensures MakeId(a, slot) == MakeId(b, slot) <==> a >> 12 == b >> 12
  {
    if MakeId(a, slot) == MakeId(b, slot) {
      SameIdSamePage(a, b, slot, MakeId(a, slot));
    } else if a >> 12 == b >> 12 {
      SamePageSameId(a, b, slot, a >> 12);
    }
  }

  lemma SameIdSamePage(a: bv64, b: bv64, slot: bv64, id: bv64)
    requires slot < CTX_MAX && MakeId(a, slot) == id && MakeId(b, slot) == id
    ensures a >> 12 == b >> 12
  {
    IdKeepsPage(a, slot);
    IdKeepsPage(b, slot);
  }

  lemma SamePageSameId(a: bv64, b: bv64, slot: bv64, n: bv64)
    requires a >> 12 == n && b >> 12 == n
    ensures MakeId(a, slot) == MakeId(b, slot)
  {
    PageNumber(a);
    PageNumber(b);
    var p := PageOf(a);
    assert PageOf(b) == p;
    assert MakeId(a, slot) == Join(p, slot) == MakeId(b, slot);
  }

  /** A response means an id exactly when the two agree but for the two lowest bits, and then
      it has the id's slot. */
  lemma MeansId(rsp: bv64, id: bv64)
    requires Untag(id) == id
    ensures Untag(rsp) == id <==> rsp >> 2 == id >> 2
    ensures Untag(rsp) == id ==> SlotOf(rsp) == SlotOf(id)
  {
    if Untag(rsp) == id {
      Quads(rsp);
      TaggedSlot(rsp, id, SlotOf(id));
    } else if rsp >> 2 == id >> 2 {
      SameQuad(rsp, id, id >> 2);
    }
  }

  lemma SameQuad(a: bv64, b: bv64, n: bv64)
    requires a >> 2 == n && b >> 2 == n
    ensures Untag(a) == Untag(b)
  {
    Quads(a);
    Quads(b);
  }

  lemma IdHasNoTag(ctx: bv64, slot: bv64)
    requires slot < CTX_MAX
    ensures Untag(MakeId(ctx, slot)) == MakeId(ctx, slot)
  {
  }

  lemma TaggedSlot(rsp: bv64, id: bv64, slot: bv64)
    requires Untag(rsp) == id && SlotOf(id) == slot
    ensures SlotOf(rsp) == slot
  {
  }

  lemma Quads(a: bv64)
    ensures (a >> 2) << 2 == Untag(a)
    ensures Untag(a) >> 2 == a >> 2
  {
  }

  lemma PageNumber(a: bv64)
    ensures (a >> 12) << 12 == PageOf(a)
    ensures PageOf(a) >> 12 == a >> 12
  {
  }
}
