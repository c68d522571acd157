/** The driver's routines over a file's buffers, proved against the steps of Buffers. */
module FileBufs {
  import opened Basics
  import opened Lists
  import opened Buffers

  /** The cache scan of fastrpc_buf_alloc. */
  method Scan(cached: seq<BufId>, sizes: map<BufId, nat>, size: nat) returns (fr: Option<BufId>)
    requires forall b :: b in cached ==> b in sizes
    ensures fr.Some? ==> exists i :: BestOf(cached, sizes, size, fr.value, i)
    ensures fr.None? ==> NoneFits(cached, sizes, size)
  {
    fr := None;
    ghost var at: nat := 0;
    var i := 0;
    while i < |cached|
      invariant i <= |cached|
      invariant fr.None? ==> NoneFits(cached[..i], sizes, size)
      invariant fr.Some? ==> BestOf(cached[..i], sizes, size, fr.value, at)
    {
      var b := cached[i];
      assert b in cached && cached[..i + 1] == cached[..i] + [b];
      if sizes[b] >= size && (fr.None? || sizes[fr.value] > sizes[b]) {
        fr := Some(b);
        at := i;
      }
      i := i + 1;
    }
    assert cached[..i] == cached;
  }

  /** Where fastrpc_buf_alloc leaves its result: a field, or with remote set the list. */
  datatype Dest = At(p: Place) | Remote

  /** What the kernel answers: the record's address, the two DMA attempts, the hypervisor. */
  datatype Kernel = Kernel(addr: Option<BufId>, dma: bool, retry: bool, hyp: bool)

  /** The parts of a `fastrpc_file` that own buffers, and its contexts. */
  class Bufs {
    var sizes: map<BufId, nat>
    var cached: seq<BufId>
    var remote: seq<BufId>
    var held: map<Place, BufId>
    var interrupted: seq<Ctx>
    var pending: seq<Ctx>
    ghost var freed: seq<BufId>

    ghost function View(): State
      reads this
    {
      State(sizes, cached, remote, held, freed)
    }

    /** fastrpc_cached_buf_list_free */
    method DrainCache(ghost s0: State)
      requires Kept(s0, View())
      modifies this`sizes, this`cached, this`freed
      ensures Kept(s0, View()) && cached == [] && sizes == old(sizes) - Elems(old(cached))
    {
      while cached != []
        invariant Kept(s0, View())
        invariant sizes - Elems(cached) == old(sizes) - Elems(old(cached))
        decreases |cached|
      {
        ghost var s := View();
        DrainOne(s0, s);
        var free := cached[0];
        cached := cached[1..];
        sizes := sizes - {free};
        freed := freed + [free];
        assert View() == DropCached(s);
      }
    }

    /** fastrpc_remote_buf_list_free */
    method DrainRemote(ghost s0: State)
      requires Kept(s0, View())
      modifies this`sizes, this`remote, this`freed
      ensures Kept(s0, View()) && remote == [] && Subset(sizes, old(sizes))
    {
      while remote != []
        invariant Kept(s0, View()) && Subset(sizes, old(sizes))
        decreases |remote|
      {
        ghost var s := View();
        var free := remote[0];
        DropRemoteKeeps(s, free);
        assert LivesAt(s, free, RemoteList);
        LedgerDrop(s0, s.(remote := Del(s.remote, free)), free);
        remote := Del(remote, free);
        sizes := sizes - {free};
        freed := freed + [free];
        assert View() == DropRemote(s, free);
      }
    }

    /** fastrpc_buf_alloc. A cached buffer that fits is taken without asking the kernel; a
        failed attempt for memory empties the cache before the second; a refused buffer is
        given back. */
    method BufAlloc(size: nat, dest: Dest, kernel: Kernel) returns (ok: bool, ghost b: BufId)
      requires Homed(View())
      requires kernel.addr.Some? ==> kernel.addr.value !in sizes
      modifies this`sizes, this`cached, this`remote, this`held, this`freed
      ensures Homed(View())
      ensures forall c :: Orphan(View(), c) <==> Orphan(old(View()), c) || (ok && dest.At? && Displaced(old(View()), dest.p, c))
      ensures ok <==> size > 0 && (CacheServes(old(View()), size, dest) || Granted(kernel))
      ensures ok <==> size > 0 && (|| (dest.At? && exists c :: c in old(cached) && c in old(sizes) && old(sizes)[c] >= size)
                                   || (kernel.addr.Some? && (kernel.dma || kernel.retry) && kernel.hyp))
      ensures if size > 0 && CacheServes(old(View()), size, dest)
              then BestFit(old(View()), size, b) && View() == TakeCached(old(View()), b, dest.p)
              else cached == if size > 0 && kernel.addr.Some? && !kernel.dma then [] else old(cached)
      ensures ok && !CacheServes(old(View()), size, dest) ==>
                b !in old(sizes) && sizes == Surviving(old(View()), kernel)[b := size]
                && if dest.At? then held == old(held)[dest.p := b] && remote == old(remote)
                   else held == old(held) && remote == [b] + old(remote)
      ensures !ok ==> held == old(held) && remote == old(remote)
                      && sizes == if size > 0 && !CacheServes(old(View()), size, dest) then Surviving(old(View()), kernel) else old(sizes)
      ensures !ok && size > 0 && kernel.addr.Some? ==> freed != [] && freed[|freed| - 1] == kernel.addr.value
    {
      ok := false;
      b := 0;
      if size == 0 {
        return;
      }
      ghost var s := View();
      CachedLive(s);
      if dest.At? {
        var fr := Scan(cached, sizes, size);
        if fr.Some? {
          BestInList(s, size, fr.value);
          TakeCachedOrphans(s, fr.value, dest.p);
          cached := Del(cached, fr.value);
          held := held[dest.p := fr.value];
          return true, fr.value;
        }
      }
      if kernel.addr.None? {
        return;
      }
      var buf := kernel.addr.value;
      if !kernel.dma {
        LedgerStart(s);
        DrainCache(s);
      }
      ghost var s1 := View();
      if !Granted(kernel) {
        freed := freed + [buf];
        HomedWhatever(s1, freed);
        return;
      }
      Store(buf, size, dest);
      return true, buf;
    }

    /** Where fastrpc_buf_alloc puts a new buffer. */
    method Store(buf: BufId, size: nat, dest: Dest)
      requires Homed(View()) && buf !in sizes
      modifies this`sizes, this`remote, this`held
      ensures View() == if dest.At? then PlaceNew(old(View()), buf, size, dest.p) else ListNew(old(View()), buf, size)
      ensures Homed(View())
      ensures forall c :: Orphan(View(), c) <==> Orphan(old(View()), c) || (dest.At? && Displaced(old(View()), dest.p, c))
    {
      ghost var s := View();
      sizes := sizes[buf := size];
      if dest.At? {
        held := held[dest.p := buf];
        PlaceNewOrphans(s, buf, size, dest.p);
      } else {
        remote := AddHead(remote, buf);
        ListNewKeeps(s, buf, size);
      }
    }

    /** fastrpc_buf_free(…, 1) of a field of a context that is going away. */
    method Recycle(p: Place, ghost s0: State)
      requires Kept(s0, View())
      modifies this`cached, this`held
      ensures Kept(s0, View()) && View() == ToCache(old(View()), p)
      ensures cached == (if p in old(held) then [old(held)[p]] else []) + old(cached) && held == old(held) - {p}
    {
      ToCacheKeeps(View(), p);
      if p in held {
        cached := AddHead(cached, held[p]);
        held := held - {p};
      }
    }

    /** What context_free does with the context's buffers. */
    method ContextFree(c: Ctx, ghost s0: State)
      requires Kept(s0, View())
      modifies this`cached, this`held
      ensures Kept(s0, View())
      ensures held == old(held) - {Buf(c), Lbuf(c)}
    {
      Recycle(Buf(c), s0);
      Recycle(Lbuf(c), s0);
    }

    /** One loop of fastrpc_context_list_dtor. */
    method FreeContexts(l: seq<Ctx>, ghost s0: State)
      requires Kept(s0, View())
      modifies this`cached, this`held
      ensures Kept(s0, View())
      ensures held == WithoutCtxs(old(held), l)
    {
      var i := 0;
      while i < |l|
        invariant i <= |l|
        invariant Kept(s0, View())
        invariant held == WithoutCtxs(old(held), l[..i])
      {
        WithoutOneMore(old(held), l, i);
        ContextFree(l[i], s0);
        i := i + 1;
      }
      assert l[..i] == l;
    }

    /** The donated buffer goes first. */
    method FreeInit(ghost s0: State)
      requires Kept(s0, View())
      modifies this`sizes, this`held, this`freed
      ensures Kept(s0, View()) && held == old(held) - {InitMem}
    {
      ghost var s := View();
      if InitMem in held {
        DropInitKeeps(s);
        assert LivesAt(s, held[InitMem], Held(InitMem));
        LedgerDrop(s0, s.(held := s.held - {InitMem}), held[InitMem]);
        var mem := held[InitMem];
        held := held - {InitMem};
        sizes := sizes - {mem};
        freed := freed + [mem];
        assert View() == DropInit(s);
      }
    }

    /** The buffer part of fastrpc_file_free on a file with a session. What stays live are the
        orphans and what contexts on no list of the file hold; every other buffer is released
        once. So all are released exactly when there is neither. */
    method FileFree()
      requires Homed(View())
      modifies this
      ensures interrupted == [] && pending == [] && cached == [] && remote == [] && InitMem !in held
      ensures Ledger(old(View()), View())
      ensures forall b :: b in sizes <==> Orphan(old(View()), b) || HeldOff(old(held), old(interrupted), old(pending), b)
      ensures AllReleased(old(View()), View())
              <==> (forall b :: !Orphan(old(View()), b)) && forall p :: p in old(held) ==> OnList(p, old(interrupted), old(pending))
    {
      ghost var s0 := View();
      LedgerStart(s0);
      FreeInit(s0);
      FreeContexts(interrupted, s0);
      interrupted := [];
      FreeContexts(pending, s0);
      pending := [];
      DrainCache(s0);
      DrainRemote(s0);
      OnlyOrphansLeft(s0, View());
      HoldersLeft(View(), s0.held, old(interrupted), old(pending));
    }
  }

  /** Since s0 homes are in order, no orphan has appeared or gone, and releases are on record. */
  ghost predicate Kept(s0: State, s: State) {
    Homed(s) && SameOrphans(s0, s) && Ledger(s0, s)
  }

  /** b is held by a field whose context is on no list. */
  predicate HeldOff(held: map<Place, BufId>, interrupted: seq<Ctx>, pending: seq<Ctx>, b: BufId) {
    exists p :: p in held && held[p] == b && !OnList(p, interrupted, pending)
  }

  function WithoutCtxs(held: map<Place, BufId>, l: seq<Ctx>): map<Place, BufId> {
    map p | p in held && (p == InitMem || p.ctx !in l) :: held[p]
  }

  lemma WithoutOneMore(held: map<Place, BufId>, l: seq<Ctx>, i: nat)
    requires i < |l|
    ensures WithoutCtxs(held, l[..i + 1]) == WithoutCtxs(held, l[..i]) - {Buf(l[i]), Lbuf(l[i])}
  {
    assert l[..i + 1] == l[..i] + [l[i]];
  }

  lemma HoldersLeft(s: State, held: map<Place, BufId>, l: seq<Ctx>, k: seq<Ctx>)
    requires s.held == WithoutCtxs(WithoutCtxs(held - {InitMem}, l), k)
    ensures s.held == map[] <==> forall p :: p in held ==> OnList(p, l, k)
    ensures forall b :: HeldSomewhere(s, b) <==> HeldOff(held, l, k, b)
  {
    forall p ensures p in s.held <==> p in held && !OnList(p, l, k) {
    }
  }

  predicate OnList(p: Place, interrupted: seq<Ctx>, pending: seq<Ctx>) {
    p == InitMem || p.ctx in interrupted || p.ctx in pending
  }

  lemma DrainOne(s0: State, s: State)
    requires Kept(s0, s) && s.cached != []
    ensures var s' := DropCached(s);
            Kept(s0, s') && s'.sizes - Elems(s'.cached) == s.sizes - Elems(s.cached)
  {
    DropCachedKeeps(s);
    LedgerDrop(s0, s.(cached := s.cached[1..]), s.cached[0]);
    ElemsFront(s.sizes, s.cached);
  }

  lemma ElemsFront(sizes: map<BufId, nat>, l: seq<BufId>)
    requires l != []
    ensures (sizes - {l[0]}) - Elems(l[1..]) == sizes - Elems(l)
  {
    assert Elems(l) == {l[0]} + Elems(l[1..]);
  }

  predicate Subset(m: map<BufId, nat>, n: map<BufId, nat>) {
    forall b :: b in m ==> b in n && m[b] == n[b]
  }

  /** A field is asking and some cached buffer is large enough. */
  ghost predicate CacheServes(s: State, size: nat, dest: Dest) {
    dest.At? && !NoneFits(s.cached, s.sizes, size)
  }

  function Elems(l: seq<BufId>): set<BufId> {
    set b | b in l
  }

  /** The buffers left when the kernel has been asked: a failed first attempt empties the cache. */
  function Surviving(s: State, kernel: Kernel): map<BufId, nat> {
    if kernel.addr.Some? && !kernel.dma then s.sizes - Elems(s.cached) else s.sizes
  }

  predicate Granted(kernel: Kernel) {
    kernel.addr.Some? && (kernel.dma || kernel.retry) && kernel.hyp
  }

  lemma CachedLive(s: State)
    requires Homed(s)
    ensures forall b :: b in s.cached ==> b in s.sizes
  {
    forall b | b in s.cached ensures b in s.sizes {
      assert LivesAt(s, b, Cache);
    }
  }

  lemma BestInList(s: State, size: nat, b: BufId)
    requires BestFit(s, size, b)
    ensures b in s.cached && Fits(s.sizes, b, size)
  {
  }

  /** Homes do not depend on the releases so far. */
  lemma HomedWhatever(s: State, freed: seq<BufId>)
    requires Homed(s)
    ensures Homed(s.(freed := freed)) && SameOrphans(s, s.(freed := freed))
  {
    var t := s.(freed := freed);
    forall b, h ensures LivesAt(t, b, h) <==> LivesAt(s, b, h) {
    }
  }

  lemma LedgerStart(s: State)
    ensures Ledger(s, s)
  {
    assert s.freed[|s.freed|..] == [];
  }
}
