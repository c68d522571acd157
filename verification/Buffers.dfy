/** Who owns a file's DMA buffers (android/adsprpc.c:534-610, 993-1077, 1306-1307, 2326-2329,
    2772-2780, 3078-3113). A buffer is named by its address; a name without a record is freed
    memory. */
module Buffers {
  import opened Basics
  import opened Lists

  type BufId = nat
  type Ctx = nat

  /** The fields that hold a buffer: `ctx->buf`, `ctx->lbuf` and `fl->init_mem`. */
  datatype Place = Buf(ctx: Ctx) | Lbuf(ctx: Ctx) | InitMem

  /** sizes has the live buffers; freed lists the releases so far. */
  datatype State = State(sizes: map<BufId, nat>, cached: seq<BufId>, remote: seq<BufId>, held: map<Place, BufId>, freed: seq<BufId>)

  datatype Home = Cache | RemoteList | Held(p: Place)

  predicate LivesAt(s: State, b: BufId, h: Home) {
    match h
    case Cache => b in s.cached
    case RemoteList => b in s.remote
    case Held(p) => p in s.held && s.held[p] == b
  }

  /** Only live buffers have a home, and none has two. */
  ghost predicate Homed(s: State) {
    && NoDup(s.cached) && NoDup(s.remote)
    && (forall b, h :: LivesAt(s, b, h) ==> b in s.sizes)
    && (forall b, h, g :: LivesAt(s, b, h) && LivesAt(s, b, g) ==> h == g)
  }

  /** A live buffer that nobody can reach any more. */
  ghost predicate Orphan(s: State, b: BufId) {
    b in s.sizes && forall h :: !LivesAt(s, b, h)
  }

  /** Every live buffer has exactly one home. */
  ghost predicate Owned(s: State) {
    Homed(s) && forall b :: !Orphan(s, b)
  }

  // ---- the steps ----------------------------------------------------------------------

  predicate Fits(sizes: map<BufId, nat>, b: BufId, size: nat) {
    b in sizes && sizes[b] >= size
  }

  ghost predicate NoneFits(l: seq<BufId>, sizes: map<BufId, nat>, size: nat) {
    forall b :: b in l ==> !Fits(sizes, b, size)
  }

  /** b, at i, is the smallest buffer of the list that fits, and the first of that size. */
  ghost predicate BestOf(l: seq<BufId>, sizes: map<BufId, nat>, size: nat, b: BufId, i: nat) {
    && i < |l| && l[i] == b && Fits(sizes, b, size)
    && (forall c :: c in l && Fits(sizes, c, size) ==> sizes[b] <= sizes[c])
    && (forall c :: c in l[..i] && Fits(sizes, c, size) ==> sizes[b] < sizes[c])
  }

  ghost predicate BestFit(s: State, size: nat, b: BufId) {
    exists i :: BestOf(s.cached, s.sizes, size, b, i)
  }

  /** A cache hit moves the buffer to the asking place. */
  function TakeCached(s: State, b: BufId, p: Place): State {
    s.(cached := Del(s.cached, b), held := s.held[p := b])
  }

  function PlaceNew(s: State, b: BufId, size: nat, p: Place): State {
    s.(sizes := s.sizes[b := size], held := s.held[p := b])
  }

  function ListNew(s: State, b: BufId, size: nat): State {
    s.(sizes := s.sizes[b := size], remote := AddHead(s.remote, b))
  }

  /** fastrpc_buf_free(buf, 1) of the buffer in p, whose owner then goes away. */
  function ToCache(s: State, p: Place): State {
    if p in s.held then s.(cached := AddHead(s.cached, s.held[p]), held := s.held - {p}) else s
  }

  /** The memory of b is given back. */
  function Drop(s: State, b: BufId): State {
    s.(sizes := s.sizes - {b}, freed := s.freed + [b])
  }

  function DropCached(s: State): State
    requires s.cached != []
  {
    Drop(s.(cached := s.cached[1..]), s.cached[0])
  }

  function DropRemote(s: State, b: BufId): State {
    Drop(s.(remote := Del(s.remote, b)), b)
  }

  function DropInit(s: State): State {
    if InitMem in s.held then Drop(s.(held := s.held - {InitMem}), s.held[InitMem]) else s
  }

  // ---- what the steps do to homes -----------------------------------------------------

  /** Buffer b moves to the home `to`, or is freed with none; what was at `gone` loses its. */
  lemma Rehome(s: State, s': State, b: BufId, to: Option<Home>, gone: Option<Home>)
    requires Homed(s) && !Orphan(s, b) && NoDup(s'.cached) && NoDup(s'.remote)
    requires s'.sizes.Keys == if to.Some? then s.sizes.Keys + {b} else s.sizes.Keys - {b}
    requires forall c, h :: LivesAt(s', c, h) <==> (c == b && to == Some(h)) || (c != b && LivesAt(s, c, h) && gone != Some(h))
    ensures Homed(s')
    ensures forall c :: Orphan(s', c) <==> Orphan(s, c) || (c != b && gone.Some? && LivesAt(s, c, gone.value))
  {
    forall c ensures Orphan(s', c) <==> Orphan(s, c) || (c != b && gone.Some? && LivesAt(s, c, gone.value)) {
      if c == b {
        assert to.Some? ==> LivesAt(s', b, to.value);
      } else if h :| LivesAt(s, c, h) {
        assert LivesAt(s', c, h) <==> gone != Some(h);
      }
    }
  }

  ghost predicate SameOrphans(s: State, s': State) {
    forall c :: Orphan(s', c) <==> Orphan(s, c)
  }

  /** c is what a store into p overwrites. */
  predicate Displaced(s: State, p: Place, c: BufId) {
    p in s.held && s.held[p] == c
  }

  /** A store orphans what it overwrites, and nothing else. */
  lemma TakeCachedOrphans(s: State, b: BufId, p: Place)
    requires Homed(s) && b in s.cached
    ensures Homed(TakeCached(s, b, p))
    ensures forall c :: Orphan(TakeCached(s, b, p), c) <==> Orphan(s, c) || Displaced(s, p, c)
  {
    assert LivesAt(s, b, Cache);
    assert p in s.held ==> LivesAt(s, s.held[p], Held(p));
    var s' := TakeCached(s, b, p);
    forall c, h ensures LivesAt(s', c, h) <==> (c == b && h == Held(p)) || (c != b && LivesAt(s, c, h) && h != Held(p)) {
      assert b !in s'.cached;
      assert c == b && h != Cache ==> !LivesAt(s, c, h);
    }
    Rehome(s, s', b, Some(Held(p)), Some(Held(p)));
  }

  lemma PlaceNewOrphans(s: State, b: BufId, size: nat, p: Place)
    requires Homed(s) && b !in s.sizes
    ensures Homed(PlaceNew(s, b, size, p))
    ensures forall c :: Orphan(PlaceNew(s, b, size, p), c) <==> Orphan(s, c) || Displaced(s, p, c)
  {
    assert p in s.held ==> LivesAt(s, s.held[p], Held(p));
    var s' := PlaceNew(s, b, size, p);
    forall c, h ensures LivesAt(s', c, h) <==> (c == b && h == Held(p)) || (c != b && LivesAt(s, c, h) && h != Held(p)) {
      assert !LivesAt(s, b, h);
    }
    Rehome(s, s', b, Some(Held(p)), Some(Held(p)));
  }

  /** Storing a buffer keeps every buffer owned exactly when the place was empty: a second
      CREATE on a file leaves the first donated buffer without an owner. */
  lemma PlaceNewNeedsRoom(s: State, b: BufId, size: nat, p: Place)
    requires Owned(s) && b !in s.sizes
    ensures Owned(PlaceNew(s, b, size, p)) <==> p !in s.held
  {
    PlaceNewOrphans(s, b, size, p);
    assert p in s.held ==> Displaced(s, p, s.held[p]);
  }

  /** The same of a cache hit: CREATE asks without remote, so a second one may be served from
      the cache. */
  lemma TakeCachedNeedsRoom(s: State, b: BufId, p: Place)
    requires Owned(s) && b in s.cached
    ensures Owned(TakeCached(s, b, p)) <==> p !in s.held
  {
    TakeCachedOrphans(s, b, p);
    assert p in s.held ==> Displaced(s, p, s.held[p]);
  }

  lemma ListNewKeeps(s: State, b: BufId, size: nat)
    requires Homed(s) && b !in s.sizes
    ensures Homed(ListNew(s, b, size)) && SameOrphans(s, ListNew(s, b, size))
  {
    var s' := ListNew(s, b, size);
    assert !LivesAt(s, b, RemoteList);
    forall c, h ensures LivesAt(s', c, h) <==> (c == b && h == RemoteList) || (c != b && LivesAt(s, c, h)) {
      assert !LivesAt(s, b, h);
    }
    Rehome(s, s', b, Some(RemoteList), None);
  }

  lemma ToCacheKeeps(s: State, p: Place)
    requires Homed(s)
    ensures Homed(ToCache(s, p)) && SameOrphans(s, ToCache(s, p))
  {
    if p in s.held {
      var s', b := ToCache(s, p), s.held[p];
      assert LivesAt(s, b, Held(p)) && !LivesAt(s, b, Cache);
      forall c, h ensures LivesAt(s', c, h) <==> (c == b && h == Cache) || (c != b && LivesAt(s, c, h)) {
        assert c == b && h != Held(p) ==> !LivesAt(s, c, h);
      }
      Rehome(s, s', b, Some(Cache), None);
    }
  }

  /** Taking b from its only home and giving its memory back. */
  lemma DropKeeps(s: State, s': State, b: BufId, home: Home)
    requires Homed(s) && LivesAt(s, b, home) && s'.sizes == s.sizes - {b}
    requires NoDup(s'.cached) && NoDup(s'.remote)
    requires forall c, h :: LivesAt(s', c, h) <==> LivesAt(s, c, h) && c != b
    ensures Homed(s') && SameOrphans(s, s')
  {
    Rehome(s, s', b, None, None);
  }

  lemma DropCachedKeeps(s: State)
    requires Homed(s) && s.cached != []
    ensures LivesAt(s, s.cached[0], Cache) && Homed(DropCached(s)) && SameOrphans(s, DropCached(s))
  {
    var b := s.cached[0];
    assert LivesAt(s, b, Cache);
    DropKeeps(s, DropCached(s), b, Cache);
  }

  lemma DropRemoteKeeps(s: State, b: BufId)
    requires Homed(s) && b in s.remote
    ensures Homed(DropRemote(s, b)) && SameOrphans(s, DropRemote(s, b))
  {
    assert LivesAt(s, b, RemoteList);
    DropKeeps(s, DropRemote(s, b), b, RemoteList);
  }

  lemma DropInitKeeps(s: State)
    requires Homed(s)
    ensures Homed(DropInit(s)) && SameOrphans(s, DropInit(s))
  {
    if InitMem in s.held {
      assert LivesAt(s, s.held[InitMem], Held(InitMem));
      DropKeeps(s, DropInit(s), s.held[InitMem], Held(InitMem));
    }
  }

  // ---- runs ---------------------------------------------------------------------------

  datatype Action =
    | Hit(size: nat, b: BufId, p: Place)
    | New(b: BufId, size: nat, p: Place)
    | NewRemote(b: BufId, size: nat)
    | Recycle(p: Place)
    | Shrink
    | Unmap(b: BufId)
    | CloseInit

  /** The allocator hits the best fit, and a new buffer has an address of its own. Nothing asks
      whether the field it is stored into is empty. */
  ghost predicate Enabled(s: State, a: Action) {
    match a
    case Hit(size, b, p) => size > 0 && BestFit(s, size, b)
    case New(b, size, p) => b !in s.sizes
    case NewRemote(b, size) => b !in s.sizes
    case Recycle(p) => p != InitMem
    case Shrink => s.cached != []
    case Unmap(b) => b in s.remote
    case CloseInit => true
  }

  function Apply(s: State, a: Action): State
    requires a.Shrink? ==> s.cached != []
  {
    match a
    case Hit(size, b, p) => TakeCached(s, b, p)
    case New(b, size, p) => PlaceNew(s, b, size, p)
    case NewRemote(b, size) => ListNew(s, b, size)
    case Recycle(p) => ToCache(s, p)
    case Shrink => DropCached(s)
    case Unmap(b) => DropRemote(s, b)
    case CloseInit => DropInit(s)
  }

  /** The step stores into a field that still holds c. */
  predicate Displaces(s: State, a: Action, c: BufId) {
    (a.Hit? || a.New?) && Displaced(s, a.p, c)
  }

  predicate Overwrites(s: State, a: Action) {
    (a.Hit? || a.New?) && a.p in s.held
  }

  /** Orphans stay orphans under every step, and only a store into an occupied field makes one. */
  lemma StepOrphans(s: State, a: Action)
    requires Homed(s) && Enabled(s, a)
    ensures Homed(Apply(s, a))
    ensures forall c :: Orphan(Apply(s, a), c) <==> Orphan(s, c) || Displaces(s, a, c)
  {
    match a
    case Hit(size, b, p) => TakeCachedOrphans(s, b, p);
    case New(b, size, p) => PlaceNewOrphans(s, b, size, p);
    case NewRemote(b, size) => ListNewKeeps(s, b, size);
    case Recycle(p) => ToCacheKeeps(s, p);
    case Shrink => DropCachedKeeps(s);
    case Unmap(b) => DropRemoteKeeps(s, b);
    case CloseInit => DropInitKeeps(s);
  }

  ghost predicate StepAt(tr: seq<State>, acts: seq<Action>, i: int) {
    |tr| == |acts| + 1 && 0 <= i < |acts| && Enabled(tr[i], acts[i]) && tr[i + 1] == Apply(tr[i], acts[i])
  }

  ghost predicate Run(tr: seq<State>, acts: seq<Action>) {
    |tr| == |acts| + 1 && tr[0] == State(map[], [], [], map[], []) && forall i :: 0 <= i < |acts| ==> StepAt(tr, acts, i)
  }

  ghost predicate DisplacedBefore(tr: seq<State>, acts: seq<Action>, i: nat, c: BufId) {
    exists j: nat :: DisplacedAt(tr, acts, j, c) && j < i
  }

  ghost predicate DisplacedAt(tr: seq<State>, acts: seq<Action>, j: nat, c: BufId) {
    j < |acts| && j < |tr| && Displaces(tr[j], acts[j], c)
  }

  /** Over every interleaving of calls no buffer has two homes, and the buffers without one are
      exactly those that some store has overwritten. */
  lemma {:induction false} RunOrphans(tr: seq<State>, acts: seq<Action>, i: nat)
    requires Run(tr, acts) && i < |tr|
    ensures Homed(tr[i])
    ensures forall c :: Orphan(tr[i], c) <==> DisplacedBefore(tr, acts, i, c)
    decreases i
  {
    if i > 0 {
      assert StepAt(tr, acts, i - 1);
      RunOrphans(tr, acts, i - 1);
      StepOrphans(tr[i - 1], acts[i - 1]);
      forall c ensures Orphan(tr[i], c) <==> DisplacedBefore(tr, acts, i, c) {
        if Displaces(tr[i - 1], acts[i - 1], c) {
          assert DisplacedAt(tr, acts, i - 1, c);
        }
        if DisplacedBefore(tr, acts, i - 1, c) {
          var j: nat :| DisplacedAt(tr, acts, j, c) && j < i - 1;
          assert DisplacedAt(tr, acts, j, c) && j < i;
        }
      }
    }
  }

  /** Each buffer has exactly one owner if and only if no store so far went into an occupied
      field. */
  lemma RunOwnedIff(tr: seq<State>, acts: seq<Action>, i: nat)
    requires Run(tr, acts) && i < |tr|
    ensures Owned(tr[i]) <==> forall j :: 0 <= j < i ==> !Overwrites(tr[j], acts[j])
  {
    RunOrphans(tr, acts, i);
    if j :| 0 <= j < i && Overwrites(tr[j], acts[j]) {
      var c := tr[j].held[acts[j].p];
      assert DisplacedAt(tr, acts, j, c);
      assert Orphan(tr[i], c);
    } else {
      forall c ensures !Orphan(tr[i], c) {
        assert !DisplacedBefore(tr, acts, i, c);
      }
    }
  }

  /** Two CREATE inits on one file: the first donated buffer is left without an owner. */
  lemma SecondCreateOrphans() returns (tr: seq<State>, acts: seq<Action>)
    ensures Run(tr, acts) && acts == [New(0, 0x300000, InitMem), New(1, 0x300000, InitMem)]
    ensures Orphan(tr[2], 0) && !Owned(tr[2])
  {
    var s0 := State(map[], [], [], map[], []);
    var s1 := PlaceNew(s0, 0, 0x300000, InitMem);
    var s2 := PlaceNew(s1, 1, 0x300000, InitMem);
    tr, acts := [s0, s1, s2], [New(0, 0x300000, InitMem), New(1, 0x300000, InitMem)];
    assert StepAt(tr, acts, 0) && StepAt(tr, acts, 1);
    RunOrphans(tr, acts, 2);
    assert DisplacedAt(tr, acts, 1, 0);
  }

  // ---- releases -----------------------------------------------------------------------

  /** Since the state s0, what was live is live still or released once, and nothing else is. */
  ghost predicate Ledger(s0: State, s: State) {
    && |s0.freed| <= |s.freed| && s.freed[..|s0.freed|] == s0.freed
    && NoDup(s.freed[|s0.freed|..])
    && (forall b :: b in s.sizes ==> b in s0.sizes && b !in s.freed[|s0.freed|..])
    && (forall b :: b in s.freed[|s0.freed|..] ==> b in s0.sizes)
    && (forall b :: b in s0.sizes ==> b in s.sizes || b in s.freed[|s0.freed|..])
  }

  lemma {:induction false} NoDupAppend<T(!new)>(l: seq<T>, x: T)
    requires NoDup(l) && x !in l
    ensures NoDup(l + [x])
  {
    if l != [] {
      NoDupAppend(l[1..], x);
      assert (l + [x])[1..] == l[1..] + [x];
    }
  }

  lemma LedgerDrop(s0: State, s: State, b: BufId)
    requires Ledger(s0, s) && b in s.sizes
    ensures Ledger(s0, Drop(s, b))
  {
    var n := |s0.freed|;
    assert (s.freed + [b])[n..] == s.freed[n..] + [b];
    assert (s.freed + [b])[..n] == s.freed[..n];
    NoDupAppend(s.freed[n..], b);
  }

  /** The releases between s0 and s are the buffers of s0, each once. */
  ghost predicate AllReleased(s0: State, s: State) {
    && s.sizes == map[] && |s0.freed| <= |s.freed| && s.freed[..|s0.freed|] == s0.freed
    && NoDup(s.freed[|s0.freed|..]) && forall b :: b in s0.sizes <==> b in s.freed[|s0.freed|..]
  }

  /** With cache and remote list empty, what is still live is an orphan or in a field. */
  lemma OnlyOrphansLeft(s0: State, s: State)
    requires Homed(s) && Ledger(s0, s) && SameOrphans(s0, s) && s.cached == [] && s.remote == []
    ensures forall b :: b in s.sizes <==> Orphan(s0, b) || HeldSomewhere(s, b)
    ensures AllReleased(s0, s) <==> s.held == map[] && forall b :: !Orphan(s0, b)
  {
    forall b ensures b in s.sizes <==> Orphan(s0, b) || HeldSomewhere(s, b) {
      if p :| p in s.held && s.held[p] == b {
        assert LivesAt(s, b, Held(p));
      } else {
        assert forall h :: !LivesAt(s, b, h);
      }
    }
    if s.held != map[] {
      var p :| p in s.held;
      assert HeldSomewhere(s, s.held[p]);
    }
  }

  predicate HeldSomewhere(s: State, b: BufId) {
    exists p :: p in s.held && s.held[p] == b
  }
}
