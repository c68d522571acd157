/** The reference counts of a file's buffer mappings (android/adsprpc.c:612-677, 736-761,
    819-846, 983-990, 1292-1303, 1481-1498, 1750-1764): get_args takes a reference for each
    argument with a descriptor, put_args gives back those of the outputs it reaches, and
    context_free the rest. A map is named by its address; a name without a record is freed
    memory. */
module MapRefs {
  import opened Basics
  import opened Lists

  const INT_MAX: int := 0x7FFF_FFFF

  type MapId = nat
  type Ctx = nat

  /** `ctx->maps[i]` */
  datatype Slot = Slot(ctx: Ctx, i: nat)

  /** `fastrpc_mmap` */
  datatype MapRec = MapRec(fd: int, va: Word, len: Word, refs: int)

  /** An argument with its descriptor. */
  datatype Arg = Arg(fd: int, va: Word, len: Word)

  datatype State = State(maps: map<MapId, MapRec>, listed: seq<MapId>, slots: map<Slot, MapId>)

  // ---- the steps ----------------------------------------------------------------------

  predicate Wraps(a: Arg) {
    (a.va + a.len) % WORD < a.va
  }

  /** The search condition; sums are taken as the machine takes them. */
  predicate Covers(x: MapRec, a: Arg) {
    a.va >= x.va && (a.va + a.len) % WORD <= (x.va + x.len) % WORD && x.fd == a.fd
  }

  predicate InRange(p: int, va: int, len: int) {
    va <= p < va + len
  }

  /** The map has every address of the argument. */
  ghost predicate Contains(x: MapRec, a: Arg) {
    forall p :: InRange(p, a.va, a.len) ==> InRange(p, x.va, x.len)
  }

  /** The map can serve the argument: same descriptor, and the argument's addresses in its range,
      unless they wrap. */
  ghost predicate Serves(x: MapRec, a: Arg) {
    x.fd == a.fd && (a.va + a.len < WORD ==> Contains(x, a))
  }

  lemma WrapsIff(a: Arg)
    ensures Wraps(a) <==> a.va + a.len >= WORD
  {
  }

  /** The search condition on wrapped sums means what it should, for arguments that do not wrap,
      except that a map that ends at or beyond the top of the address space is passed over. */
  lemma CoversIff(x: MapRec, a: Arg)
    requires a.va + a.len < WORD
    ensures Covers(x, a) ==> Serves(x, a)
    ensures a.len > 0 ==> (Covers(x, a) <==> x.fd == a.fd && x.va + x.len < WORD && Contains(x, a))
    ensures a.len == 0 ==> (Covers(x, a) <==> x.fd == a.fd && x.va <= a.va <= x.va + x.len < WORD)
  {
    assert x.va + x.len >= WORD ==> (x.va + x.len) % WORD == x.va + x.len - WORD;
    if a.len > 0 {
      assert InRange(a.va, a.va, a.len) && InRange(a.va + a.len - 1, a.va, a.len);
    }
  }

  /** The first listed map that covers the argument. */
  function FirstCover(l: seq<MapId>, maps: map<MapId, MapRec>, a: Arg): (r: Option<MapId>)
    ensures r.Some? ==> r.value in l && r.value in maps && Covers(maps[r.value], a)
    ensures r.None? ==> forall m :: m in l && m in maps ==> !Covers(maps[m], a)
  {
    if l == [] then None
    else if l[0] in maps && Covers(maps[l[0]], a) then Some(l[0])
    else FirstCover(l[1..], maps, a)
  }

  /** The search stops at the first covering map, so the one listed last wins. */
  lemma {:induction false} FirstCoverIsFirst(l: seq<MapId>, maps: map<MapId, MapRec>, a: Arg) returns (i: nat)
    requires forall m :: m in l ==> m in maps
    ensures i <= |l| && forall j :: 0 <= j < i ==> !Covers(maps[l[j]], a)
    ensures FirstCover(l, maps, a) == (if i < |l| then Some(l[i]) else None)
    ensures i < |l| ==> Covers(maps[l[i]], a)
  {
    if l == [] {
      i := 0;
    } else if Covers(maps[l[0]], a) {
      i := 0;
    } else {
      i := FirstCoverIsFirst(l[1..], maps, a);
      i := i + 1;
    }
  }

  /** The search misses a map only if it has another descriptor, lacks an address of the
      argument, or ends at or beyond the top of the address space. */
  lemma SearchMissesNone(l: seq<MapId>, maps: map<MapId, MapRec>, a: Arg)
    requires 0 < a.len && a.va + a.len < WORD && forall m :: m in l ==> m in maps
    ensures FirstCover(l, maps, a).None?
            <==> forall m :: m in l ==> maps[m].fd != a.fd || !Contains(maps[m], a) || maps[m].va + maps[m].len >= WORD
  {
    forall m | m in l
      ensures Covers(maps[m], a) <==> maps[m].fd == a.fd && maps[m].va + maps[m].len < WORD && Contains(maps[m], a)
    {
      CoversIff(maps[m], a);
    }
  }

  /** What fastrpc_mmap_find(…, refs = 1) takes its reference from: nothing when the range
      wraps, and nothing when the first match has no reference left to give. */
  function Shared(s: State, a: Arg): (r: Option<MapId>)
    ensures r.Some? ==> r.value in s.listed && r.value in s.maps && s.maps[r.value].refs + 1 != INT_MAX
  {
    var m := FirstCover(s.listed, s.maps, a);
    if Wraps(a) || m.None? || s.maps[m.value].refs + 1 == INT_MAX then None else m
  }

  /** fastrpc_mmap_create into slot k; addr is the new map's address when there is one. */
  function Attach(s: State, k: Slot, a: Arg, addr: Option<MapId>): State {
    var m := Shared(s, a);
    if m.Some? then
      State(s.maps[m.value := s.maps[m.value].(refs := s.maps[m.value].refs + 1)], s.listed, s.slots[k := m.value])
    else if addr.Some? then
      State(s.maps[addr.value := MapRec(a.fd, a.va, a.len, 1)], AddHead(s.listed, addr.value), s.slots[k := addr.value])
    else s
  }

  /** fastrpc_mmap_free of the map in slot k, with the slot forgotten. */
  function Release(s: State, k: Slot): State
    requires k in s.slots && s.slots[k] in s.maps
  {
    var m := s.slots[k];
    var refs := s.maps[m].refs - 1;
    if refs > 0 then State(s.maps[m := s.maps[m].(refs := refs)], s.listed, s.slots - {k})
    else State(s.maps - {m}, if refs == 0 then Del(s.listed, m) else s.listed, s.slots - {k})
  }

  // ---- conservation -------------------------------------------------------------------

  function Users(slots: map<Slot, MapId>, m: MapId): set<Slot> {
    set k | k in slots && slots[k] == m
  }

  /** A live map's references are the slots that point to it, and it is listed. */
  predicate MapOk(s: State, m: MapId) {
    m in s.maps && s.maps[m].refs == |Users(s.slots, m)| && 0 < s.maps[m].refs < INT_MAX && m in s.listed
  }

  /** No slot points to freed memory. */
  predicate SlotOk(s: State, k: Slot) {
    k in s.slots && s.slots[k] in s.maps
  }

  ghost predicate Conserved(s: State) {
    && NoDup(s.listed)
    && (forall m :: m in s.listed ==> m in s.maps)
    && (forall m :: m in s.maps ==> MapOk(s, m))
    && (forall k :: k in s.slots ==> SlotOk(s, k))
  }

  lemma UsersAttach(slots: map<Slot, MapId>, k: Slot, m: MapId, n: MapId)
    requires k !in slots
    ensures |Users(slots[k := m], n)| == |Users(slots, n)| + if n == m then 1 else 0
  {
    assert Users(slots[k := m], n) == if n == m then Users(slots, n) + {k} else Users(slots, n);
  }

  lemma UsersRelease(slots: map<Slot, MapId>, k: Slot, n: MapId)
    requires k in slots
    ensures |Users(slots - {k}, n)| == |Users(slots, n)| - if n == slots[k] then 1 else 0
  {
    assert k in Users(slots, slots[k]);
    assert Users(slots - {k}, n) == if n == slots[k] then Users(slots, n) - {k} else Users(slots, n);
  }

  lemma UnusedHasNoUsers(s: State, m: MapId)
    requires Conserved(s) && m !in s.maps
    ensures Users(s.slots, m) == {}
  {
    forall k | k in s.slots ensures s.slots[k] != m {
      assert SlotOk(s, k);
    }
  }

  /** Taking a reference keeps the counts, whether the map is shared or new, and whichever
      way the creation fails. */
  lemma AttachKeeps(s: State, k: Slot, a: Arg, addr: Option<MapId>)
    requires Conserved(s) && k !in s.slots && (addr.Some? ==> addr.value !in s.maps)
    ensures Conserved(Attach(s, k, a, addr))
  {
    var s' := Attach(s, k, a, addr);
    if k in s'.slots {
      var m := s'.slots[k];
      if m !in s.maps {
        UnusedHasNoUsers(s, m);
      } else {
        assert MapOk(s, m);
      }
      forall n | n in s'.maps ensures MapOk(s', n) {
        UsersAttach(s.slots, k, m, n);
        assert n != m ==> MapOk(s, n);
      }
      forall j | j in s'.slots ensures SlotOk(s', j) {
        assert j != k ==> SlotOk(s, j);
      }
    }
  }

  /** Giving a reference back keeps the counts; the last one frees the map. */
  lemma ReleaseKeeps(s: State, k: Slot)
    requires Conserved(s) && k in s.slots
    ensures SlotOk(s, k) && Conserved(Release(s, k))
  {
    assert SlotOk(s, k);
    var m := s.slots[k];
    assert MapOk(s, m);
    var s' := Release(s, k);
    forall n | n in s'.maps ensures MapOk(s', n) {
      UsersRelease(s.slots, k, n);
      assert MapOk(s, n);
    }
    forall j | j in s'.slots ensures SlotOk(s', j) {
      assert SlotOk(s, j);
      if s'.slots[j] == m {
        assert j in Users(s.slots, m) && k in Users(s.slots, m);
        UsersRelease(s.slots, k, m);
        assert j in Users(s'.slots, m);
      }
    }
  }

  // ---- runs ---------------------------------------------------------------------------

  /** One section under fl_map_mutex; sections of different contexts interleave freely. */
  datatype Action = Take(k: Slot, a: Arg, addr: Option<MapId>) | Give(k: Slot)

  predicate Enabled(s: State, x: Action) {
    match x
    case Take(k, a, addr) => k !in s.slots && (addr.Some? ==> addr.value !in s.maps)
    case Give(k) => k in s.slots
  }

  function Apply(s: State, x: Action): State {
    match x
    case Take(k, a, addr) => Attach(s, k, a, addr)
    case Give(k) => if k in s.slots && s.slots[k] in s.maps then Release(s, k) else s
  }

  ghost predicate StepAt(tr: seq<State>, acts: seq<Action>, i: int) {
    |tr| == |acts| + 1 && 0 <= i < |acts| && Enabled(tr[i], acts[i]) && tr[i + 1] == Apply(tr[i], acts[i])
  }

  ghost predicate Run(tr: seq<State>, acts: seq<Action>) {
    |tr| == |acts| + 1 && tr[0] == State(map[], [], map[]) && forall i :: 0 <= i < |acts| ==> StepAt(tr, acts, i)
  }

  /** Over every run the counts are conserved, and a reference given back is always one to a
      live map, gone after it. */
  lemma {:induction false} RunConserves(tr: seq<State>, acts: seq<Action>, i: nat)
    requires Run(tr, acts) && i < |tr|
    ensures Conserved(tr[i])
    ensures i < |acts| && acts[i].Give? ==> acts[i].k in tr[i].slots && tr[i].slots[acts[i].k] in tr[i].maps
                                            && tr[i + 1].slots == tr[i].slots - {acts[i].k}
    decreases i
  {
    if i > 0 {
      assert StepAt(tr, acts, i - 1);
      RunConserves(tr, acts, i - 1);
      match acts[i - 1]
      case Take(k, a, addr) => AttachKeeps(tr[i - 1], k, a, addr);
      case Give(k) => ReleaseKeeps(tr[i - 1], k);
    }
    if i < |acts| && acts[i].Give? {
      assert StepAt(tr, acts, i);
      assert SlotOk(tr[i], acts[i].k);
    }
  }

  /** A map up to the very top of the address space is never shared: a second argument inside it
      gets a map of its own. */
  lemma TopMapIsMissed() returns (tr: seq<State>, acts: seq<Action>)
    ensures Run(tr, acts) && |acts| == 2 && acts[0].Take? && acts[1].Take?
    ensures var s := tr[2];
            && s.slots == map[acts[0].k := 0, acts[1].k := 1] && 0 in s.maps && 1 in s.maps
            && acts[1].a.fd == s.maps[0].fd && acts[1].a.va + acts[1].a.len < WORD && Contains(s.maps[0], acts[1].a)
  {
    var a, b := Arg(5, WORD - 4096, 4096), Arg(5, WORD - 4096, 100);
    var s0 := State(map[], [], map[]);
    acts := [Take(Slot(1, 0), a, Some(0)), Take(Slot(1, 1), b, Some(1))];
    var s1 := Apply(s0, acts[0]);
    assert s1 == State(map[0 := MapRec(5, WORD - 4096, 4096, 1)], [0], map[Slot(1, 0) := 0]);
    WrapsIff(a);
    CoversIff(s1.maps[0], b);
    assert FirstCover([0], s1.maps, b).None?;
    tr := [s0, s1, Apply(s1, acts[1])];
    assert StepAt(tr, acts, 0) && StepAt(tr, acts, 1);
  }

  /** When every context has been freed, nothing stays mapped. */
  lemma NothingLeaks(s: State)
    requires Conserved(s) && s.slots == map[]
    ensures s.maps == map[] && forall m :: m !in s.listed
  {
    forall m ensures m !in s.maps {
      assert m in s.maps ==> MapOk(s, m);
      assert |Users(s.slots, m)| == 0;
    }
  }

  // ---- what one call undoes -----------------------------------------------------------

  /** The slots and maps of s are there in t, up to reference counts. */
  ghost predicate Extends(s: State, t: State) {
    && (forall k :: k in s.slots ==> SameSlot(s, t, k))
    && (forall m :: m in s.maps ==> SameMap(s, t, m))
  }

  predicate SameSlot(s: State, t: State, k: Slot) {
    k in s.slots && k in t.slots && t.slots[k] == s.slots[k]
  }

  predicate SameMap(s: State, t: State, m: MapId) {
    m in s.maps && m in t.maps && t.maps[m] == s.maps[m].(refs := t.maps[m].refs)
  }

  lemma AttachExtends(s: State, t: State, k: Slot, a: Arg, addr: Option<MapId>)
    requires Extends(s, t) && k !in t.slots && (addr.Some? ==> addr.value !in t.maps)
    ensures Extends(s, Attach(t, k, a, addr))
  {
    var t' := Attach(t, k, a, addr);
    forall j | j in s.slots ensures SameSlot(s, t', j) {
      assert SameSlot(s, t, j);
    }
    forall m | m in s.maps ensures SameMap(s, t', m) {
      assert SameMap(s, t, m);
    }
  }

  /** A context that gives back its own reference cannot free a map others still use. */
  lemma ReleaseExtends(s: State, t: State, k: Slot)
    requires Conserved(s) && Conserved(t) && Extends(s, t) && k in t.slots && k !in s.slots && SlotOk(t, k)
    ensures Extends(s, Release(t, k))
  {
    var t' := Release(t, k);
    forall j | j in s.slots ensures SameSlot(s, t', j) {
      assert SameSlot(s, t, j);
    }
    forall m | m in s.maps ensures SameMap(s, t', m) {
      assert SameMap(s, t, m) && MapOk(s, m);
      if m == t.slots[k] {
        var j :| j in Users(s.slots, m);
        assert SameSlot(s, t, j);
        assert j in Users((t.slots - {k}), m);
        UsersRelease(t.slots, k, m);
        assert MapOk(t, m);
      }
    }
  }

  /** With the same slots as before, everything is as before. */
  lemma SameSlotsSameMaps(s: State, t: State)
    requires Conserved(s) && Conserved(t) && Extends(s, t) && t.slots == s.slots
    ensures t.maps == s.maps && forall m :: m in t.listed <==> m in s.listed
  {
    forall m | m in t.maps ensures m in s.maps {
      assert MapOk(t, m);
      var j :| j in Users(t.slots, m);
      assert SlotOk(s, j);
    }
    forall m | m in s.maps ensures t.maps[m] == s.maps[m] {
      assert SameMap(s, t, m) && MapOk(s, m) && MapOk(t, m);
    }
    forall m ensures m in t.listed <==> m in s.listed {
      assert m in s.maps ==> MapOk(s, m) && MapOk(t, m);
    }
  }
}
