/** The driver's routines over a file's mappings, proved against the steps of MapRefs. */
module FileMaps {
  import opened Basics
  import opened Lists
  import opened MapRefs

  const EOVERFLOW := 75
  const ETOOMANYREFS := 109
  const ENOTTY := 25

  /** An argument goes through the mapper only with a descriptor. */
  predicate HasFd(a: Arg) {
    a.fd != 0 && a.fd != -1
  }

  /** What the kernel answers to one request for a map: memory for the record, and the steps of
      the device up to its listing. */
  datatype Kernel = Kernel(memory: bool, mapped: bool)

  /** The parts of a `fastrpc_file` and its contexts that hold mappings. */
  class Mappings {
    var maps: map<MapId, MapRec>
    var listed: seq<MapId>
    var slots: map<Slot, MapId>

    ghost function View(): State
      reads this
    {
      State(maps, listed, slots)
    }

    /** fastrpc_mmap_find with refs = 1 */
    method Find(a: Arg) returns (err: int, ppmap: Option<MapId>)
      requires forall m :: m in listed ==> m in maps
      modifies this`maps
      ensures ppmap == Shared(old(View()), a)
      ensures err == (if Wraps(a) then -EOVERFLOW
                      else if FirstCover(listed, old(maps), a).None? then -ENOTTY
                      else if ppmap.None? then -ETOOMANYREFS else 0)
      ensures maps == if ppmap.Some? then old(maps)[ppmap.value := old(maps)[ppmap.value].(refs := old(maps)[ppmap.value].refs + 1)]
                      else old(maps)
    {
      ppmap := None;
      if (a.va + a.len) % WORD < a.va {
        return -EOVERFLOW, None;
      }
      var i := 0;
      while i < |listed|
        invariant i <= |listed|
        invariant maps == old(maps)
        invariant FirstCover(listed, maps, a) == FirstCover(listed[i..], maps, a)
      {
        var m := listed[i];
        assert m in listed;
        if Covers(maps[m], a) {
          if maps[m].refs + 1 == INT_MAX {
            return -ETOOMANYREFS, None;
          }
          maps := maps[m := maps[m].(refs := maps[m].refs + 1)];
          return 0, Some(m);
        }
        i := i + 1;
      }
      err := -ENOTTY;
    }

    /** Memory for a new map's record, if there is any. */
    method Kzalloc(memory: bool) returns (addr: Option<MapId>)
      ensures addr.Some? <==> memory
      ensures addr.Some? ==> addr.value !in maps
    {
      addr := None;
      if memory {
        FreshName(maps.Keys);
        var room: MapId :| room !in maps;
        addr := Some(room);
      }
    }

    /** fastrpc_mmap_create with the slot as its result. A map is shared without asking the
        kernel; the steps between a new record and its listing succeed or fail as the device
        will, and a failure frees the record again. */
    method Create(k: Slot, a: Arg, kernel: Kernel) returns (ghost addr: Option<MapId>)
      requires Conserved(View()) && k !in slots
      modifies this
      ensures addr.Some? ==> addr.value !in old(maps)
      ensures addr.Some? <==> Shared(old(View()), a).None? && kernel.memory && kernel.mapped
      ensures View() == Attach(old(View()), k, a, addr)
      ensures addr.Some? ==> maps == old(maps)[addr.value := MapRec(a.fd, a.va, a.len, 1)]
                             && listed == [addr.value] + old(listed) && slots == old(slots)[k := addr.value]
    {
      addr := None;
      var err, match_ := Find(a);
      if err == 0 {
        slots := slots[k := match_.value];
      } else {
        var room := Kzalloc(kernel.memory);
        if room.Some? {
          maps := maps[room.value := MapRec(a.fd, a.va, a.len, 1)];
          if kernel.mapped {
            addr := room;
            listed := AddHead(listed, room.value);
            slots := slots[k := room.value];
          } else {
            FreeRecord(room.value);
          }
        }
      }
    }

    /** fastrpc_mmap_free(map, 0) */
    method FreeRecord(m: MapId)
      requires m in maps
      modifies this`maps, this`listed
      ensures maps == if old(maps)[m].refs - 1 > 0 then old(maps)[m := old(maps)[m].(refs := old(maps)[m].refs - 1)] else old(maps) - {m}
      ensures listed == if old(maps)[m].refs - 1 == 0 then Del(old(listed), m) else old(listed)
    {
      maps := maps[m := maps[m].(refs := maps[m].refs - 1)];
      if maps[m].refs == 0 {
        listed := Del(listed, m);
      }
      if maps[m].refs <= 0 {
        maps := maps - {m};
      }
    }

    /** fastrpc_mmap_free of the map in slot k, which is then cleared. */
    method Free(k: Slot)
      requires k in slots && slots[k] in maps
      modifies this
      ensures View() == Release(old(View()), k)
    {
      FreeRecord(slots[k]);
      slots := slots - {k};
    }

    /** One reference of context c is given back; the maps of others stay. */
    method GiveBack(c: Ctx, i: nat, ghost s: State)
      requires Conserved(View()) && Before(s, View(), c) && Slot(c, i) in slots
      modifies this
      ensures Conserved(View()) && Extends(s, View()) && slots == old(slots) - {Slot(c, i)}
    {
      ghost var t := View();
      ReleaseKeeps(t, Slot(c, i));
      ReleaseExtends(s, t, Slot(c, i));
      Free(Slot(c, i));
    }

    /** The mapping loop of get_args. Each slot filled holds a live map that can serve its
        argument, and each argument with a descriptor that a map can serve, or for which the
        kernel grants one, gets its slot. */
    method GetArgs(c: Ctx, args: seq<Arg>, kernel: seq<Kernel>)
      requires Conserved(View()) && Foreign(View(), c) && |kernel| == |args|
      modifies this
      ensures Conserved(View()) && Extends(old(View()), View())
      ensures FilledTo(old(View()), View(), c, args, kernel, |args|)
    {
      var i := 0;
      while i < |args|
        invariant i <= |args|
        invariant Conserved(View()) && Extends(old(View()), View())
        invariant FilledTo(old(View()), View(), c, args, kernel, i)
      {
        GetArg(c, args, kernel, i, old(View()));
        i := i + 1;
      }
    }

    /** One turn of that loop. */
    method GetArg(c: Ctx, args: seq<Arg>, kernel: seq<Kernel>, i: nat, ghost s0: State)
      requires Conserved(View()) && Extends(s0, View()) && Foreign(s0, c)
      requires i < |args| == |kernel| && FilledTo(s0, View(), c, args, kernel, i)
      modifies this
      ensures Conserved(View()) && Extends(s0, View()) && FilledTo(s0, View(), c, args, kernel, i + 1)
    {
      assert Slot(c, i) !in slots;
      if HasFd(args[i]) {
        ghost var s := View();
        ghost var addr := Create(Slot(c, i), args[i], kernel[i]);
        ArgAttached(s0, s, View(), c, args, kernel, i, addr);
      } else {
        ArgSkipped(s0, View(), c, args, kernel, i);
      }
    }

    /** The output loop of put_args: a copy that faults ends it. */
    method PutArgs(c: Ctx, inbufs: nat, outbufs: nat, faults: seq<bool>, ghost s: State) returns (err: bool, ghost stop: nat)
      requires Conserved(View()) && Before(s, View(), c) && |faults| == inbufs + outbufs
      modifies this
      ensures Conserved(View())
      ensures inbufs <= stop <= inbufs + outbufs && (err <==> stop < inbufs + outbufs)
      ensures err ==> Slot(c, stop) !in old(slots) && faults[stop]
      ensures forall i :: inbufs <= i < stop && Slot(c, i) !in old(slots) ==> !faults[i]
      ensures slots == Dropped(old(slots), c, inbufs, stop)
      ensures Extends(s, View())
    {
      var i := inbufs;
      DropNone(slots, c, inbufs);
      while i < inbufs + outbufs
        invariant inbufs <= i <= inbufs + outbufs
        invariant Conserved(View())
        invariant forall j :: inbufs <= j < i && Slot(c, j) !in old(slots) ==> !faults[j]
        invariant slots == Dropped(old(slots), c, inbufs, i)
        invariant Extends(s, View())
      {
        if Slot(c, i) !in slots {
          if faults[i] {
            return true, i;
          }
        } else {
          GiveBack(c, i, s);
        }
        DropOne(old(slots), c, inbufs, i);
        i := i + 1;
      }
      return false, i;
    }

    /** One turn of the loop of context_free. */
    method FreeOne(c: Ctx, i: nat, ghost s: State)
      requires Conserved(View()) && Before(s, View(), c)
      modifies this
      ensures Conserved(View()) && Extends(s, View()) && slots == old(slots) - {Slot(c, i)}
    {
      if Slot(c, i) in slots {
        GiveBack(c, i, s);
      }
    }

    /** The loop of context_free over the buffers' slots. */
    method ContextFree(c: Ctx, nbufs: nat, ghost s: State)
      requires Conserved(View()) && Before(s, View(), c)
      modifies this
      ensures Conserved(View())
      ensures slots == Dropped(old(slots), c, 0, nbufs)
      ensures Extends(s, View())
    {
      var i := 0;
      DropNone(slots, c, 0);
      while i < nbufs
        invariant i <= nbufs
        invariant Conserved(View())
        invariant slots == Dropped(old(slots), c, 0, i)
        invariant Extends(s, View())
      {
        FreeOne(c, i, s);
        DropOne(old(slots), c, 0, i);
        i := i + 1;
      }
    }

    /** The end of a call that has taken its references since the state s, whether or not it
        gets as far as put_args and wherever that stops: every map has the references it had in
        s, and no map is left over. */
    method Finish(c: Ctx, args: seq<Arg>, inbufs: nat, outbufs: nat, faults: seq<bool>, answered: bool, ghost s: State)
      requires Conserved(View()) && Before(s, View(), c) && |args| == |faults| == inbufs + outbufs
      requires forall k :: k in slots && k !in s.slots ==> Mapped(View(), k, c, args)
      modifies this
      ensures maps == s.maps && slots == s.slots
      ensures NoDup(listed) && forall m :: m in listed <==> m in s.listed
    {
      ghost var s1 := View();
      if answered {
        var err;
        ghost var stop;
        err, stop := PutArgs(c, inbufs, outbufs, faults, s);
      }
      ContextFree(c, inbufs + outbufs, s);
      AllGivenBack(s, s1, View(), c, args);
      SameSlotsSameMaps(s, View());
    }

    /** A call that nobody interleaves with. One that a signal interrupts keeps what Finish,
        in the call that resumes it, will give back; any other leaves everything as it was. */
    method Call(c: Ctx, args: seq<Arg>, kernel: seq<Kernel>, inbufs: nat, outbufs: nat, faults: seq<bool>,
                interrupted: bool, answered: bool)
      requires Conserved(View()) && |args| == |kernel| == |faults| == inbufs + outbufs && Foreign(View(), c)
      modifies this
      ensures interrupted ==> Conserved(View()) && Before(old(View()), View(), c)
                              && FilledTo(old(View()), View(), c, args, kernel, |args|)
      ensures !interrupted ==> maps == old(maps) && slots == old(slots)
                               && NoDup(listed) && forall m :: m in listed <==> m in old(listed)
    {
      ghost var s := View();
      GetArgs(c, args, kernel);
      if !interrupted {
        Finish(c, args, inbufs, outbufs, faults, answered, s);
      }
    }
  }

  /** Slot k belongs to an argument of c with a descriptor, and its map can serve it. */
  ghost predicate Mapped(s: State, k: Slot, c: Ctx, args: seq<Arg>) {
    && k.ctx == c && k.i < |args| && args[k.i].fd != 0 && args[k.i].fd != -1
    && k in s.slots && s.slots[k] in s.maps && Serves(s.maps[s.slots[k]], args[k.i])
  }

  /** A map of the argument's descriptor that has its addresses and does not reach the top of the
      address space. */
  ghost predicate Sharable(s: State, m: MapId, a: Arg) {
    && m in s.maps && m in s.listed && a.fd != 0 && a.fd != -1 && 0 < a.len && a.va + a.len < WORD
    && s.maps[m].fd == a.fd && Contains(s.maps[m], a) && s.maps[m].va + s.maps[m].len < WORD
  }

  ghost predicate Foreign(s: State, c: Ctx) {
    forall k :: k in s.slots ==> k.ctx != c
  }

  /** s is a state without slots of c from which t came by taking references. */
  ghost predicate Before(s: State, t: State, c: Ctx) {
    Conserved(s) && Extends(s, t) && Foreign(s, c)
  }

  lemma AttachMapped(s: State, c: Ctx, args: seq<Arg>, i: nat, addr: Option<MapId>)
    requires i < |args| && HasFd(args[i]) && Slot(c, i) !in s.slots && (addr.Some? ==> addr.value !in s.maps)
    ensures var s' := Attach(s, Slot(c, i), args[i], addr);
            && (forall k :: Mapped(s, k, c, args) ==> Mapped(s', k, c, args))
            && (Slot(c, i) in s'.slots ==> Mapped(s', Slot(c, i), c, args))
            && s'.slots.Keys - {Slot(c, i)} == s.slots.Keys - {Slot(c, i)}
  {
    var s' := Attach(s, Slot(c, i), args[i], addr);
    var m := Shared(s, args[i]);
    if m.Some? {
      WrapsIff(args[i]);
      CoversIff(s.maps[m.value], args[i]);
    }
    forall k | Mapped(s, k, c, args) ensures Mapped(s', k, c, args) {
      assert k != Slot(c, i);
    }
  }

  /** The first i arguments have been seen to: the slots filled are right, and an argument that
      a map known before can serve has its slot while references are left to give, and one whose
      map the kernel grants has it in any case. */
  ghost predicate FilledTo(s0: State, s: State, c: Ctx, args: seq<Arg>, kernel: seq<Kernel>, i: nat) {
    && i <= |args| == |kernel| && |s.slots| <= |s0.slots| + i
    && (forall k :: k in s.slots && k !in s0.slots ==> Mapped(s, k, c, args) && k.i < i)
    && (|s0.slots| + |args| < INT_MAX - 1 ==>
          forall j, m :: 0 <= j < i && Sharable(s0, m, args[j]) ==> Slot(c, j) in s.slots)
    && (forall j :: 0 <= j < i && GrantedFor(args[j], kernel[j]) ==> Slot(c, j) in s.slots)
  }

  predicate GrantedFor(a: Arg, kernel: Kernel) {
    a.fd != 0 && a.fd != -1 && kernel.memory && kernel.mapped
  }

  lemma FilledOne(s0: State, s: State, s': State, c: Ctx, args: seq<Arg>, kernel: seq<Kernel>, i: nat)
    requires i < |args| && FilledTo(s0, s, c, args, kernel, i)
    requires |s'.slots| <= |s.slots| + 1 && s'.slots.Keys - {Slot(c, i)} == s.slots.Keys - {Slot(c, i)}
    requires forall k :: Mapped(s, k, c, args) ==> Mapped(s', k, c, args)
    requires Slot(c, i) in s'.slots ==> Mapped(s', Slot(c, i), c, args)
    requires |s.slots| < INT_MAX - 1 ==> forall m :: Sharable(s0, m, args[i]) ==> Slot(c, i) in s'.slots
    requires GrantedFor(args[i], kernel[i]) ==> Slot(c, i) in s'.slots
    ensures FilledTo(s0, s', c, args, kernel, i + 1)
  {
    forall k | k in s'.slots && k !in s0.slots ensures Mapped(s', k, c, args) && k.i < i + 1 {
      if k != Slot(c, i) {
        assert k in s'.slots.Keys - {Slot(c, i)};
        assert k in s.slots;
      }
    }
    forall j, m | |s0.slots| + |args| < INT_MAX - 1 && 0 <= j < i + 1 && Sharable(s0, m, args[j]) ensures Slot(c, j) in s'.slots {
      OthersStay(s.slots, s'.slots, Slot(c, j), Slot(c, i));
    }
    forall j | 0 <= j < i + 1 && GrantedFor(args[j], kernel[j]) ensures Slot(c, j) in s'.slots {
      OthersStay(s.slots, s'.slots, Slot(c, j), Slot(c, i));
    }
  }

  lemma ArgSkipped(s0: State, s: State, c: Ctx, args: seq<Arg>, kernel: seq<Kernel>, i: nat)
    requires i < |args| && FilledTo(s0, s, c, args, kernel, i) && !HasFd(args[i]) && Slot(c, i) !in s.slots
    ensures FilledTo(s0, s, c, args, kernel, i + 1)
  {
    FilledOne(s0, s, s, c, args, kernel, i);
  }

  lemma ArgAttached(s0: State, s: State, s': State, c: Ctx, args: seq<Arg>, kernel: seq<Kernel>, i: nat, addr: Option<MapId>)
    requires Conserved(s) && Extends(s0, s) && Foreign(s0, c) && i < |args| == |kernel| && FilledTo(s0, s, c, args, kernel, i)
    requires HasFd(args[i]) && Slot(c, i) !in s.slots && (addr.Some? ==> addr.value !in s.maps)
    requires addr.Some? <==> Shared(s, args[i]).None? && kernel[i].memory && kernel[i].mapped
    requires s' == Attach(s, Slot(c, i), args[i], addr)
    ensures Conserved(s') && Extends(s0, s') && FilledTo(s0, s', c, args, kernel, i + 1)
  {
    AttachKeeps(s, Slot(c, i), args[i], addr);
    AttachExtends(s0, s, Slot(c, i), args[i], addr);
    AttachMapped(s, c, args, i, addr);
    AttachShares(s0, s, c, args[i], i, addr);
    FilledOne(s0, s, s', c, args, kernel, i);
  }

  lemma OthersStay(slots: map<Slot, MapId>, slots': map<Slot, MapId>, j: Slot, i: Slot)
    requires slots'.Keys - {i} == slots.Keys - {i}
    ensures j != i && j in slots ==> j in slots'
  {
    assert j != i && j in slots ==> j in slots.Keys - {i};
  }

  /** No map has more references than there are slots. */
  lemma RefsBound(s: State, m: MapId)
    requires Conserved(s) && m in s.maps
    ensures s.maps[m].refs <= |s.slots|
  {
    assert MapOk(s, m);
    assert Users(s.slots, m) <= s.slots.Keys;
    SubsetSize(Users(s.slots, m), s.slots.Keys);
  }

  lemma {:induction false} SubsetSize<T>(a: set<T>, b: set<T>)
    requires a <= b
    ensures |a| <= |b|
  {
    if x :| x in a {
      SubsetSize(a - {x}, b - {x});
    }
  }

  /** While references are left to give, an argument that a map can serve shares a map that was
      there: it gets its slot, and no map is added. */
  lemma SharesIfItCan(s: State, m: MapId, k: Slot, a: Arg, addr: Option<MapId>)
    requires Conserved(s) && Sharable(s, m, a) && |s.slots| < INT_MAX - 1
    ensures var s' := Attach(s, k, a, addr);
            && k in s'.slots && s'.slots[k] in s.maps && Serves(s.maps[s'.slots[k]], a)
            && s'.maps.Keys == s.maps.Keys && s'.listed == s.listed
  {
    SearchMissesNone(s.listed, s.maps, a);
    WrapsIff(a);
    var n := FirstCover(s.listed, s.maps, a).value;
    RefsBound(s, n);
    CoversIff(s.maps[n], a);
  }

  lemma AttachShares(s0: State, s: State, c: Ctx, a: Arg, i: nat, addr: Option<MapId>)
    requires Conserved(s) && Extends(s0, s) && Slot(c, i) !in s.slots
    ensures |Attach(s, Slot(c, i), a, addr).slots| <= |s.slots| + 1
    ensures |s.slots| < INT_MAX - 1 ==> forall m :: Sharable(s0, m, a) ==> Slot(c, i) in Attach(s, Slot(c, i), a, addr).slots
  {
    forall m | |s.slots| < INT_MAX - 1 && Sharable(s0, m, a) ensures Slot(c, i) in Attach(s, Slot(c, i), a, addr).slots {
      assert SameMap(s0, s, m) && MapOk(s, m);
      SharesIfItCan(s, m, Slot(c, i), a, addr);
    }
  }

  /** Some name is always free. */
  lemma {:induction false} FreshName(names: set<MapId>)
    ensures exists m: MapId :: m !in names
  {
    var m := Above(names);
    assert m !in names;
  }

  lemma {:induction false} Above(names: set<MapId>) returns (m: MapId)
    ensures forall n :: n in names ==> n < m
  {
    m := 0;
    if n :| n in names {
      m := Above(names - {n});
      m := if m > n then m else n + 1;
      forall k | k in names ensures k < m {
        assert k != n ==> k in names - {n};
      }
    }
  }

  /** The slots without those of c from lo up to hi. */
  function Dropped(slots: map<Slot, MapId>, c: Ctx, lo: nat, hi: nat): map<Slot, MapId> {
    map k | k in slots && !(k.ctx == c && lo <= k.i < hi) :: slots[k]
  }

  lemma DropNone(slots: map<Slot, MapId>, c: Ctx, lo: nat)
    ensures Dropped(slots, c, lo, lo) == slots
  {
  }

  lemma DropOne(slots: map<Slot, MapId>, c: Ctx, lo: nat, i: nat)
    requires lo <= i
    ensures Dropped(slots, c, lo, i + 1) == Dropped(slots, c, lo, i) - {Slot(c, i)}
  {
  }

  /** The slots a call filled are those context_free goes over. */
  lemma AllGivenBack(s: State, s1: State, t: State, c: Ctx, args: seq<Arg>)
    requires Foreign(s, c) && Extends(s, t)
    requires forall k :: k in s1.slots && k !in s.slots ==> Mapped(s1, k, c, args)
    requires forall k :: k in t.slots ==> k in s1.slots && !(k.ctx == c && k.i < |args|)
    ensures t.slots == s.slots
  {
    forall k | k in t.slots ensures k in s.slots {
      assert k !in s.slots ==> Mapped(s1, k, c, args);
    }
    forall k | k in s.slots ensures k in t.slots && t.slots[k] == s.slots[k] {
      assert SameSlot(s, t, k);
    }
  }
}
