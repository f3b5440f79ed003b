// The GPU buffer table of src/mem/mem_pool.cc: kbx_mem_gpu_alloc and
// kbx_mem_gpu_free under any number of threads. One step is one system call or one
// critical section of g_gpu_allocs_mtx.
module GpuTable {

  type Handle = nat
  type Pointer = nat

  // Where a thread stands; the handle it is responsible for travels with it.
  datatype Thread =
    | Idle
    | Created(h: Handle, size: nat)               // about to ask for the map offset
    | Located(h: Handle, size: nat)               // about to mmap
    | Mapped(h: Handle, size: nat, ptr: Pointer)  // about to insert into the table
    | Abandoned(h: Handle)                        // an alloc about to destroy after a failure
    | Erased(h: Handle, size: nat, ptr: Pointer)  // a free about to munmap
    | Unmapped(h: Handle)                         // a free about to destroy

  datatype Entry = Entry(size: nat, handle: Handle)

  // `open` are the dumb-buffer handles the driver knows, `mapped` the mappings of
  // the process with their lengths, `table` is g_gpu_allocs.
  datatype State = State(open: set<Handle>, mapped: map<Pointer, nat>, table: map<Pointer, Entry>, threads: seq<Thread>)

  // The operating system chooses handles, addresses and failures.
  datatype Action =
    | Create(t: nat, h: Handle, size: nat)
    | LocateOk(t: nat)
    | MmapOk(t: nat, ptr: Pointer)
    | CallFails(t: nat)
    | Insert(t: nat)
    | Lookup(t: nat, ptr: Pointer)
    | Munmap(t: nat)
    | Destroy(t: nat)

  // What the program can do next, and what is assumed of the system: handles are
  // nonzero and distinct among the open ones, mmap returns unused nonzero addresses.
  predicate Enabled(s: State, a: Action) {
    && a.t < |s.threads|
    && var th := s.threads[a.t];
    match a
    case Create(_, h, _) => th.Idle? && h != 0 && h !in s.open
    case LocateOk(_) => th.Created?
    case MmapOk(_, ptr) => th.Located? && ptr != 0 && ptr !in s.mapped
    case CallFails(_) => th.Created? || th.Located?
    case Insert(_) => th.Mapped?
    case Lookup(_, ptr) => th.Idle? && ptr != 0
    case Munmap(_) => th.Erased?
    case Destroy(_) => th.Abandoned? || th.Unmapped?
  }

  function Move(s: State, t: nat, th: Thread): State
    requires t < |s.threads|
  {
    s.(threads := s.threads[t := th])
  }

  function Next(s: State, a: Action): State
    requires Enabled(s, a)
  {
    var t := a.t;
    var th := s.threads[t];
    match a
    case Create(_, h, size) => Move(s.(open := s.open + {h}), t, Created(h, size))
    case LocateOk(_) => Move(s, t, Located(th.h, th.size))
    case MmapOk(_, ptr) => Move(s.(mapped := s.mapped[ptr := th.size]), t, Mapped(th.h, th.size, ptr))
    case CallFails(_) => Move(s, t, Abandoned(th.h))
    case Insert(_) => Move(s.(table := s.table[th.ptr := Entry(th.size, th.h)]), t, Idle)
    case Lookup(_, ptr) =>
      if ptr !in s.table then s
      else
        var e := s.table[ptr];
        Move(s.(table := s.table - {ptr}), t, if e.handle != 0 then Erased(e.handle, e.size, ptr) else Idle)
    case Munmap(_) => Move(s.(mapped := s.mapped - {th.ptr}), t, Unmapped(th.h))
    case Destroy(_) => Move(s.(open := s.open - {th.h}), t, Idle)
  }

  // ----- Who is responsible for what -----

  datatype Holder = Alloc(t: nat) | Table(ptr: Pointer) | Free(t: nat)

  predicate Holds(s: State, who: Holder, h: Handle) {
    match who
    case Alloc(t) =>
      && t < |s.threads|
      && var th := s.threads[t];
      (th.Created? || th.Located? || th.Mapped? || th.Abandoned?) && th.h == h
    case Table(ptr) => ptr in s.table && s.table[ptr].handle == h
    case Free(t) =>
      && t < |s.threads|
      && var th := s.threads[t];
      (th.Erased? || th.Unmapped?) && th.h == h
  }

  // `who` answers for the mapping of `size` bytes at `ptr`.
  predicate Maps(s: State, who: Holder, ptr: Pointer, size: nat) {
    match who
    case Alloc(t) => t < |s.threads| && s.threads[t].Mapped? && s.threads[t].ptr == ptr && s.threads[t].size == size
    case Table(p) => p == ptr && ptr in s.table && s.table[ptr].size == size
    case Free(t) => t < |s.threads| && s.threads[t].Erased? && s.threads[t].ptr == ptr && s.threads[t].size == size
  }

  // Each open handle has exactly one holder, and only open handles are held.
  ghost predicate HandlesHeld(s: State) {
    && 0 !in s.open
    && (forall h | h in s.open :: exists who :: Holds(s, who, h))
    && (forall who, h | Holds(s, who, h) :: h in s.open)
    && (forall w1, w2, h | Holds(s, w1, h) && Holds(s, w2, h) :: w1 == w2)
  }

  // Whoever answers for a mapping does so alone and knows its length.
  ghost predicate MappingsHeld(s: State) {
    && (forall who, p, n | Maps(s, who, p, n) :: p in s.mapped && s.mapped[p] == n)
    && (forall w1, w2, p, n1, n2 | Maps(s, w1, p, n1) && Maps(s, w2, p, n2) :: w1 == w2)
  }

  ghost predicate Inv(s: State) {
    HandlesHeld(s) && MappingsHeld(s)
  }

  function Init(mapped: map<Pointer, nat>, threads: nat): State {
    State({}, mapped, map[], seq(threads, _ => Idle))
  }

  lemma StepKeepsInv(s: State, a: Action)
    requires Inv(s) && Enabled(s, a)
    ensures Inv(Next(s, a))
  {
    StepKeepsHandles(s, a);
    StepKeepsMappings(s, a);
  }

  lemma StepKeepsHandles(s: State, a: Action)
    requires Inv(s) && Enabled(s, a)
    ensures HandlesHeld(Next(s, a))
  {
    var s' := Next(s, a);
    var t := a.t;
    var th := s.threads[t];
    match a
    case Insert(_) =>
      InsertFindsNoEntry(s, t);
      assert Holds(s, Alloc(t), th.h);
      Handover(s, s', Alloc(t), Table(th.ptr), th.h);
    case Lookup(_, ptr) =>
      if ptr in s.table {
        assert Holds(s, Table(ptr), s.table[ptr].handle);
        Handover(s, s', Table(ptr), Free(t), s.table[ptr].handle);
      }
    case Munmap(_) =>
      assert Holds(s, Free(t), th.h);
      Handover(s, s', Free(t), Free(t), th.h);
    case Destroy(_) =>
      var who := if th.Abandoned? then Alloc(t) else Free(t);
      assert Holds(s, who, th.h);
      Dropped(s, s', who, th.h);
    case _ => AllocKeepsHandles(s, a);
  }

  // The steps of an alloc before its insert.
  lemma AllocKeepsHandles(s: State, a: Action)
    requires Inv(s) && Enabled(s, a) && (a.Create? || a.LocateOk? || a.MmapOk? || a.CallFails?)
    ensures HandlesHeld(Next(s, a))
  {
    var t := a.t;
    var h := if a.Create? then a.h else s.threads[t].h;
    assert !a.Create? ==> Holds(s, Alloc(t), h);
    Handover(s, Next(s, a), Alloc(t), Alloc(t), h);
  }

  lemma StepKeepsMappings(s: State, a: Action)
    requires Inv(s) && Enabled(s, a)
    ensures MappingsHeld(Next(s, a))
  {
    var s' := Next(s, a);
    var th := s.threads[a.t];
    match a
    case Insert(t) =>
      InsertFindsNoEntry(s, t);
      MapsFollow(s, s', Alloc(t), Table(th.ptr), th.ptr);
    case Lookup(t, ptr) =>
      if ptr in s.table {
        assert Holds(s, Table(ptr), s.table[ptr].handle);
        MapsFollow(s, s', Table(ptr), Free(t), ptr);
      }
    case Munmap(t) =>
      assert Maps(s, Free(t), th.ptr, th.size);
      assert forall who, p, n :: Maps(s', who, p, n) ==> Maps(s, who, p, n) && who != Free(t);
    case MmapOk(t, ptr) =>
      assert forall who, p, n :: Maps(s', who, p, n) ==>
        Maps(s, who, p, n) || (who == Alloc(t) && p == ptr && n == th.size);
    case Create(_, _, _) => assert forall who, p, n :: Maps(s', who, p, n) ==> Maps(s, who, p, n);
    case LocateOk(_) => assert forall who, p, n :: Maps(s', who, p, n) ==> Maps(s, who, p, n);
    case CallFails(_) => assert forall who, p, n :: Maps(s', who, p, n) ==> Maps(s, who, p, n);
    case Destroy(_) => assert forall who, p, n :: Maps(s', who, p, n) ==> Maps(s, who, p, n);
  }

  lemma MapsFollow(s: State, s': State, from: Holder, to: Holder, ptr: Pointer)
    requires MappingsHeld(s) && s'.mapped == s.mapped
    requires forall who, p, n :: Maps(s', who, p, n) ==>
      if who == to && p == ptr then Maps(s, from, p, n) else Maps(s, who, p, n) && who != from
    ensures MappingsHeld(s')
  {
  }

  // Handle h passes from one holder to the next (or is new), everything else is
  // held as before; so the handles stay partitioned.
  lemma Handover(s: State, s': State, from: Holder, to: Holder, h: Handle)
    requires Inv(s)
    requires h !in s.open || Holds(s, from, h)
    requires s'.open == s.open + {h}
    requires forall who, k :: Holds(s', who, k) <==>
      (who == to && k == h) || (Holds(s, who, k) && !(who == from && k == h))
    ensures forall k | k in s'.open :: exists who :: Holds(s', who, k)
    ensures forall who, k | Holds(s', who, k) :: k in s'.open
    ensures forall w1, w2, k | Holds(s', w1, k) && Holds(s', w2, k) :: w1 == w2
  {
    forall k | k in s'.open
      ensures exists who :: Holds(s', who, k)
    {
      if k == h {
        assert Holds(s', to, h);
      } else {
        var who :| Holds(s, who, k);
        assert Holds(s', who, k);
      }
    }
  }

  lemma Dropped(s: State, s': State, from: Holder, h: Handle)
    requires Inv(s) && Holds(s, from, h)
    requires s'.open == s.open - {h}
    requires forall who, k :: Holds(s', who, k) <==> Holds(s, who, k) && !(who == from && k == h)
    ensures forall k | k in s'.open :: exists who :: Holds(s', who, k)
    ensures forall who, k | Holds(s', who, k) :: k in s'.open
    ensures forall w1, w2, k | Holds(s', w1, k) && Holds(s', w2, k) :: w1 == w2
  {
    forall k | k in s'.open
      ensures exists who :: Holds(s', who, k)
    {
      var who :| Holds(s, who, k);
      assert Holds(s', who, k);
    }
  }

  // An insert never overwrites a live entry: the freshly mapped address cannot be
  // in the table, because entries leave the table before they are unmapped.
  lemma InsertFindsNoEntry(s: State, t: nat)
    requires Inv(s) && t < |s.threads| && s.threads[t].Mapped?
    ensures s.threads[t].ptr !in s.table
  {
    var ptr := s.threads[t].ptr;
    assert Maps(s, Alloc(t), ptr, s.threads[t].size);
    if ptr in s.table {
      assert Maps(s, Table(ptr), ptr, s.table[ptr].size);
    }
  }

  // A buffer is destroyed while it is open and by its one holder; afterwards no
  // one refers to it, so it is not destroyed again.
  lemma DestroyedOnce(s: State, t: nat)
    requires Inv(s) && Enabled(s, Destroy(t))
    ensures var h := s.threads[t].h;
            && h in s.open && h !in Next(s, Destroy(t)).open
            && forall who :: !Holds(Next(s, Destroy(t)), who, h)
  {
    StepKeepsInv(s, Destroy(t));
    assert Holds(s, Alloc(t), s.threads[t].h) || Holds(s, Free(t), s.threads[t].h);
  }

  // munmap is called on a live mapping, with the length it was mapped with.
  lemma UnmapMatchesMapping(s: State, t: nat)
    requires Inv(s) && Enabled(s, Munmap(t))
    ensures s.threads[t].ptr in s.mapped && s.mapped[s.threads[t].ptr] == s.threads[t].size
  {
    assert Maps(s, Free(t), s.threads[t].ptr, s.threads[t].size);
  }

  // When two threads free the same pointer, only the first one gets the buffer.
  lemma SecondFreeFindsNothing(s: State, t1: nat, t2: nat, ptr: Pointer)
    requires Inv(s) && t1 != t2 && ptr in s.table
    requires Enabled(s, Lookup(t1, ptr)) && Enabled(s, Lookup(t2, ptr))
    ensures var s1 := Next(s, Lookup(t1, ptr));
            && s1.threads[t1] == Erased(s.table[ptr].handle, s.table[ptr].size, ptr)
            && Enabled(s1, Lookup(t2, ptr)) && Next(s1, Lookup(t2, ptr)) == s1
  {
    assert Holds(s, Table(ptr), s.table[ptr].handle);
  }

  // ----- No mapping is lost -----

  // The mappings of the process are the foreign ones, which are there before, and
  // those that somebody answers for.
  ghost predicate Covered(s: State, foreign: set<Pointer>) {
    && foreign <= s.mapped.Keys
    && (forall who, p, n | Maps(s, who, p, n) :: p !in foreign)
    && (forall p | p in s.mapped && p !in foreign :: exists who, n :: Maps(s, who, p, n))
  }

  lemma StepKeepsCovered(s: State, a: Action, foreign: set<Pointer>)
    requires Inv(s) && Covered(s, foreign) && Enabled(s, a)
    ensures Covered(Next(s, a), foreign)
  {
    var s', t := Next(s, a), a.t;
    var th := s.threads[t];
    match a
    case MmapOk(_, ptr) => Covers(s, s', Alloc(t), Alloc(t), ptr, th.size, foreign);
    case Insert(_) =>
      InsertFindsNoEntry(s, t);
      assert Maps(s, Alloc(t), th.ptr, th.size);
      Covers(s, s', Alloc(t), Table(th.ptr), th.ptr, th.size, foreign);
    case Lookup(_, ptr) =>
      if ptr in s.table {
        assert Holds(s, Table(ptr), s.table[ptr].handle);
        assert Maps(s, Table(ptr), ptr, s.table[ptr].size);
        Covers(s, s', Table(ptr), Free(t), ptr, s.table[ptr].size, foreign);
      }
    case Munmap(_) => UnmapKeepsCovered(s, t, foreign);
    case _ => OthersKeepCovered(s, a, foreign);
  }

  // The mapping at `ptr` is taken over, or made; everyone else answers as before.
  lemma Covers(s: State, s': State, from: Holder, to: Holder, ptr: Pointer, size: nat, foreign: set<Pointer>)
    requires Covered(s, foreign) && ptr !in foreign && s'.mapped.Keys == s.mapped.Keys + {ptr}
    requires Maps(s', to, ptr, size)
    requires forall who, p, n :: Maps(s', who, p, n) ==> p == ptr || Maps(s, who, p, n)
    requires forall who, p, n :: Maps(s, who, p, n) && p != ptr ==> Maps(s', who, p, n)
    ensures Covered(s', foreign)
  {
    forall p | p in s'.mapped && p !in foreign ensures exists who, n :: Maps(s', who, p, n) {
      if p != ptr {
        var who, n :| Maps(s, who, p, n);
        assert Maps(s', who, p, n);
      }
    }
  }

  lemma UnmapKeepsCovered(s: State, t: nat, foreign: set<Pointer>)
    requires Inv(s) && Covered(s, foreign) && Enabled(s, Munmap(t))
    ensures Covered(Next(s, Munmap(t)), foreign)
  {
    var s', th := Next(s, Munmap(t)), s.threads[t];
    assert Maps(s, Free(t), th.ptr, th.size);
    assert forall who, p, n :: Maps(s', who, p, n) ==> Maps(s, who, p, n);
    forall p | p in s'.mapped && p !in foreign ensures exists who, n :: Maps(s', who, p, n) {
      var who, n :| Maps(s, who, p, n);
      assert who != Free(t);
      assert Maps(s', who, p, n);
    }
  }

  lemma OthersKeepCovered(s: State, a: Action, foreign: set<Pointer>)
    requires Inv(s) && Covered(s, foreign) && Enabled(s, a)
    requires a.Create? || a.LocateOk? || a.CallFails? || a.Destroy?
    ensures Covered(Next(s, a), foreign)
  {
    var s' := Next(s, a);
    assert forall who, p, n :: Maps(s', who, p, n) <==> Maps(s, who, p, n);
  }

  // ----- Whole runs -----

  ghost predicate IsRun(mapped: map<Pointer, nat>, threads: nat, actions: seq<Action>, ss: seq<State>) {
    && |ss| == |actions| + 1 && ss[0] == Init(mapped, threads)
    && forall i | 0 <= i < |actions| :: Enabled(ss[i], actions[i]) && ss[i + 1] == Next(ss[i], actions[i])
  }

  // In every state of every run each open handle has exactly one holder; once all
  // calls have returned, the open handles are exactly those of the table.
  lemma {:induction false} RunKeepsInv(mapped: map<Pointer, nat>, threads: nat, actions: seq<Action>, ss: seq<State>)
    requires IsRun(mapped, threads, actions, ss)
    ensures forall i | 0 <= i < |ss| :: Inv(ss[i])
  {
    var m := |actions|;
    if m > 0 {
      RunKeepsInv(mapped, threads, actions[..m - 1], ss[..m]);
      assert Inv(ss[..m][m - 1]);
      StepKeepsInv(ss[m - 1], actions[m - 1]);
      forall i | 0 <= i < |ss| ensures Inv(ss[i]) {
        if i < m { assert ss[i] == ss[..m][i]; }
      }
    }
  }

  // An alloc that ends leaves its buffer in the table, open and mapped. It stays so, whatever
  // the threads do, until a free looks its address up.
  lemma {:induction false} EntryStays(mapped: map<Pointer, nat>, threads: nat, actions: seq<Action>, ss: seq<State>,
        t: nat, i: nat, k: nat)
    requires IsRun(mapped, threads, actions, ss) && i < k <= |actions| && actions[i] == Insert(t)
    requires forall j | i < j < k && actions[j].Lookup? :: actions[j].ptr != ss[i].threads[t].ptr
    ensures ss[i].threads[t].Mapped? && ss[i + 1].threads[t].Idle?
    ensures var Mapped(h, size, ptr) := ss[i].threads[t];
      && ptr in ss[k].table && ss[k].table[ptr] == Entry(size, h)
      && h in ss[k].open && ptr in ss[k].mapped && ss[k].mapped[ptr] == size
  {
    RunKeepsInv(mapped, threads, actions, ss);
    var Mapped(h, size, ptr) := ss[i].threads[t];
    assert ss[i + 1] == Next(ss[i], actions[i]);
    if k > i + 1 {
      EntryStays(mapped, threads, actions, ss, t, i, k - 1);
      EntryKept(ss[k - 1], actions[k - 1], ptr);
      assert ss[k] == Next(ss[k - 1], actions[k - 1]);
    }
    assert Holds(ss[k], Table(ptr), h);
    assert Maps(ss[k], Table(ptr), ptr, size);
  }

  lemma EntryKept(s: State, a: Action, ptr: Pointer)
    requires Inv(s) && Enabled(s, a) && ptr in s.table && (a.Lookup? ==> a.ptr != ptr)
    ensures ptr in Next(s, a).table && Next(s, a).table[ptr] == s.table[ptr]
  {
    if a.Insert? { InsertFindsNoEntry(s, a.t); }
  }

  // What an alloc that nobody disturbs makes of a state.
  function Allocated(s: State, h: Handle, size: nat, ptr: Pointer): State {
    s.(open := s.open + {h}, mapped := s.mapped[ptr := size], table := s.table[ptr := Entry(size, h)])
  }

  lemma AllocAdds(s: State, t: nat, h: Handle, size: nat, ptr: Pointer)
    requires Enabled(s, Create(t, h, size)) && ptr != 0 && ptr !in s.mapped
    ensures var s1 := Next(s, Create(t, h, size));
      && Enabled(s1, LocateOk(t))
      && var s2 := Next(s1, LocateOk(t));
      && Enabled(s2, MmapOk(t, ptr))
      && var s3 := Next(s2, MmapOk(t, ptr));
      && Enabled(s3, Insert(t)) && Next(s3, Insert(t)) == Allocated(s, h, size, ptr)
  {
    assert s.threads[t := Idle] == s.threads;
  }

  // Freeing the buffer leaves everything as it was before.
  lemma FreeUndoes(s: State, t: nat, h: Handle, size: nat, ptr: Pointer)
    requires Inv(s) && Enabled(s, Create(t, h, size)) && ptr != 0 && ptr !in s.mapped
    ensures var s4 := Allocated(s, h, size, ptr);
      && Enabled(s4, Lookup(t, ptr))
      && var s5 := Next(s4, Lookup(t, ptr));
      && Enabled(s5, Munmap(t))
      && var s6 := Next(s5, Munmap(t));
      && Enabled(s6, Destroy(t)) && Next(s6, Destroy(t)) == s
  {
    if ptr in s.table { assert Maps(s, Table(ptr), ptr, s.table[ptr].size); }
    assert s.threads[t := Idle] == s.threads;
    assert s.open + {h} - {h} == s.open;
    assert s.mapped[ptr := size] - {ptr} == s.mapped;
    assert s.table[ptr := Entry(size, h)] - {ptr} == s.table;
  }

  // So does an alloc that fails to find the map offset or to map the buffer.
  lemma FailedAllocUndoes(s: State, t: nat, h: Handle, size: nat)
    requires Enabled(s, Create(t, h, size))
    ensures var s1 := Next(s, Create(t, h, size));
      && Enabled(s1, CallFails(t)) && Enabled(s1, LocateOk(t))
      && var f1, s2 := Next(s1, CallFails(t)), Next(s1, LocateOk(t));
      && Enabled(f1, Destroy(t)) && Next(f1, Destroy(t)) == s
      && Enabled(s2, CallFails(t))
      && var f2 := Next(s2, CallFails(t));
      && Enabled(f2, Destroy(t)) && Next(f2, Destroy(t)) == s
  {
    assert s.threads[t := Idle] == s.threads;
    assert s.open + {h} - {h} == s.open;
  }

  lemma NothingLeaksAtRest(s: State)
    requires Inv(s) && forall t | 0 <= t < |s.threads| :: s.threads[t].Idle?
    ensures forall h :: h in s.open <==> exists ptr | ptr in s.table :: s.table[ptr].handle == h
  {
    forall h | h in s.open
      ensures exists ptr | ptr in s.table :: s.table[ptr].handle == h
    {
      var who :| Holds(s, who, h);
      assert who.Table? && who.ptr in s.table;
    }
    forall ptr | ptr in s.table
      ensures s.table[ptr].handle in s.open
    {
      assert Holds(s, Table(ptr), s.table[ptr].handle);
    }
  }

  lemma {:induction false} RunKeepsCovered(mapped: map<Pointer, nat>, threads: nat, actions: seq<Action>,
        ss: seq<State>)
    requires IsRun(mapped, threads, actions, ss)
    ensures forall i | 0 <= i < |ss| :: Covered(ss[i], mapped.Keys)
  {
    RunKeepsInv(mapped, threads, actions, ss);
    var m := |actions|;
    if m > 0 {
      RunKeepsCovered(mapped, threads, actions[..m - 1], ss[..m]);
      assert Covered(ss[..m][m - 1], mapped.Keys);
      StepKeepsCovered(ss[m - 1], actions[m - 1], mapped.Keys);
      forall i | 0 <= i < |ss| ensures Covered(ss[i], mapped.Keys) {
        if i < m { assert ss[i] == ss[..m][i]; }
      }
    }
  }

  // Once all calls have returned, the process has the mappings it had before and
  // those of the table.
  lemma NoMappingLeaksAtRest(s: State, foreign: set<Pointer>)
    requires Covered(s, foreign) && Inv(s) && forall t | 0 <= t < |s.threads| :: s.threads[t].Idle?
    ensures s.mapped.Keys == foreign + s.table.Keys && foreign !! s.table.Keys
  {
    forall p ensures p in s.table ==> p in s.mapped && p !in foreign {
      if p in s.table {
        assert Maps(s, Table(p), p, s.table[p].size);
      }
    }
    forall p | p in s.mapped && p !in foreign ensures p in s.table {
      var who, n :| Maps(s, who, p, n);
      assert who.Table?;
    }
  }
}
