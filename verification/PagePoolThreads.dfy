// The page allocator of src/mem/mem_pool.cc under any number of threads. One step
// is one atomic operation on one page flag, or a purely local step of one thread.
module PagePoolThreads {
  import opened Wrappers
  import PagePool

  // Where a thread stands in kbx_mem_cpu_alloc.
  datatype Thread =
    | Idle
      // about to test-and-set page j, or to give up when there is no page j
    | Scan(need: nat, j: nat, start: nat, found: nat)
      // page j was taken: about to clear page k of the run that ends before j
    | Rollback(need: nat, j: nat, start: nat, found: nat, k: nat)

  // `live` maps the first page of each allocation to its page count. `stranded`
  // pages are set although nobody owns them any more.
  datatype State = State(flags: seq<bool>, threads: seq<Thread>, live: map<nat, nat>, stranded: set<nat>)

  datatype Action =
    | Begin(t: nat, size: nat)
    | Tick(t: nat)
    | Free(t: nat, page: nat)

  function Init(pages: nat, threads: nat): State {
    State(seq(pages, _ => false), seq(threads, _ => Idle), map[], {})
  }

  // The caller's side of the contract: free what is allocated, once.
  predicate Enabled(s: State, a: Action) {
    && a.t < |s.threads|
    && match a
       case Begin(t, _) => s.threads[t].Idle?
       case Tick(t) => !s.threads[t].Idle?
       case Free(t, page) => s.threads[t].Idle? && page in s.live && page < |s.flags|
  }

  function Pages(a: nat, n: nat): (r: set<nat>)
    ensures forall p: nat :: p in r <==> a <= p < a + n
  {
    PagePool.Pages(a, a + n)
  }

  function Next(s: State, a: Action): State
    requires Enabled(s, a)
  {
    match a
    case Begin(t, size) => s.(threads := s.threads[t := Scan(PagePool.PagesFor(size), 0, 0, 0)])
    case Tick(t) =>
      (match s.threads[t]
       case Idle => s
       case Scan(need, j, start, found) => ScanStep(s, t, need, j, start, found)
       case Rollback(need, j, start, found, k) =>
         s.(flags := Write(s.flags, k, false),
            threads := s.threads[t := if k + 1 < start + found
                                      then Rollback(need, j, start, found, k + 1)
                                      else Scan(need, j + 1, start, 0)]))
    case Free(t, page) =>
      s.(flags := s.flags[page := false],
         live := s.live - {page},
         stranded := s.stranded + (Pages(page, s.live[page]) - {page}))
  }

  function Write(flags: seq<bool>, k: nat, b: bool): seq<bool> {
    if k < |flags| then flags[k := b] else flags
  }

  function ScanStep(s: State, t: nat, need: nat, j: nat, start: nat, found: nat): State
    requires t < |s.threads|
  {
    if j >= |s.flags| then
      // the scan failed: NULL is returned and the run held so far is left behind
      s.(threads := s.threads[t := Idle], stranded := s.stranded + Pages(start, found))
    else if s.flags[j] then
      s.(threads := s.threads[t := if found > 0 then Rollback(need, j, start, found, start)
                                   else Scan(need, j + 1, start, 0)])
    else
      var first := if found == 0 then j else start;
      var taken := s.(flags := s.flags[j := true]);
      if found + 1 == need then
        taken.(threads := s.threads[t := Idle], live := s.live[first := need])
      else
        taken.(threads := s.threads[t := Scan(need, j + 1, first, found + 1)])
  }

  // ----- Ownership -----

  datatype Owner = Live(start: nat) | Claim(t: nat) | Stranded

  predicate Holds(th: Thread, p: nat) {
    match th
    case Idle => false
    case Scan(_, _, start, found) => start <= p < start + found
    case Rollback(_, _, start, found, k) => k <= p < start + found
  }

  predicate Owns(s: State, o: Owner, p: nat) {
    match o
    case Live(a) => a in s.live && a <= p < a + s.live[a]
    case Claim(t) => t < |s.threads| && Holds(s.threads[t], p)
    case Stranded => p in s.stranded
  }

  predicate InPlace(th: Thread, pages: nat) {
    match th
    case Idle => true
    case Scan(need, j, start, found) =>
      j <= pages && (found > 0 ==> start + found == j) && (need > 0 ==> found < need)
    case Rollback(need, j, start, found, k) =>
      j < pages && start <= k < start + found == j && (need > 0 ==> found < need)
  }

  // The set pages are the disjoint union of live allocations, in-flight claims
  // and stranded pages.
  ghost predicate Partitioned(s: State) {
    && (forall o, p: nat | Owns(s, o, p) :: p < |s.flags| && s.flags[p])
    && (forall p: nat | p < |s.flags| && s.flags[p] :: exists o :: Owns(s, o, p))
    && (forall o1, o2, p: nat | Owns(s, o1, p) && Owns(s, o2, p) :: o1 == o2)
  }

  ghost predicate Inv(s: State) {
    && Partitioned(s)
    && (forall a | a in s.live :: s.live[a] > 0)
    && (forall t | 0 <= t < |s.threads| :: InPlace(s.threads[t], |s.flags|))
  }

  // A step that lets `to` have the pages `moved`, which were owned by `from`, and
  // the free pages `taken`, while `from` gives up the pages `dropped`, keeps the
  // partition when the flags follow.
  lemma Transfer(s: State, s': State, from: Owner, to: Owner, moved: set<nat>, taken: set<nat>, dropped: set<nat>)
    requires Partitioned(s)
    requires forall p | p in taken :: p < |s.flags| && !s.flags[p]
    requires forall p | p in moved :: Owns(s, from, p) && p !in dropped
    requires forall p | p in dropped :: Owns(s, from, p)
    requires |s'.flags| == |s.flags|
    requires forall p: nat | p < |s.flags| :: s'.flags[p] == ((s.flags[p] || p in taken) && p !in dropped)
    requires forall o, p: nat :: Owns(s', o, p) <==>
      || (o == to && (p in taken || p in moved))
      || (Owns(s, o, p) && !(o == from && (p in dropped || p in moved)))
    ensures Partitioned(s')
  {
    forall p: nat | p < |s'.flags| && s'.flags[p]
      ensures exists o :: Owns(s', o, p)
    {
      if p in taken || p in moved {
        assert Owns(s', to, p);
      } else {
        var o :| Owns(s, o, p);
        assert Owns(s', o, p);
      }
    }
  }

  lemma StepKeepsInv(s: State, a: Action)
    requires Inv(s) && Enabled(s, a)
    ensures Inv(Next(s, a))
  {
    match a
    case Begin(t, size) => BeginKeepsInv(s, t, size);
    case Free(t, page) => FreeKeepsInv(s, t, page);
    case Tick(t) =>
      match s.threads[t] {
        case Idle =>
        case Rollback(_, _, _, _, _) => RollbackKeepsInv(s, t);
        case Scan(_, _, _, _) => ScanKeepsInv(s, t);
      }
  }

  lemma BeginKeepsInv(s: State, t: nat, size: nat)
    requires Inv(s) && Enabled(s, Begin(t, size))
    ensures Inv(Next(s, Begin(t, size)))
  {
    Transfer(s, Next(s, Begin(t, size)), Claim(t), Claim(t), {}, {}, {});
  }

  lemma FreeKeepsInv(s: State, t: nat, page: nat)
    requires Inv(s) && Enabled(s, Free(t, page))
    ensures Inv(Next(s, Free(t, page)))
  {
    Transfer(s, Next(s, Free(t, page)), Live(page), Stranded, (Pages(page, s.live[page]) - {page}), {}, {page});
  }

  lemma RollbackKeepsInv(s: State, t: nat)
    requires Inv(s) && Enabled(s, Tick(t)) && s.threads[t].Rollback?
    ensures Inv(Next(s, Tick(t)))
  {
    var k := s.threads[t].k;
    assert Owns(s, Claim(t), k);
    Transfer(s, Next(s, Tick(t)), Claim(t), Claim(t), {}, {}, {k});
  }

  lemma ScanKeepsInv(s: State, t: nat)
    requires Inv(s) && Enabled(s, Tick(t)) && s.threads[t].Scan?
    ensures Inv(Next(s, Tick(t)))
  {
    var s' := Next(s, Tick(t));
    var Scan(need, j, start, found) := s.threads[t];
    if j >= |s.flags| {
      GivingUpKeepsPartition(s, t);
    } else if s.flags[j] {
      Transfer(s, s', Claim(t), Claim(t), {}, {}, {});
    } else if found + 1 == need {
      SuccessKeepsPartition(s, t);
    } else {
      ClaimKeepsPartition(s, t);
    }
  }

  lemma GivingUpKeepsPartition(s: State, t: nat)
    requires Inv(s) && Enabled(s, Tick(t)) && s.threads[t].Scan? && s.threads[t].j >= |s.flags|
    ensures Partitioned(Next(s, Tick(t)))
  {
    var Scan(_, _, start, found) := s.threads[t];
    Transfer(s, Next(s, Tick(t)), Claim(t), Stranded, Pages(start, found), {}, {});
  }

  lemma ClaimKeepsPartition(s: State, t: nat)
    requires Inv(s) && Enabled(s, Tick(t)) && s.threads[t].Scan?
    requires var Scan(need, j, _, found) := s.threads[t]; j < |s.flags| && !s.flags[j] && found + 1 != need
    ensures Partitioned(Next(s, Tick(t)))
  {
    Transfer(s, Next(s, Tick(t)), Claim(t), Claim(t), {}, {s.threads[t].j}, {});
  }

  lemma SuccessKeepsPartition(s: State, t: nat)
    requires Inv(s) && Enabled(s, Tick(t)) && s.threads[t].Scan?
    requires var Scan(need, j, _, found) := s.threads[t]; j < |s.flags| && !s.flags[j] && found + 1 == need
    ensures Partitioned(Next(s, Tick(t)))
  {
    var s' := Next(s, Tick(t));
    var Scan(need, j, start, found) := s.threads[t];
    var first := if found == 0 then j else start;
    NewlyLive(s, t);
    forall o, p: nat
      ensures Owns(s', o, p) <==>
        || (o == Live(first) && (p in {j} || p in Pages(start, found)))
        || (Owns(s, o, p) && !(o == Claim(t) && (p in {} || p in Pages(start, found))))
    {
      OwnsAfterSuccess(s, t, o, p);
    }
    hide Owns;
    Transfer(s, s', Claim(t), Live(first), Pages(start, found), {j}, {});
  }

  // The first page of a claim starts no allocation yet.
  lemma NewlyLive(s: State, t: nat)
    requires Inv(s) && Enabled(s, Tick(t)) && s.threads[t].Scan?
    requires var Scan(need, j, _, found) := s.threads[t]; j < |s.flags| && !s.flags[j]
    ensures var Scan(_, j, start, found) := s.threads[t]; (if found == 0 then j else start) !in s.live
  {
    var Scan(_, j, start, found) := s.threads[t];
    var first := if found == 0 then j else start;
    if first in s.live {
      assert Owns(s, Live(first), first);
      if found > 0 {
        assert Owns(s, Claim(t), first);
      }
    }
  }

  lemma OwnsAfterSuccess(s: State, t: nat, o: Owner, p: nat)
    requires Inv(s) && Enabled(s, Tick(t)) && s.threads[t].Scan?
    requires var Scan(need, j, start, found) := s.threads[t];
      j < |s.flags| && !s.flags[j] && found + 1 == need && (if found == 0 then j else start) !in s.live
    ensures var Scan(need, j, start, found) := s.threads[t];
      Owns(Next(s, Tick(t)), o, p) <==>
        || (o == Live(if found == 0 then j else start) && (p == j || p in Pages(start, found)))
        || (Owns(s, o, p) && !(o == Claim(t) && p in Pages(start, found)))
  {
    hide Partitioned;
    var s' := Next(s, Tick(t));
    assert InPlace(s.threads[t], |s.flags|);
    assert s'.threads == s.threads[t := Idle] && s'.stranded == s.stranded;
  }

  // A release gives back one page, the first of the allocation. Nobody owns that page
  // afterwards; the rest of the allocation is stranded, and that is all that changes.
  lemma FreeReturnsPage(s: State, t: nat, page: nat)
    requires Inv(s) && Enabled(s, Free(t, page))
    ensures var s', n := Next(s, Free(t, page)), s.live[page];
      && s.flags[page] && s'.flags == s.flags[page := false] && s'.threads == s.threads
      && (forall used: nat, peak: nat ::
            s'.flags == PagePool.FreeSpec(PagePool.Pool(s.flags, used, peak), page).flags)
      && (forall a :: a in s'.live <==> a in s.live && a != page)
      && (forall a | a in s'.live :: s'.live[a] == s.live[a])
      && (forall o :: !Owns(s', o, page))
      && (forall o, p: nat | p != page :: Owns(s', o, p) <==>
            if Owns(s, Live(page), p) then o == Stranded else Owns(s, o, p))
  {
    var s' := Next(s, Free(t, page));
    assert Owns(s, Live(page), page);
    forall o ensures !Owns(s', o, page) {
      if Owns(s, o, page) { assert o == Live(page); }
      assert Owns(s', o, page) ==> Owns(s, o, page);
    }
    forall o, p: nat | p != page
      ensures Owns(s', o, p) <==> if Owns(s, Live(page), p) then o == Stranded else Owns(s, o, p)
    {
      if Owns(s, Live(page), p) && Owns(s, o, p) { assert o == Live(page); }
      match o case Live(_) => case Claim(_) => case Stranded =>
    }
  }

  // ----- Whole runs -----

  ghost predicate IsRun(pages: nat, threads: nat, actions: seq<Action>, ss: seq<State>) {
    && |ss| == |actions| + 1 && ss[0] == Init(pages, threads)
    && forall i | 0 <= i < |actions| :: Enabled(ss[i], actions[i]) && ss[i + 1] == Next(ss[i], actions[i])
  }

  // For any number of threads and any interleaving, the partition holds in every state.
  lemma {:induction false} RunKeepsInv(pages: nat, threads: nat, actions: seq<Action>, ss: seq<State>)
    requires IsRun(pages, threads, actions, ss)
    ensures forall i | 0 <= i < |ss| :: Inv(ss[i])
  {
    var m := |actions|;
    if m > 0 {
      RunKeepsInv(pages, threads, actions[..m - 1], ss[..m]);
      assert Inv(ss[..m][m - 1]);
      StepKeepsInv(ss[m - 1], actions[m - 1]);
      forall i | 0 <= i < |ss| ensures Inv(ss[i]) {
        if i < m { assert ss[i] == ss[..m][i]; }
      }
    }
  }

  // A page left behind by a failed scan or by the release of a longer allocation
  // is set in every later state: nothing ever gives it back.
  lemma {:induction false} StrandedForever(pages: nat, threads: nat, actions: seq<Action>, ss: seq<State>,
        i: nat, k: nat, p: nat)
    requires IsRun(pages, threads, actions, ss) && i <= k < |ss| && p in ss[i].stranded
    ensures p in ss[k].stranded && p < |ss[k].flags| && ss[k].flags[p]
    decreases k - i
  {
    RunKeepsInv(pages, threads, actions, ss);
    if i == k {
      assert Owns(ss[k], Stranded, p);
    } else {
      assert p in Next(ss[i], actions[i]).stranded;
      StrandedForever(pages, threads, actions, ss, i + 1, k, p);
    }
  }

  // Rollback clears one page, which the thread itself and nobody else holds.
  lemma RollbackClearsOwnPage(s: State, t: nat)
    requires Inv(s) && t < |s.threads| && s.threads[t].Rollback?
    ensures var k := s.threads[t].k;
            && k < |s.flags| && Next(s, Tick(t)).flags == s.flags[k := false]
            && forall o :: Owns(s, o, k) <==> o == Claim(t)
  {
    assert Owns(s, Claim(t), s.threads[t].k);
  }

  // A successful scan hands out pages that no one else owned or will share, and
  // leaves every other allocation as it was.
  lemma SuccessIsExclusive(s: State, t: nat, a: nat)
    requires Inv(s) && Enabled(s, Tick(t))
    requires a in Next(s, Tick(t)).live && a !in s.live
    ensures var s' := Next(s, Tick(t));
            && s'.live == s.live[a := s.threads[t].need] && s'.live[a] > 0
            && forall p | p in Pages(a, s'.live[a]) ::
                 && (forall o :: Owns(s, o, p) ==> o == Claim(t))
                 && (forall o :: Owns(s', o, p) <==> o == Live(a))
  {
    StepKeepsInv(s, Tick(t));
    var s' := Next(s, Tick(t));
    var Scan(need, j, start, found) := s.threads[t];
    forall p | p in Pages(a, s'.live[a])
      ensures forall o :: Owns(s, o, p) ==> o == Claim(t)
      ensures forall o :: Owns(s', o, p) <==> o == Live(a)
    {
      assert Owns(s', Live(a), p);
      if p == j {
        assert !s.flags[p];
      } else {
        assert Owns(s, Claim(t), p);
      }
    }
  }

  // ----- Why a call gives up -----

  predicate Busy(s: State, t: nat) {
    t < |s.threads| && !s.threads[t].Idle?
  }

  // The step is a test-and-set of thread t that finds page p taken.
  predicate FindsTaken(s: State, a: Action, t: nat, p: nat) {
    && a == Tick(t) && Busy(s, t) && s.threads[t].Scan?
    && s.threads[t].j == p < |s.flags| && s.flags[p]
  }

  // Between the steps lo and hi thread t has found page p taken.
  ghost predicate Seen(actions: seq<Action>, ss: seq<State>, t: nat, lo: nat, hi: nat, p: nat)
    requires hi <= |actions| < |ss|
  {
    exists x: nat :: lo < x < hi && FindsTaken(ss[x], actions[x], t, p)
  }

  // It has found a page of the run of `need` pages from a on taken.
  ghost predicate NoRoom(actions: seq<Action>, ss: seq<State>, t: nat, lo: nat, hi: nat, a: nat, need: nat)
    requires hi <= |actions| < |ss|
  {
    exists p: nat :: a <= p < a + need && Seen(actions, ss, t, lo, hi, p)
  }

  ghost predicate NoneFits(actions: seq<Action>, ss: seq<State>, t: nat, lo: nat, hi: nat, need: nat, end: nat)
    requires hi <= |actions| < |ss|
  {
    forall a: nat | a + need <= end :: NoRoom(actions, ss, t, lo, hi, a, need)
  }

  // What thread t knows in mid-call: no run behind page j has room, and the page in front
  // of the stretch it holds, or page j when it gives that back, was found taken.
  ghost predicate Explored(actions: seq<Action>, ss: seq<State>, t: nat, lo: nat, hi: nat, need: nat)
    requires hi <= |actions| < |ss|
  {
    && Busy(ss[hi], t) && ss[hi].threads[t].need == need > 0
    && NoneFits(actions, ss, t, lo, hi, need, ss[hi].threads[t].j)
    && match ss[hi].threads[t]
       case Scan(_, j, _, found) =>
         found <= j && found < need && (found < j ==> Seen(actions, ss, t, lo, hi, j - found - 1))
       case Rollback(_, j, _, _, _) => Seen(actions, ss, t, lo, hi, j)
  }

  lemma SeenLater(actions: seq<Action>, ss: seq<State>, t: nat, lo: nat, hi: nat, p: nat)
    requires hi < |actions| < |ss| && Seen(actions, ss, t, lo, hi, p)
    ensures Seen(actions, ss, t, lo, hi + 1, p)
  {
    hide FindsTaken;
  }

  lemma NoneFitsLater(actions: seq<Action>, ss: seq<State>, t: nat, lo: nat, hi: nat, need: nat, end: nat)
    requires hi < |actions| < |ss| && NoneFits(actions, ss, t, lo, hi, need, end)
    ensures NoneFits(actions, ss, t, lo, hi + 1, need, end)
  {
    hide Seen;
    var next := hi + 1;
    forall a: nat | a + need <= end ensures NoRoom(actions, ss, t, lo, next, a, need) {
      assert NoRoom(actions, ss, t, lo, hi, a, need);
      var p: nat :| a <= p < a + need && Seen(actions, ss, t, lo, hi, p);
      SeenLater(actions, ss, t, lo, hi, p);
    }
  }

  // One more page is behind when a page near enough was found taken.
  lemma OneMorePage(actions: seq<Action>, ss: seq<State>, t: nat, lo: nat, hi: nat, need: nat, j: nat, p: nat)
    requires hi <= |actions| < |ss|
    requires NoneFits(actions, ss, t, lo, hi, need, j)
    requires j + 1 < need || (j + 1 - need <= p <= j && need > 0 && Seen(actions, ss, t, lo, hi, p))
    ensures NoneFits(actions, ss, t, lo, hi, need, j + 1)
  {
    hide Seen;
    forall a: nat | a + need <= j + 1 ensures NoRoom(actions, ss, t, lo, hi, a, need) {
      if a + need == j + 1 { assert a <= p < a + need; }
    }
  }

  lemma ExploredStep(actions: seq<Action>, ss: seq<State>, t: nat, lo: nat, x: nat, need: nat)
    requires x < |actions| < |ss| && lo < x
    requires Enabled(ss[x], actions[x]) && ss[x + 1] == Next(ss[x], actions[x])
    requires Explored(actions, ss, t, lo, x, need) && Busy(ss[x + 1], t)
    ensures Explored(actions, ss, t, lo, x + 1, need)
  {
    hide NoneFits, Seen;
    var th, th' := ss[x].threads[t], ss[x + 1].threads[t];
    NoneFitsLater(actions, ss, t, lo, x, need, th.j);
    match th {
      case Rollback(_, j, _, _, _) =>
        SeenLater(actions, ss, t, lo, x, j);
        if th'.Scan? { OneMorePage(actions, ss, t, lo, x + 1, need, j, j); }
      case Scan(_, j, _, found) =>
        if found < j { SeenLater(actions, ss, t, lo, x, j - found - 1); }
        if actions[x].t == t { TestAndSet(actions, ss, t, lo, x, need); }
    }
  }

  lemma TestAndSet(actions: seq<Action>, ss: seq<State>, t: nat, lo: nat, x: nat, need: nat)
    requires x < |actions| < |ss| && lo < x
    requires Busy(ss[x], t) && ss[x].threads[t].Scan? && actions[x] == Tick(t) && ss[x + 1] == Next(ss[x], Tick(t))
    requires Busy(ss[x + 1], t)
    requires ss[x].threads[t].need == need
    requires NoneFits(actions, ss, t, lo, x + 1, need, ss[x].threads[t].j)
    requires var Scan(_, j, _, found) := ss[x].threads[t];
      found <= j && found < need && (found < j ==> Seen(actions, ss, t, lo, x + 1, j - found - 1))
    ensures Explored(actions, ss, t, lo, x + 1, need)
  {
    hide NoneFits, Seen;
    var Scan(_, j, _, found) := ss[x].threads[t];
    if ss[x].flags[j] {
      SeenNow(actions, ss, t, lo, x, j);
      OneMorePage(actions, ss, t, lo, x + 1, need, j, j);
    } else {
      OneMorePage(actions, ss, t, lo, x + 1, need, j, if found < j then j - found - 1 else 0);
    }
  }

  lemma SeenNow(actions: seq<Action>, ss: seq<State>, t: nat, lo: nat, x: nat, p: nat)
    requires lo < x < |actions| < |ss| && FindsTaken(ss[x], actions[x], t, p)
    ensures Seen(actions, ss, t, lo, x + 1, p)
  {
    hide FindsTaken;
  }

  lemma {:induction false} ExploredSoFar(pages: nat, threads: nat, actions: seq<Action>, ss: seq<State>,
        t: nat, size: nat, lo: nat, x: nat)
    requires IsRun(pages, threads, actions, ss)
    requires lo < x <= |actions| && actions[lo] == Begin(t, size) && size > 0
    requires forall y | lo < y <= x :: Busy(ss[y], t)
    ensures Explored(actions, ss, t, lo, x, PagePool.PagesFor(size))
    decreases x
  {
    hide Explored, Next;
    if x == lo + 1 {
      ExploredAtFirst(actions, ss, t, size, lo);
    } else {
      ExploredSoFar(pages, threads, actions, ss, t, size, lo, x - 1);
      ExploredStep(actions, ss, t, lo, x - 1, PagePool.PagesFor(size));
    }
  }

  lemma ExploredAtFirst(actions: seq<Action>, ss: seq<State>, t: nat, size: nat, lo: nat)
    requires lo < |actions| < |ss| && actions[lo] == Begin(t, size) && size > 0
    requires Enabled(ss[lo], actions[lo]) && ss[lo + 1] == Next(ss[lo], actions[lo])
    ensures Explored(actions, ss, t, lo, lo + 1, PagePool.PagesFor(size))
  {
  }

  // When a call gives up then, for every run of as many pages as it needs, its own
  // test-and-set found a page of the run taken in the course of the call.
  lemma NullMeansTaken(pages: nat, threads: nat, actions: seq<Action>, ss: seq<State>,
        t: nat, size: nat, lo: nat, k: nat, a: nat)
    requires IsRun(pages, threads, actions, ss)
    requires lo < k < |actions| && actions[lo] == Begin(t, size) && size > 0
    requires forall y | lo < y <= k :: Busy(ss[y], t)
    requires actions[k] == Tick(t) && ss[k].threads[t].Scan? && ss[k].threads[t].j >= |ss[k].flags|
    requires a + PagePool.PagesFor(size) <= |ss[k].flags|
    ensures exists x: nat, p: nat ::
      && lo < x < k && a <= p < a + PagePool.PagesFor(size)
      && FindsTaken(ss[x], actions[x], t, p)
  {
    hide Next;
    ExploredSoFar(pages, threads, actions, ss, t, size, lo, k);
    assert NoRoom(actions, ss, t, lo, k, a, PagePool.PagesFor(size));
  }

  // ----- One thread running alone -----

  // Thread t runs until it returns from the call it is in.
  function Solo(s: State, t: nat): State
    requires t < |s.threads| && InPlace(s.threads[t], |s.flags|)
    decreases Ahead(s.threads[t], |s.flags|), ToClear(s.threads[t], |s.flags|)
  {
    if s.threads[t].Idle? then s else Solo(Next(s, Tick(t)), t)
  }

  function Ahead(th: Thread, pages: nat): nat
    requires InPlace(th, pages)
  {
    if th.Idle? then 0 else pages + 1 - th.j
  }

  function ToClear(th: Thread, pages: nat): nat
    requires InPlace(th, pages)
  {
    if th.Rollback? then th.start + th.found - th.k else pages + 1
  }

  lemma SoloStep(s: State, t: nat)
    requires t < |s.threads| && InPlace(s.threads[t], |s.flags|) && !s.threads[t].Idle?
    ensures var n := Next(s, Tick(t)); InPlace(n.threads[t], |n.flags|) && Solo(s, t) == Solo(n, t)
  {
  }

  lemma ClearOne(flags: seq<bool>, k: nat, end: nat)
    requires k < end <= |flags|
    ensures PagePool.Cleared(flags[k := false], k + 1, end) == PagePool.Cleared(flags, k, end)
  {
  }

  lemma SoloRollback(s: State, t: nat)
    requires t < |s.threads| && InPlace(s.threads[t], |s.flags|) && s.threads[t].Rollback?
    ensures var Rollback(need, j, start, found, k) := s.threads[t];
            var s' := s.(flags := PagePool.Cleared(s.flags, k, start + found),
                         threads := s.threads[t := Scan(need, j + 1, start, 0)]);
            Solo(s, t) == Solo(s', t)
    decreases ToClear(s.threads[t], |s.flags|)
  {
    hide Solo;
    var Rollback(need, j, start, found, k) := s.threads[t];
    var n := Next(s, Tick(t));
    SoloStep(s, t);
    ClearOne(s.flags, k, start + found);
    if k + 1 < start + found {
      SoloRollback(n, t);
      assert n.threads[t := Scan(need, j + 1, start, 0)] == s.threads[t := Scan(need, j + 1, start, 0)];
    } else {
      assert PagePool.Cleared(n.flags, k + 1, start + found) == n.flags;
    }
  }

  ghost predicate Returned(s: State, s': State, t: nat, flags: seq<bool>, size: nat)
    requires t < |s.threads|
  {
    var (pool, got) := PagePool.AllocSpec(PagePool.Pool(flags, 0, 0), size);
    && s'.flags == pool.flags
    && s'.threads == s.threads[t := Idle]
    && s'.live == match got
                  case Some(a) => s.live[a := PagePool.PagesFor(size)]
                  case None => s.live
  }

  // Thread t stands before page j and holds the free stretch just behind it; all
  // other flags are as they were in `flags`.
  ghost predicate Midway(s: State, t: nat, flags: seq<bool>) {
    && t < |s.threads| && s.threads[t].Scan?
    && var Scan(need, j, start, found) := s.threads[t];
    && PagePool.Scanning(flags, need, j, found) && (found > 0 ==> start == j - found)
    && s.flags == PagePool.Marked(flags, j - found, j)
  }

  // Skipping a taken page, rollback included, is one move.
  lemma SoloTaken(s: State, t: nat, flags: seq<bool>)
    requires Midway(s, t, flags) && s.threads[t].j < |flags| && flags[s.threads[t].j]
    ensures var Scan(need, j, start, found) := s.threads[t];
            var s' := s.(flags := flags, threads := s.threads[t := Scan(need, j + 1, start, 0)]);
            InPlace(s.threads[t], |s.flags|) && Solo(s, t) == Solo(s', t) && Midway(s', t, flags)
  {
    hide Solo;
    SoloStep(s, t);
    var Scan(need, j, start, found) := s.threads[t];
    PagePool.MarkOne(flags, j, j);
    PagePool.MarkOne(flags, j + 1, j + 1);
    PagePool.ScanTaken(flags, need, j, found);
    PagePool.ScanUndo(flags, need, start, found, j);
    var n := Next(s, Tick(t));
    if found > 0 {
      SoloRollback(n, t);
      assert n.threads[t := Scan(need, j + 1, start, 0)] == s.threads[t := Scan(need, j + 1, start, 0)];
    }
  }

  lemma SoloFree(s: State, t: nat, flags: seq<bool>)
    requires Midway(s, t, flags) && s.threads[t].j < |flags| && !flags[s.threads[t].j]
    requires s.threads[t].found + 1 != s.threads[t].need
    ensures Midway(Next(s, Tick(t)), t, flags)
  {
    var Scan(need, j, start, found) := s.threads[t];
    PagePool.MarkOne(flags, j - found, j);
    PagePool.ScanFree(flags, need, j, found);
  }

  lemma SoloReturn(s: State, t: nat, flags: seq<bool>, size: nat)
    requires Midway(s, t, flags) && s.threads[t].need == PagePool.PagesFor(size)
    requires var Scan(need, j, _, found) := s.threads[t]; j == |flags| || (!flags[j] && found + 1 == need)
    ensures Returned(s, Next(s, Tick(t)), t, flags, size)
    ensures Next(s, Tick(t)).threads[t].Idle?
  {
    if s.threads[t].j == |flags| {
      SoloFails(s, t, flags, size);
    } else {
      SoloSucceeds(s, t, flags, size);
    }
  }

  lemma SoloFails(s: State, t: nat, flags: seq<bool>, size: nat)
    requires Midway(s, t, flags) && s.threads[t].need == PagePool.PagesFor(size) && s.threads[t].j == |flags|
    ensures Returned(s, Next(s, Tick(t)), t, flags, size) && Next(s, Tick(t)).threads[t].Idle?
  {
    hide PagePool.AllocSpec, PagePool.FirstFit, PagePool.Scanning, PagePool.Marked, PagePool.PagesFor;
    PagePool.ScanFails(PagePool.Pool(flags, 0, 0), size, s.threads[t].found);
  }

  lemma SoloSucceeds(s: State, t: nat, flags: seq<bool>, size: nat)
    requires Midway(s, t, flags) && s.threads[t].need == PagePool.PagesFor(size)
    requires var Scan(need, j, _, found) := s.threads[t]; j < |flags| && !flags[j] && found + 1 == need
    ensures Returned(s, Next(s, Tick(t)), t, flags, size) && Next(s, Tick(t)).threads[t].Idle?
  {
    hide PagePool.AllocSpec, PagePool.FirstFit, PagePool.Scanning, PagePool.Marked, PagePool.PagesFor;
    var Scan(need, j, start, found) := s.threads[t];
    PagePool.ScanBounds(flags, need, j, found);
    PagePool.MarkOne(flags, j - found, j);
    PagePool.ScanFits(PagePool.Pool(flags, 0, 0), size, j, found);
  }

  lemma {:induction false} SoloScan(s: State, t: nat, flags: seq<bool>, size: nat)
    requires Midway(s, t, flags) && s.threads[t].need == PagePool.PagesFor(size)
    ensures InPlace(s.threads[t], |s.flags|)
    ensures Returned(s, Solo(s, t), t, flags, size)
    decreases |flags| - s.threads[t].j
  {
    hide PagePool.AllocSpec, PagePool.FirstFit, Solo, PagePool.Marked;
    MidwayInPlace(s, t, flags);
    SoloStep(s, t);
    var Scan(need, j, start, found) := s.threads[t];
    var n := Next(s, Tick(t));
    if j < |flags| && flags[j] {
      SoloTaken(s, t, flags);
      SoloScan(s.(flags := flags, threads := s.threads[t := Scan(need, j + 1, start, 0)]), t, flags, size);
    } else if j < |flags| && found + 1 != need {
      SoloFree(s, t, flags);
      SoloScan(n, t, flags, size);
    } else {
      SoloReturn(s, t, flags, size);
      SoloIdle(n, t);
    }
  }

  lemma MidwayInPlace(s: State, t: nat, flags: seq<bool>)
    requires Midway(s, t, flags)
    ensures |s.flags| == |flags| && InPlace(s.threads[t], |s.flags|)
  {
  }

  lemma SoloIdle(s: State, t: nat)
    requires t < |s.threads| && s.threads[t].Idle?
    ensures Solo(s, t) == s
  {
  }

  // A call that no other thread disturbs is the sequential allocation.
  lemma AloneIsSequential(s: State, t: nat, size: nat)
    requires Enabled(s, Begin(t, size))
    ensures Returned(s, Solo(Next(s, Begin(t, size)), t), t, s.flags, size)
  {
    var n := Next(s, Begin(t, size));
    PagePool.ScanBegin(s.flags, PagePool.PagesFor(size));
    PagePool.MarkOne(s.flags, 0, 0);
    SoloScan(n, t, s.flags, size);
  }

  // And the buffer can be released, which leaves all but its first page taken.
  lemma AllocThenFree(s: State, t: nat, size: nat, a: nat)
    requires Enabled(s, Begin(t, size))
    requires PagePool.AllocSpec(PagePool.Pool(s.flags, 0, 0), size).1 == Some(a)
    ensures var s' := Solo(Next(s, Begin(t, size)), t);
      && Enabled(s', Free(t, a))
      && var s'' := Next(s', Free(t, a));
      && s''.flags == PagePool.Marked(s.flags, a + 1, a + PagePool.PagesFor(size))
      && s''.threads == s.threads
      && s''.live == s.live - {a}
  {
    hide Solo, PagePool.AllocSpec;
    AloneIsSequential(s, t, size);
    PagePool.FreeUndoesExactly(PagePool.Pool(s.flags, 0, 0), size);
    var s' := Solo(Next(s, Begin(t, size)), t);
    assert s'.threads == s.threads[t := Idle] == s.threads;
    assert s'.live - {a} == s.live - {a};
  }
}
