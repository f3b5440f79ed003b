// The page allocator of src/mem/mem_pool.cc, run by one thread at a time.
module PagePool {
  import opened Wrappers

  const PAGE_SIZE: nat := 4096
  // size_t arithmetic is modulo this value.
  const SIZE_T: nat := 0x1_0000_0000_0000_0000

  function PagesFor(size: nat): (n: nat)
    ensures size <= 4096 * n < size + 4096
  {
    (size + PAGE_SIZE - 1) / PAGE_SIZE
  }

  // ----- What first-fit means -----

  // Pages s, ..., s + n - 1 exist and none of them is taken.
  predicate FreeRun(flags: seq<bool>, s: nat, n: nat) {
    s + n <= |flags| && forall k | s <= k < s + n :: !flags[k]
  }

  // The leftmost run of n free pages that starts at or after `from`.
  function FirstFit(flags: seq<bool>, n: nat, from: nat): (r: Option<nat>)
    requires n > 0
    ensures r.Some? ==> from <= r.value && FreeRun(flags, r.value, n)
    ensures r.Some? ==> forall t: nat | from <= t < r.value :: !FreeRun(flags, t, n)
    ensures r.None? ==> forall t: nat | from <= t :: !FreeRun(flags, t, n)
    decreases |flags| - from
  {
    if from + n > |flags| then None
    else if FreeRun(flags, from, n) then Some(from)
    else FirstFit(flags, n, from + 1)
  }

  // Where the longest all-free tail of the pool starts.
  function FreeTail(flags: seq<bool>): (a: nat)
    ensures a <= |flags|
    ensures forall k | a <= k < |flags| :: !flags[k]
    ensures a > 0 ==> flags[a - 1]
  {
    if flags == [] || flags[|flags| - 1] then |flags| else FreeTail(flags[..|flags| - 1])
  }

  function Marked(flags: seq<bool>, a: nat, b: nat): (r: seq<bool>)
    ensures |r| == |flags|
  {
    seq(|flags|, k requires 0 <= k < |flags| => flags[k] || a <= k < b)
  }

  function Cleared(flags: seq<bool>, a: nat, b: nat): (r: seq<bool>)
    ensures |r| == |flags|
  {
    seq(|flags|, k requires 0 <= k < |flags| => flags[k] && !(a <= k < b))
  }

  lemma MarkOne(flags: seq<bool>, a: nat, j: nat)
    requires a <= j <= |flags|
    ensures j < |flags| ==>
      Marked(flags, a, j)[j] == flags[j] && Marked(flags, a, j)[j := true] == Marked(flags, a, j + 1)
    ensures Marked(flags, a, a) == flags
  {
  }

  datatype Pool = Pool(flags: seq<bool>, used: nat, peak: nat)

  // A whole allocation: the new pool, and the first page handed out.
  function AllocSpec(p: Pool, size: nat): (Pool, Option<nat>) {
    var n := PagesFor(size);
    var fit := if n == 0 then None else FirstFit(p.flags, n, 0);
    match fit
    case Some(s) =>
      var used := p.used + n;
      (Pool(Marked(p.flags, s, s + n), used, if used > p.peak then used else p.peak), fit)
    case None =>
      (p.(flags := Marked(p.flags, FreeTail(p.flags), |p.flags|)), None)
  }

  // An allocation succeeds exactly when it asks for something and enough consecutive
  // pages are free. It then takes the leftmost such run; otherwise it takes the
  // longest free tail of the pool and hands out nothing.
  lemma AllocIsFirstFit(p: Pool, size: nat)
    ensures var (q, got) := AllocSpec(p, size); var n := PagesFor(size);
      && (got.Some? <==> size > 0 && exists s: nat :: FreeRun(p.flags, s, n))
      && (got.Some? ==>
           && FreeRun(p.flags, got.value, n)
           && (forall s: nat | s < got.value :: !FreeRun(p.flags, s, n))
           && q.used == p.used + n)
      && |q.flags| == |p.flags|
      && forall k | 0 <= k < |p.flags| :: q.flags[k] <==>
           p.flags[k] || if got.Some? then got.value <= k < got.value + n
                         else forall i | k <= i < |p.flags| :: !p.flags[i]
  {
    var (q, got) := AllocSpec(p, size);
    var n, a := PagesFor(size), FreeTail(p.flags);
    if got.None? {
      forall k | 0 <= k < |p.flags| && !p.flags[k]
        ensures q.flags[k] <==> forall i | k <= i < |p.flags| :: !p.flags[i]
      {
        if k < a { assert p.flags[a - 1]; }
      }
    }
  }

  // Releasing through a pointer into page `page`; the counter wraps like size_t.
  function FreeSpec(p: Pool, page: nat): Pool
    requires page < |p.flags|
  {
    p.(flags := p.flags[page := false], used := if p.used == 0 then SIZE_T - 1 else p.used - 1)
  }

  // Releasing an allocation by its first page undoes it exactly when it is one page long.
  lemma FreeUndoesExactly(p: Pool, size: nat)
    requires AllocSpec(p, size).1.Some?
    ensures var (q, got) := AllocSpec(p, size);
      && got.value < |q.flags|
      && (FreeSpec(q, got.value).flags == p.flags <==> PagesFor(size) == 1)
      && (FreeSpec(q, got.value).flags == Marked(p.flags, got.value + 1, got.value + PagesFor(size)))
  {
    hide FirstFit, FreeTail;
    var (q, got) := AllocSpec(p, size);
    var s, n := got.value, PagesFor(size);
    assert q.flags == Marked(p.flags, s, s + n) && !p.flags[s];
    var after := FreeSpec(q, s).flags;
    if n > 1 {
      assert after[s + 1] && !p.flags[s + 1];
    }
  }

  // ----- The scan -----

  // The scan stands before page j and holds the `found` pages just behind it:
  // they form the whole free stretch that ends there, it is still too short,
  // and no long enough stretch lies further left.
  ghost predicate Scanning(flags: seq<bool>, n: nat, j: nat, found: nat) {
    && found <= j <= |flags|
    && (n > 0 ==> found < n)
    && (found < j ==> flags[j - found - 1])
    && (forall k | j - found <= k < j :: !flags[k])
    && (forall t: nat | n > 0 && t + n <= j :: !FreeRun(flags, t, n))
  }

  lemma ScanBegin(flags: seq<bool>, n: nat)
    ensures Scanning(flags, n, 0, 0)
  {
  }

  lemma ScanBounds(flags: seq<bool>, n: nat, j: nat, found: nat)
    requires Scanning(flags, n, j, found)
    ensures found <= j <= |flags| && (n > 0 ==> found < n)
  {
  }

  lemma ScanTaken(flags: seq<bool>, n: nat, j: nat, found: nat)
    requires Scanning(flags, n, j, found) && j < |flags| && flags[j]
    ensures Scanning(flags, n, j + 1, 0)
  {
  }

  lemma ScanFree(flags: seq<bool>, n: nat, j: nat, found: nat)
    requires Scanning(flags, n, j, found) && j < |flags| && !flags[j]
    requires found + 1 != n
    ensures Scanning(flags, n, j + 1, found + 1)
  {
    forall t: nat | n > 0 && t + n <= j + 1
      ensures !FreeRun(flags, t, n)
    {
      if t + n == j + 1 {
        assert t <= j - found - 1 < t + n;
      }
    }
  }

  lemma ScanUndo(flags: seq<bool>, n: nat, startIdx: nat, found: nat, j: nat)
    requires Scanning(flags, n, j, found) && (found > 0 ==> startIdx == j - found)
    ensures Cleared(Marked(flags, j - found, j), startIdx, startIdx + found) == flags
  {
  }

  lemma ScanFits(p: Pool, size: nat, j: nat, found: nat)
    requires Scanning(p.flags, PagesFor(size), j, found) && j < |p.flags| && !p.flags[j]
    requires found + 1 == PagesFor(size)
    ensures found <= j
    ensures AllocSpec(p, size) ==
      (var used := p.used + PagesFor(size);
       (Pool(Marked(p.flags, j - found, j + 1), used, if used > p.peak then used else p.peak), Some(j - found)))
  {
    var n := PagesFor(size);
    assert FreeRun(p.flags, j - found, n);
    var r := FirstFit(p.flags, n, 0);
    assert r.value + n > j;
  }

  lemma ScanFails(p: Pool, size: nat, found: nat)
    requires Scanning(p.flags, PagesFor(size), |p.flags|, found)
    ensures found <= |p.flags|
    ensures AllocSpec(p, size) == (p.(flags := Marked(p.flags, |p.flags| - found, |p.flags|)), None)
  {
    assert FreeTail(p.flags) == |p.flags| - found;
  }

  // ----- The allocator itself -----

  class MemPool {
    const buf: nat
    const isUsed: array<bool>
    var used: nat
    var peakUsed: nat

    constructor (buf: nat, numBlocks: nat)
      ensures this.buf == buf && fresh(isUsed)
      ensures State() == Pool(seq(numBlocks, _ => false), 0, 0)
    {
      this.buf := buf;
      isUsed := new bool[numBlocks](_ => false);
      used, peakUsed := 0, 0;
    }

    function State(): Pool
      reads this, isUsed
    {
      Pool(isUsed[..], used, peakUsed)
    }

    predicate Contains(ptr: nat) {
      buf <= ptr < buf + isUsed.Length * PAGE_SIZE
    }

    // kbx_mem_cpu_alloc: claim pages one by one, give the run back when a taken
    // page interrupts it, stop when the run is long enough.
    method Alloc(size: nat) returns (ptr: Option<nat>)
      modifies this, isUsed
      ensures State() == AllocSpec(old(State()), size).0
      ensures ptr == match AllocSpec(old(State()), size).1
                     case Some(s) => Some(buf + s * PAGE_SIZE)
                     case None => None
    {
      hide Scanning, AllocSpec, FirstFit, FreeTail, Marked, Cleared, PagesFor;
      ghost var p := State();
      var blocksNeeded := PagesFor(size);
      var startIdx, found := 0, 0;
      var j := 0;
      ScanBegin(p.flags, blocksNeeded);
      MarkOne(p.flags, 0, 0);
      while j < isUsed.Length
        invariant used == p.used && peakUsed == p.peak
        invariant startIdx + found <= j <= isUsed.Length && (found > 0 ==> startIdx == j - found)
        invariant Scanning(p.flags, blocksNeeded, j, found)
        invariant isUsed[..] == Marked(p.flags, j - found, j)
      {
        MarkOne(p.flags, j - found, j);
        if !isUsed[j] {
          isUsed[j] := true;
          if found == 0 { startIdx := j; }
          found := found + 1;
          assert isUsed[..] == Marked(p.flags, startIdx, j)[j := true];
          if found == blocksNeeded {
            ScanFits(p, size, j, found - 1);
            used := used + blocksNeeded;
            if used > peakUsed { peakUsed := used; }
            return Some(buf + startIdx * PAGE_SIZE);
          }
          ScanFree(p.flags, blocksNeeded, j, found - 1);
        } else {
          GiveBack(startIdx, found);
          ScanUndo(p.flags, blocksNeeded, startIdx, found, j);
          MarkOne(p.flags, j + 1, j + 1);
          ScanTaken(p.flags, blocksNeeded, j, found);
          found := 0;
        }
        j := j + 1;
      }
      ScanFails(p, size, found);
      ptr := None;
    }

    // The rollback loop: clear the pages of the run that was cut short.
    method GiveBack(startIdx: nat, found: nat)
      requires startIdx + found <= isUsed.Length
      modifies isUsed
      ensures isUsed[..] == Cleared(old(isUsed[..]), startIdx, startIdx + found)
    {
      var k := startIdx;
      while k < startIdx + found
        invariant startIdx <= k <= startIdx + found
        invariant forall i | 0 <= i < isUsed.Length :: isUsed[i] == (old(isUsed[i]) && !(startIdx <= i < k))
      {
        isUsed[k] := false;
        k := k + 1;
      }
    }

    // The page-clearing part of kbx_mem_cpu_free.
    method Free(ptr: nat)
      requires Contains(ptr)
      modifies this`used, isUsed
      ensures State() == FreeSpec(old(State()), (ptr - buf) / PAGE_SIZE)
    {
      var idx := (ptr - buf) / PAGE_SIZE;
      isUsed[idx] := false;
      used := if used == 0 then SIZE_T - 1 else used - 1;
    }
  }

  // ----- Several pools, one per memory node -----

  predicate Contains(pools: seq<MemPool>, i: nat, ptr: nat) {
    i < |pools| && pools[i].Contains(ptr)
  }

  ghost predicate Separate(pools: seq<MemPool>) {
    forall i: nat, k: nat | i < k < |pools| ::
      pools[i] != pools[k] && pools[i].isUsed != pools[k].isUsed &&
      forall ptr: nat :: !(Contains(pools, i, ptr) && Contains(pools, k, ptr))
  }

  // Page k of a pool holds some of the `size` bytes from offset `at` on.
  predicate Meets(k: nat, at: nat, size: nat) {
    4096 * k < at + size && at < 4096 * k + 4096
  }

  // The bytes lie in pages that were free; these are now taken and no other is.
  ghost predicate TakesBytes(before: seq<bool>, after: seq<bool>, at: nat, size: nat) {
    && |after| == |before|
    && (forall k: nat | Meets(k, at, size) :: k < |before| && !before[k])
    && (forall k: nat | k < |before| :: after[k] == (before[k] || Meets(k, at, size)))
  }

  // Every stretch of pages that could hold `size` bytes has a taken one.
  ghost predicate NoSpace(flags: seq<bool>, size: nat) {
    forall s: nat, e: nat | s <= e <= |flags| && size <= 4096 * (e - s) :: true in flags[s..e]
  }

  // What an allocation means for bytes.
  lemma AllocTakesBytes(p: Pool, size: nat)
    ensures var (q, got) := AllocSpec(p, size);
      && (got == None <==> size == 0 || NoSpace(p.flags, size))
      && (got.Some? ==> TakesBytes(p.flags, q.flags, 4096 * got.value, size))
  {
    hide FreeTail;
    var got, n := AllocSpec(p, size).1, PagesFor(size);
    if got == None && size > 0 {
      forall s: nat, e: nat | s <= e <= |p.flags| && size <= 4096 * (e - s) ensures true in p.flags[s..e] {
        assert !FreeRun(p.flags, s, n);
        var k :| s <= k < s + n && p.flags[k];
        assert p.flags[s..e][k - s];
      }
    }
    if got.Some? {
      var s := got.value;
      assert true !in p.flags[s..s + n];
      assert forall k: nat :: Meets(k, 4096 * s, size) <==> s <= k < s + n;
    }
  }

  // kbx_mem_cpu_alloc picks the pool of the caller's node, or pool 0. No pools at all
  // stand for a manager that has none.
  method CpuAlloc(pools: seq<MemPool>, node: int, size: nat) returns (ghost i: nat, ptr: Option<nat>)
    requires Separate(pools)
    modifies pools, set p | p in pools :: p.isUsed
    ensures pools == [] ==> ptr == None
    ensures pools != [] ==> i < |pools| && i == if 0 <= node < |pools| then node else 0
    ensures forall k | 0 <= k < |pools| ::
      pools[k].State() == if k == i then AllocSpec(old(pools[k].State()), size).0 else old(pools[k].State())
    ensures pools != [] ==>
      match AllocSpec(old(pools[i].State()), size).1
      case Some(s) => ptr == Some(pools[i].buf + s * PAGE_SIZE)
      case None => ptr == None
    ensures pools != [] ==> (ptr == None <==> size == 0 || NoSpace(old(pools[i].isUsed[..]), size))
    ensures pools != [] && ptr.Some? ==>
      && ptr.value >= pools[i].buf
      && TakesBytes(old(pools[i].isUsed[..]), pools[i].isUsed[..], ptr.value - pools[i].buf, size)
  {
    hide AllocSpec, TakesBytes, NoSpace;
    if pools == [] { return 0, None; }
    var n := if node < 0 || node >= |pools| then 0 else node;
    i := n;
    assert forall k: nat | k < n :: pools[k] != pools[n];
    AllocTakesBytes(pools[n].State(), size);
    ptr := pools[n].Alloc(size);
  }

  // kbx_mem_cpu_free: look for the pool whose buffer holds the pointer.
  method CpuFree(pools: seq<MemPool>, ptr: nat)
    requires Separate(pools)
    modifies pools, set p | p in pools :: p.isUsed
    ensures forall k: nat | k < |pools| ::
      pools[k].State() == if ptr != 0 && Contains(pools, k, ptr)
                          then FreeSpec(old(pools[k].State()), (ptr - pools[k].buf) / PAGE_SIZE)
                          else old(pools[k].State())
    ensures forall k: nat, page: nat | k < |pools| && page < pools[k].isUsed.Length ::
      pools[k].isUsed[page] ==
        (old(pools[k].isUsed[page])
         && !(ptr != 0 && pools[k].buf + 4096 * page <= ptr < pools[k].buf + 4096 * page + 4096))
  {
    if ptr == 0 { return; }
    var i := 0;
    while i < |pools|
      invariant i <= |pools|
      invariant forall k: nat | k < |pools| :: pools[k].State() == old(pools[k].State())
      invariant forall k: nat | k < i :: !Contains(pools, k, ptr)
    {
      if pools[i].Contains(ptr) {
        assert Contains(pools, i, ptr);
        assert forall k: nat | k < i :: pools[k] != pools[i];
        pools[i].Free(ptr);
        break;
      }
      i := i + 1;
    }
  }

  // A pointer handed out for page s of pool i leads CpuFree back to that page of
  // that pool and to no other.
  lemma PointerRoundTrip(pools: seq<MemPool>, i: nat, s: nat)
    requires Separate(pools) && i < |pools| && s < pools[i].isUsed.Length
    ensures var ptr := pools[i].buf + s * PAGE_SIZE;
            && (forall k: nat :: Contains(pools, k, ptr) <==> k == i)
            && (ptr - pools[i].buf) / PAGE_SIZE == s
  {
    assert Contains(pools, i, pools[i].buf + s * PAGE_SIZE);
  }

  // ----- Sequential runs -----

  datatype Op = Allocate(size: nat) | Release(page: nat)

  // `live` are the first pages handed out and not yet released, `lost` the pages
  // that failed allocations left set.
  datatype Run = Run(pool: Pool, live: set<nat>, lost: set<nat>, maxUsed: nat)

  function SetPages(flags: seq<bool>): set<nat> {
    set k: nat | k < |flags| && flags[k]
  }

  // A caller releases only what it holds.
  predicate Allowed(r: Run, op: Op) {
    op.Release? ==> op.page in r.live && op.page < |r.pool.flags|
  }

  function Step(r: Run, op: Op): Run
    requires Allowed(r, op)
  {
    match op
    case Allocate(size) =>
      var (pool, got) := AllocSpec(r.pool, size);
      Run(pool,
          if got.Some? then r.live + {got.value} else r.live,
          if got.Some? then r.lost else r.lost + (SetPages(pool.flags) - SetPages(r.pool.flags)),
          if pool.used > r.maxUsed then pool.used else r.maxUsed)
    case Release(page) =>
      var pool := FreeSpec(r.pool, page);
      Run(pool, r.live - {page}, r.lost, if pool.used > r.maxUsed then pool.used else r.maxUsed)
  }

  function Start(n: nat): Run {
    Run(Pool(seq(n, _ => false), 0, 0), {}, {}, 0)
  }

  // Runs r0, r1, ... one operation apart, from an empty pool of n pages.
  ghost predicate IsRun(n: nat, ops: seq<Op>, rs: seq<Run>) {
    && |rs| == |ops| + 1 && rs[0] == Start(n)
    && forall i | 0 <= i < |ops| :: Allowed(rs[i], ops[i]) && rs[i + 1] == Step(rs[i], ops[i])
  }

  ghost predicate Balanced(r: Run) {
    && r.live <= SetPages(r.pool.flags)
    && r.lost <= SetPages(r.pool.flags)
    && r.live !! r.lost
    && |SetPages(r.pool.flags)| == r.pool.used + |r.lost|
    && r.pool.used <= r.pool.peak == r.maxUsed
    && r.pool.peak <= |r.pool.flags|
  }

  function Pages(a: nat, b: nat): (s: set<nat>)
    ensures forall k :: k in s <==> a <= k < b
    ensures a <= b ==> |s| == b - a
  {
    if a >= b then {} else Pages(a, b - 1) + {b - 1}
  }

  // Setting a free stretch adds exactly that stretch to the set pages.
  lemma MarkFree(flags: seq<bool>, a: nat, b: nat)
    requires a <= b <= |flags| && forall k | a <= k < b :: !flags[k]
    ensures SetPages(Marked(flags, a, b)) == SetPages(flags) + Pages(a, b)
    ensures SetPages(flags) !! Pages(a, b)
    ensures |SetPages(Marked(flags, a, b))| == |SetPages(flags)| + (b - a)
  {
  }

  lemma Fewer(s: set<nat>, n: nat)
    requires forall k | k in s :: k < n
    ensures |s| <= n
  {
    Subset(s, Pages(0, n));
  }

  lemma {:induction false} Subset(s: set<nat>, t: set<nat>)
    requires s <= t
    ensures |s| <= |t|
  {
    if s != {} {
      var x :| x in s;
      Subset(s - {x}, t - {x});
    }
  }

  // Every operation keeps the books; in particular `used` is positive before the
  // decrement of every release, so it never wraps.
  lemma StepBalanced(r: Run, op: Op)
    requires Balanced(r) && Allowed(r, op)
    ensures Balanced(Step(r, op))
    ensures op.Release? ==> r.pool.used > 0 && Step(r, op).pool.used == r.pool.used - 1
  {
    match op
    case Allocate(size) => AllocateBalanced(r, size);
    case Release(page) =>
      var set0, set1 := SetPages(r.pool.flags), SetPages(Step(r, op).pool.flags);
      assert set1 == set0 - {page};
      Subset(r.lost, set1);
  }

  lemma AllocateBalanced(r: Run, size: nat)
    requires Balanced(r)
    ensures Balanced(Step(r, Allocate(size)))
  {
    hide AllocSpec, Marked, SetPages;
    var flags, r' := r.pool.flags, Step(r, Allocate(size));
    var a, b := AllocMarks(r.pool, size);
    MarkFree(flags, a, b);
    assert SetPages(flags) + Pages(a, b) - SetPages(flags) == Pages(a, b);
    MarkBalanced(r, r', a, b);
  }

  // The stretch an allocation sets.
  lemma AllocMarks(p: Pool, size: nat) returns (a: nat, b: nat)
    ensures a <= b <= |p.flags| && forall k | a <= k < b :: !p.flags[k]
    ensures var (q, got) := AllocSpec(p, size);
      && q.flags == Marked(p.flags, a, b) && |q.flags| == |p.flags|
      && (got == None || (got == Some(a) && a < b))
      && q.used == p.used + (if got.Some? then b - a else 0)
      && q.peak == if got.Some? && q.used > p.peak then q.used else p.peak
  {
    var n, got := PagesFor(size), AllocSpec(p, size).1;
    a := if got.Some? then got.value else FreeTail(p.flags);
    b := if got.Some? then got.value + n else |p.flags|;
  }

  lemma MarkBalanced(r: Run, r': Run, a: nat, b: nat)
    requires Balanced(r) && a <= b
    requires |r'.pool.flags| == |r.pool.flags|
    requires SetPages(r'.pool.flags) == SetPages(r.pool.flags) + Pages(a, b)
    requires SetPages(r.pool.flags) !! Pages(a, b)
    requires
      || (a < b && r'.live == r.live + {a} && r'.lost == r.lost && r'.pool.used == r.pool.used + (b - a))
      || (r'.live == r.live && r'.lost == r.lost + Pages(a, b) && r'.pool.used == r.pool.used)
    requires r'.pool.peak == r'.maxUsed == if r'.pool.used > r.maxUsed then r'.pool.used else r.maxUsed
    ensures Balanced(r')
  {
    assert r.lost !! Pages(a, b);
    Fewer(SetPages(r'.pool.flags), |r'.pool.flags|);
  }

  // Over every sequential run: the set pages are the `used` ones plus those lost
  // to failed allocations, peak_used is the highest `used` reached so far, and no
  // release finds `used` at zero.
  lemma {:induction false} RunBalanced(n: nat, ops: seq<Op>, rs: seq<Run>)
    requires IsRun(n, ops, rs)
    ensures forall i | 0 <= i < |rs| :: Balanced(rs[i])
    ensures forall i | 0 <= i < |ops| && ops[i].Release? :: rs[i].pool.used > 0
  {
    hide Balanced, Step, Start, Allowed;
    var m := |ops|;
    if m == 0 {
      StartBalanced(n);
    } else {
      assert IsRun(n, ops[..m - 1], rs[..m]) by { RunPrefix(n, ops, rs); }
      RunBalanced(n, ops[..m - 1], rs[..m]);
      assert Balanced(rs[..m][m - 1]);
      StepBalanced(rs[m - 1], ops[m - 1]);
      forall i | 0 <= i < |rs| ensures Balanced(rs[i]) {
        if i < m { assert rs[i] == rs[..m][i]; }
      }
      forall i | 0 <= i < |ops| && ops[i].Release? ensures rs[i].pool.used > 0 {
        if i < m - 1 { assert rs[i] == rs[..m][i] && ops[i] == ops[..m - 1][i]; }
      }
    }
  }

  lemma RunPrefix(n: nat, ops: seq<Op>, rs: seq<Run>)
    requires IsRun(n, ops, rs) && ops != []
    ensures IsRun(n, ops[..|ops| - 1], rs[..|ops|])
    ensures Allowed(rs[|ops| - 1], ops[|ops| - 1]) && rs[|ops|] == Step(rs[|ops| - 1], ops[|ops| - 1])
  {
    hide Step, Start, Allowed;
  }

  lemma StartBalanced(n: nat)
    ensures Balanced(Start(n))
  {
    assert SetPages(Start(n).pool.flags) == {};
  }
}
