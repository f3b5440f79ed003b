// The measuring loop of openvino/samples/cpp/benchmark_app/main.cpp, from the
// alignment of the iteration count to the final wait_all, on top of the pool of
// inference requests.
module Measurement {
  import opened Wrappers
  import opened Indexing
  import opened InferQueue

  // ----- Settings -----

  // `groups` is the number of input shape groups; a `duration` or `niter` of 0 is no limit.
  datatype Config = Config(nireq: nat, niter: nat, groups: nat, async: bool, inferenceOnly: bool, pcseq: bool,
        duration: nat)
  {
    predicate Valid() {
      nireq > 0 && groups > 0
    }
  }

  function RoundUp(n: nat, step: nat): nat
    requires step > 0
  {
    (n + step - 1) / step * step
  }

  // The iteration limit after alignment.
  function Aligned(c: Config): nat
    requires c.Valid()
  {
    if c.niter > 0 && c.async then RoundUp(c.niter, if c.groups > c.nireq then c.groups else c.nireq) else c.niter
  }

  // The latency group a request is in while it executes iteration i. The warm-up
  // runs in group 0; so does everything in inference-only mode.
  function GroupFor(c: Config, i: int): nat
    requires c.Valid()
  {
    if c.pcseq && !c.inferenceOnly && i >= 0 then i % c.groups else 0
  }

  const WARM_UP := -1

  // A latency, labelled with the iteration it measures.
  datatype Sample = Sample(iteration: int, ms: real)

  function Iterations(samples: seq<Sample>): seq<int> {
    seq(|samples|, i requires 0 <= i < |samples| => samples[i].iteration)
  }

  // The latencies of group g, in the order they were recorded.
  function Select(c: Config, samples: seq<Sample>, g: nat): seq<Sample>
    requires c.Valid()
  {
    if samples == [] then []
    else
      var last := samples[|samples| - 1];
      Select(c, samples[..|samples| - 1], g) + if GroupFor(c, last.iteration) == g then [last] else []
  }

  // Every started iteration is either being executed by exactly one request or
  // recorded exactly once.
  ghost predicate Booked(done: seq<int>, running: map<nat, int>, started: set<int>) {
    && NoDuplicates(done)
    && (forall i :: i in started <==> i in done || i in running.Values)
    && (forall i | i in running.Values :: i !in done)
    && (forall a, b | a in running && b in running && running[a] == running[b] :: a == b)
  }

  lemma BookStart(done: seq<int>, running: map<nat, int>, started: set<int>, id: nat, i: int)
    requires Booked(done, running, started) && id !in running && i !in started
    ensures Booked(done, running[id := i], started + {i})
  {
    var after := running[id := i];
    forall k ensures k in after.Values <==> k == i || k in running.Values {
      if k == i { assert after[id] == i; }
      if k in running.Values { var a :| a in running && running[a] == k; assert after[a] == k; }
    }
  }

  lemma BookDone(done: seq<int>, running: map<nat, int>, started: set<int>, id: nat)
    requires Booked(done, running, started) && id in running
    ensures Booked(done + [running[id]], running - {id}, started)
  {
    var after := running - {id};
    assert running[id] in running.Values;
    forall k ensures k in after.Values <==> k != running[id] && k in running.Values {
      if k != running[id] && k in running.Values { var a :| a in running && running[a] == k; assert after[a] == k; }
    }
    assert forall k :: k in done + [running[id]] <==> k in done || k == running[id];
  }

  // Each request carries the group of the iteration it executes, and each latency
  // group holds exactly the latencies of its iterations.
  ghost predicate Grouped(c: Config, latGroup: seq<nat>, running: map<nat, int>, groups: seq<seq<Sample>>,
        latencies: seq<Sample>)
    requires c.Valid()
  {
    && |latGroup| == c.nireq && |groups| == c.groups
    && (forall id | 0 <= id < c.nireq :: latGroup[id] < c.groups)
    && (c.inferenceOnly || !c.pcseq ==> forall id | 0 <= id < c.nireq :: latGroup[id] == 0)
    && (forall id | id in running && id < c.nireq :: latGroup[id] == GroupFor(c, running[id]))
    && (c.pcseq ==> forall g | 0 <= g < c.groups :: groups[g] == Select(c, latencies, g))
  }

  lemma PutKeepsGroups(c: Config, latGroup: seq<nat>, running: map<nat, int>, q: Queue<Sample>,
                       id: nat, sample: Sample, exception: bool)
    requires c.Valid() && Grouped(c, latGroup, running, q.groups, q.latencies)
    requires id < c.nireq && latGroup[id] == GroupFor(c, sample.iteration)
    ensures var p := Put(q, c.pcseq, id, latGroup[id], sample, exception);
            Grouped(c, latGroup, running - {id}, p.groups, p.latencies)
  {
    assert (q.latencies + [sample])[..|q.latencies|] == q.latencies;
  }

  lemma GroupStart(c: Config, latGroup: seq<nat>, running: map<nat, int>, q: Queue<Sample>, id: nat, i: int)
    requires c.Valid() && Grouped(c, latGroup, running, q.groups, q.latencies)
    requires id < c.nireq && latGroup[id] == GroupFor(c, i)
    ensures Grouped(c, latGroup, running[id := i], q.groups, q.latencies)
  {
  }

  lemma PutAppends(q: Queue<Sample>, enableGroups: bool, id: nat, group: nat, sample: Sample, exception: bool)
    requires enableGroups ==> group < |q.groups|
    ensures var p := Put(q, enableGroups, id, group, sample, exception);
            && (p.failed <==> q.failed || exception)
            && (!exception ==> p.latencies == q.latencies + [sample])
  {
  }

  lemma HeldExists(s: State<Sample>, id: nat)
    requires Partitioned(s) && id in s.held
    ensures id < s.nireq
  {
    assert Places(s, id) >= 1;
  }

  lemma IdNotRunning(s: State<Sample>, id: nat)
    requires Partitioned(s) && id in s.held
    ensures id !in s.running
  {
    assert Places(s, id) <= 1;
  }

  // When no request is idle, held or broken, one is running.
  lemma Pending(s: State<Sample>)
    requires Partitioned(s) && s.held == {} && s.nireq > 0 && s.q.idle == [] && !s.q.failed
    ensures s.running != {}
  {
    assert Places(s, 0) == 1;
  }

  // ----- What the measurement promises -----

  function Started(n: nat): (s: set<int>)
    ensures |s| == n && forall i :: i in s <==> 0 <= i < n
  {
    if n == 0 then {} else Started(n - 1) + {n - 1}
  }

  // The condition of the loop after n iterations and `time`.
  predicate Continues(c: Config, n: nat, time: nat)
    requires c.Valid()
  {
    || (Aligned(c) != 0 && n < Aligned(c))
    || (c.duration != 0 && time < c.duration)
    || (c.async && n % c.nireq != 0)
  }

  // The number of iterations when only the iteration limit counts.
  function Last(c: Config): nat
    requires c.Valid()
  {
    if c.async then RoundUp(Aligned(c), c.nireq) else Aligned(c)
  }

  // The iterations of group g.
  function OfGroup(c: Config, n: nat, g: nat): (s: set<int>)
    requires c.Valid()
    ensures forall i :: i in s <==> 0 <= i < n && GroupFor(c, i) == g
  {
    if n == 0 then {} else OfGroup(c, n - 1, g) + if GroupFor(c, n - 1) == g then {n - 1} else {}
  }

  // How many iterations are run: whole rounds of requests in asynchronous mode, and
  // without a time limit the least number that reaches the aligned limit.
  predicate Stops(c: Config, n: nat)
    requires c.Valid()
  {
    && (c.async ==> n % c.nireq == 0)
    && n >= Aligned(c)
    && (c.duration == 0 ==> n == Last(c))
  }

  lemma NotYetLast(c: Config, n: nat, time: nat, patience: nat)
    requires c.Valid() && Continues(c, n, time) && (n >= patience ==> time >= c.duration)
    ensures var bound := RoundUp(if Aligned(c) > patience then Aligned(c) else patience, c.nireq);
            n <= bound ==> n < bound
    ensures c.duration == 0 && n <= Last(c) ==> n < Last(c)
  {
    hide RoundUp, Aligned;
    RoundUpLeast(if Aligned(c) > patience then Aligned(c) else patience, c.nireq);
    RoundUpLeast(Aligned(c), c.nireq);
  }

  lemma Stopped(c: Config, n: nat, time: nat)
    requires c.Valid() && !Continues(c, n, time) && (c.duration == 0 ==> n <= Last(c))
    ensures Stops(c, n)
  {
    RoundUpLeast(Aligned(c), c.nireq);
  }

  // m is the least multiple of `step` that is not below n.
  predicate LeastMultiple(m: nat, step: nat, n: nat)
    requires step > 0
  {
    m % step == 0 && n <= m < n + step
  }

  // The iteration limit of the settings, which in asynchronous mode is rounded up to whole
  // rounds of shape groups or requests, whichever are more.
  predicate IsLimit(c: Config, limit: nat)
    requires c.Valid()
  {
    if c.async then LeastMultiple(limit, if c.groups > c.nireq then c.groups else c.nireq, c.niter)
    else limit == c.niter
  }

  // Both limits are reached after n iterations, and a round of requests is complete.
  predicate Reached(c: Config, limit: nat, n: nat, time: nat)
    requires c.Valid()
  {
    n >= limit && (c.duration > 0 ==> time >= c.duration) && (c.async ==> n % c.nireq == 0)
  }

  // The number of iterations in terms of the settings and the clock.
  ghost predicate RightCount(c: Config, elapsed: nat -> nat, n: nat)
    requires c.Valid()
  {
    && n >= c.niter
    && (c.duration > 0 ==> elapsed(n) >= c.duration)
    && (!c.async && c.duration == 0 ==> n == c.niter)
    && exists limit ::
         && IsLimit(c, limit)
         && Reached(c, limit, n, elapsed(n))
         && (forall k | 0 <= k < n :: !Reached(c, limit, k, elapsed(k)))
         && (c.async && c.duration == 0 ==> LeastMultiple(n, c.nireq, limit))
  }

  lemma AlignedIsLimit(c: Config)
    requires c.Valid()
    ensures IsLimit(c, Aligned(c)) && Aligned(c) >= c.niter
  {
    if c.async { RoundUpLeast(c.niter, if c.groups > c.nireq then c.groups else c.nireq); }
  }

  lemma ContinuesExactly(c: Config, n: nat, time: nat)
    requires c.Valid()
    ensures Continues(c, n, time) <==> !Reached(c, Aligned(c), n, time)
  {
    hide Aligned;
  }

  lemma StoppedRight(c: Config, elapsed: nat -> nat, n: nat)
    requires c.Valid() && Stops(c, n) && !Continues(c, n, elapsed(n))
    requires forall k | 0 <= k < n :: Continues(c, k, elapsed(k))
    ensures RightCount(c, elapsed, n)
  {
    hide RoundUp, Aligned, Continues, Reached;
    AlignedIsLimit(c);
    RoundUpLeast(Aligned(c), c.nireq);
    forall k | 0 <= k <= n ensures Continues(c, k, elapsed(k)) <==> !Reached(c, Aligned(c), k, elapsed(k)) {
      ContinuesExactly(c, k, elapsed(k));
    }
    if c.duration > 0 { NoTimeLeft(c, n, elapsed(n)); }
    if !c.async { SameLimit(c); }
  }

  lemma NoTimeLeft(c: Config, n: nat, time: nat)
    requires c.Valid() && !Continues(c, n, time) && c.duration > 0
    ensures time >= c.duration
  {
  }

  lemma SameLimit(c: Config)
    requires c.Valid() && !c.async
    ensures Aligned(c) == Last(c) == c.niter
  {
  }

  // What is recorded after n iterations: each exactly once, without the warm-up, and
  // per latency group exactly the iterations of that group.
  ghost predicate Recorded(c: Config, latencies: seq<Sample>, groups: seq<seq<Sample>>, n: nat)
    requires c.Valid()
  {
    && |latencies| == n
    && Exactly(Iterations(latencies), Started(n))
    && |groups| == c.groups
    && (c.pcseq ==> forall g | 0 <= g < c.groups ::
          && Exactly(Iterations(groups[g]), OfGroup(c, n, g))
          && |groups[g]| == GroupSize(c, n, g))
  }

  ghost predicate Exactly(xs: seq<int>, s: set<int>) {
    NoDuplicates(xs) && forall x :: x in xs <==> x in s
  }

  // The sizes of the groups of full mode differ by at most one; in inference-only
  // mode everything is in group 0.
  function GroupSize(c: Config, n: nat, g: nat): nat
    requires c.Valid()
  {
    if c.inferenceOnly then (if g == 0 then n else 0)
    else n / c.groups + if g < n % c.groups then 1 else 0
  }

  lemma RoundUpLeast(n: nat, step: nat)
    requires step > 0
    ensures RoundUp(n, step) % step == 0 && n <= RoundUp(n, step) < n + step
    ensures forall m: nat | m % step == 0 && m >= n :: m >= RoundUp(n, step)
  {
    DivMod((n + step - 1) / step, step, 0);
    forall m: nat | m % step == 0 && m >= n ensures m >= RoundUp(n, step) {
      NoSmallerMultiple(n, m, m / step, (n + step - 1) / step, step);
    }
  }

  lemma NoSmallerMultiple(n: nat, m: nat, k: nat, q: nat, step: nat)
    requires step > 0 && m == k * step && m >= n && q * step <= n + step - 1
    ensures m >= q * step
  {
    if k < q {
      Scale(k + 1, q, step);
    } else {
      Scale(q, k, step);
    }
  }

  lemma AllRecorded(latencies: seq<Sample>, started: set<int>)
    requires Booked(Iterations(latencies), map[], started)
    ensures |latencies| == |started| && Exactly(Iterations(latencies), started)
  {
    var done := Iterations(latencies);
    Counted(done);
    assert forall i :: i in started <==> i in done;
    assert Elements(done) == started;
  }

  lemma Restart(c: Config, latGroup: seq<nat>, q: Queue<Sample>)
    requires c.Valid() && latGroup == seq(c.nireq, _ => 0)
    requires q.latencies == [] && q.groups == seq(c.groups, _ => [])
    ensures Grouped(c, latGroup, map[], q.groups, q.latencies)
    ensures Booked(Iterations(q.latencies), map[], Started(0))
  {
  }

  lemma GroupSet(c: Config, latGroup: seq<nat>, running: map<nat, int>, groups: seq<seq<Sample>>,
        latencies: seq<Sample>, id: nat, i: nat)
    requires c.Valid() && Grouped(c, latGroup, running, groups, latencies)
    requires id < c.nireq && id !in running
    ensures var after := if !c.inferenceOnly && c.pcseq then latGroup[id := i % c.groups] else latGroup;
            Grouped(c, after, running, groups, latencies) && after[id] == GroupFor(c, i)
  {
  }

  lemma Appended(xs: seq<int>, x: int)
    ensures NoDuplicates(xs + [x]) <==> NoDuplicates(xs) && x !in xs
    ensures forall y :: y in xs + [x] <==> y in xs || y == x
  {
    if NoDuplicates(xs + [x]) {
      forall i, j | 0 <= i < j < |xs| ensures xs[i] != xs[j] {
        assert (xs + [x])[i] == xs[i] && (xs + [x])[j] == xs[j];
      }
      forall i | 0 <= i < |xs| ensures xs[i] != x {
        assert (xs + [x])[i] == xs[i] && (xs + [x])[|xs|] == x;
      }
    }
  }

  lemma {:induction false} SelectExactly(c: Config, latencies: seq<Sample>, g: nat)
    requires c.Valid() && NoDuplicates(Iterations(latencies))
    ensures NoDuplicates(Iterations(Select(c, latencies, g)))
    ensures forall i :: i in Iterations(Select(c, latencies, g)) <==> i in Iterations(latencies) && GroupFor(c, i) == g
  {
    if latencies != [] {
      var m := |latencies| - 1;
      var before, last := latencies[..m], latencies[m];
      assert Iterations(latencies) == Iterations(before) + [last.iteration];
      Appended(Iterations(before), last.iteration);
      SelectExactly(c, before, g);
      var selected := Select(c, before, g);
      if GroupFor(c, last.iteration) == g {
        assert Iterations(selected + [last]) == Iterations(selected) + [last.iteration];
        Appended(Iterations(selected), last.iteration);
      } else {
        assert selected + [] == selected;
      }
    }
  }

  lemma {:induction false} GroupCount(c: Config, n: nat, g: nat)
    requires c.Valid() && g < c.groups && c.pcseq
    ensures |OfGroup(c, n, g)| == GroupSize(c, n, g)
  {
    hide GroupFor, GroupSize;
    if n == 0 {
      NoneYet(c, g);
    } else {
      GroupCount(c, n - 1, g);
      OneMore(c, n - 1, g);
      assert n - 1 !in OfGroup(c, n - 1, g);
    }
  }

  lemma NoneYet(c: Config, g: nat)
    requires c.Valid()
    ensures GroupSize(c, 0, g) == 0
  {
  }

  lemma OneMore(c: Config, n: nat, g: nat)
    requires c.Valid() && g < c.groups && c.pcseq
    ensures GroupSize(c, n + 1, g) == GroupSize(c, n, g) + One(GroupFor(c, n) == g)
  {
    NextInTurn(n, c.groups, n / c.groups, n % c.groups);
  }

  lemma NextInTurn(n: nat, groups: nat, q: nat, r: nat)
    requires groups > 0 && q == n / groups && r == n % groups
    ensures if r + 1 == groups then (n + 1) / groups == q + 1 && (n + 1) % groups == 0
            else (n + 1) / groups == q && (n + 1) % groups == r + 1
  {
    assert n == q * groups + r;
    if r + 1 == groups {
      assert (q + 1) * groups + 0 == q * groups + groups == n + 1;
      DivMod(q + 1, groups, 0);
    } else {
      DivMod(q, groups, r + 1);
    }
  }

  lemma Finished(c: Config, latGroup: seq<nat>, latencies: seq<Sample>, groups: seq<seq<Sample>>, n: nat)
    requires c.Valid() && Grouped(c, latGroup, map[], groups, latencies)
    requires Booked(Iterations(latencies), map[], Started(n))
    ensures Recorded(c, latencies, groups, n)
  {
    AllRecorded(latencies, Started(n));
    forall g | c.pcseq && 0 <= g < c.groups
      ensures Exactly(Iterations(groups[g]), OfGroup(c, n, g))
      ensures |groups[g]| == GroupSize(c, n, g)
    {
      SelectExactly(c, latencies, g);
      var mine := OfGroup(c, n, g);
      Counted(Iterations(groups[g]));
      assert Elements(Iterations(groups[g])) == mine;
      GroupCount(c, n, g);
    }
  }

  // ----- The program and the runtime under it -----

  // How a run ends early: a callback reported an exception, which the next wait
  // rethrows, or infer() itself threw.
  datatype Exception = Rethrown | InferThrew

  // `running` is the work of the inference runtime: which request executes which
  // iteration. `latGroup` holds each request's latency group id.
  class Benchmark {
    const cfg: Config
    const queue: InferRequestsQueue<Sample>
    var latGroup: seq<nat>
    var running: map<nat, int>

    constructor (cfg: Config)
      requires cfg.Valid()
      ensures this.cfg == cfg && fresh(queue) && Valid({}, {})
      ensures latGroup == seq(cfg.nireq, _ => 0)
    {
      this.cfg := cfg;
      queue := new InferRequestsQueue(cfg.nireq, cfg.groups, cfg.pcseq);
      latGroup := seq(cfg.nireq, _ => 0);
      running := map[];
      new;
      forall id: nat ensures Places(Pool({}), id) == One(id < cfg.nireq) {
        if id < cfg.nireq { assert queue.idleIds[id] == id; }
      }
    }

    // The pool seen as a state of its protocol, with the main thread awake.
    ghost function Pool(held: set<nat>): State<Sample>
      reads this, queue
    {
      State(cfg.nireq, queue.State(), Running, held, running.Keys, {})
    }

    // Once an inference has failed, nothing more is claimed.
    ghost predicate Valid(held: set<nat>, started: set<int>)
      reads this, queue
    {
      && cfg.Valid() && queue.nireq == cfg.nireq && queue.enableLatGroups == cfg.pcseq
      && Grouped(cfg, latGroup, running, queue.latencyGroups, queue.latencies)
      && (forall id | id in running :: id < cfg.nireq)
      && (!queue.inferenceException ==>
            Partitioned(Pool(held)) && Booked(Iterations(queue.latencies), running, started))
    }

    // A run ends early only when an inference has failed; only infer() throws directly.
    predicate Explained(e: Exception)
      reads queue
    {
      if e.Rethrown? then queue.inferenceException else !cfg.async
    }

    lemma GroupFacts(id: nat)
      requires cfg.Valid() && Grouped(cfg, latGroup, running, queue.latencyGroups, queue.latencies) && id < cfg.nireq
      ensures id < |latGroup| && latGroup[id] < |queue.latencyGroups|
      ensures id in running ==> latGroup[id] == GroupFor(cfg, running[id])
    {
    }

    // One inference finishes, well or badly, and its callback runs.
    method CompleteOne(ghost held: set<nat>, ghost started: set<int>)
      requires Valid(held, started) && running != map[]
      modifies this`running, queue
      ensures Valid(held, started)
      ensures |running| < |old(running)| && running.Keys <= old(running).Keys
    {
      hide Grouped, Booked, Partitioned, Put, GroupFor, Select;
      var id :| id in running;
      var ms: real := *;
      var sample := Sample(running[id], ms);
      var exception: bool := *;
      GroupFacts(id);
      ghost var s, done, was := Pool(held), Iterations(queue.latencies), running;
      PutKeepsGroups(cfg, latGroup, running, queue.State(), id, sample, exception);
      queue.PutIdleRequest(id, latGroup[id], sample, exception);
      running := running - {id};
      PutAppends(s.q, cfg.pcseq, id, latGroup[id], sample, exception);
      if !queue.inferenceException {
        StepKeepsInv(s, cfg.pcseq, Complete(id, latGroup[id], sample, false));
        assert Pool(held) == Next(s, cfg.pcseq, Complete(id, latGroup[id], sample, false));
        BookDone(done, was, started, id);
        assert Iterations(queue.latencies) == done + [sample.iteration];
      }
    }

    // While the main thread does something else, requests may finish.
    method Interfere(ghost held: set<nat>, ghost started: set<int>)
      requires Valid(held, started)
      modifies this`running, queue
      ensures Valid(held, started) && running.Keys <= old(running).Keys
    {
      var more: bool := *;
      while more && running != map[]
        invariant Valid(held, started) && running.Keys <= old(running).Keys
        decreases |running|
      {
        CompleteOne(held, started);
        more := *;
      }
    }

    // get_idle_request: sleep, letting requests finish, until the predicate holds.
    method GetIdleRequest(ghost started: set<int>) returns (r: Result<nat, Exception>)
      requires Valid({}, started)
      modifies this`running, queue
      ensures r.Success? ==> !queue.inferenceException && Valid({r.value}, started) && r.value < cfg.nireq
      ensures r.Failure? ==> Explained(r.error) && r.error == Rethrown
    {
      hide Grouped, Booked, Partitioned;
      Interfere({}, started);
      while true
        invariant Valid({}, started)
        decreases |running|
      {
        ghost var s := Pool({});
        var a, id := queue.TryGetIdleRequest();
        if a.Throws? { return Failure(Rethrown); }
        TestKeepsInv(s, Get);
        if a.Returns? {
          assert s.q.idle == [id] + queue.idleIds;
          assert Pool({id}) == Tested(s, Get);
          HeldExists(Pool({id}), id);
          assert queue.State() == s.q.(idle := queue.idleIds);
          return Success(id);
        }
        Pending(s);
        CompleteOne({}, started);
      }
    }

    method WaitAll(ghost started: set<int>) returns (r: Result<(), Exception>)
      requires Valid({}, started)
      modifies this`running, queue
      ensures r.Success? ==> !queue.inferenceException && Valid({}, started) && running == map[]
      ensures r.Failure? ==> Explained(r.error) && r.error == Rethrown
    {
      hide Grouped, Booked, Partitioned;
      Interfere({}, started);
      while true
        invariant Valid({}, started)
        decreases |running|
      {
        ghost var s := Pool({});
        var a := queue.TryWaitAll();
        if a.Throws? { return Failure(Rethrown); }
        WaitAllReturnsAtRest(s);
        if a.Returns? {
          assert running.Keys == {};
          return Success(());
        }
        CompleteOne({}, started);
      }
    }

    // start_async, or infer with the callback in the same thread.
    method Launch(id: nat, i: int, ghost started: set<int>) returns (r: Result<(), Exception>)
      requires Valid({id}, started) && i !in started && id !in running
      requires id < cfg.nireq && latGroup[id] == GroupFor(cfg, i)
      modifies this`running, queue
      ensures r.Success? ==> Valid({}, started + {i})
      ensures r.Failure? ==> Explained(r.error)
    {
      hide Grouped, Booked, Partitioned, Put, GroupFor, Select;
      ghost var s, done, was := Pool({id}), Iterations(queue.latencies), running;
      if !queue.inferenceException { BookStart(done, running, started, id, i); }
      if cfg.async {
        GroupStart(cfg, latGroup, running, queue.State(), id, i);
        running := running[id := i];
        if !queue.inferenceException {
          StepKeepsInv(s, cfg.pcseq, StartAsync(id));
          assert Pool({}) == Next(s, cfg.pcseq, StartAsync(id));
        }
      } else {
        var throws: bool := *;
        if throws { return Failure(InferThrew); }
        assert running[id := i] - {id} == running == running - {id};
        var ms: real := *;
        var sample := Sample(i, ms);
        GroupFacts(id);
        PutKeepsGroups(cfg, latGroup, running, queue.State(), id, sample, false);
        queue.PutIdleRequest(id, latGroup[id], sample, false);
        PutAppends(s.q, cfg.pcseq, id, latGroup[id], sample, false);
        if !queue.inferenceException {
          BookDone(done, was[id := i], started + {i}, id);
          StepKeepsInv(s, cfg.pcseq, InferSync(id, latGroup[id], sample));
          assert Pool({}) == Next(s, cfg.pcseq, InferSync(id, latGroup[id], sample));
          assert Iterations(queue.latencies) == done + [i];
        }
      }
      r := Success(());
    }

    // One inference that is not measured; its latency is printed and forgotten.
    method WarmUp() returns (r: Result<real, Exception>)
      requires Valid({}, {}) && latGroup == seq(cfg.nireq, _ => 0)
      modifies this`running, queue
      ensures r.Success? ==> !queue.inferenceException && Valid({}, Started(0))
      ensures r.Failure? ==> Explained(r.error)
    {
      hide Grouped, Booked, Partitioned, Exactly;
      var got := GetIdleRequest({});
      if got.Failure? { return Failure(got.error); }
      ghost var warm := {} + {WARM_UP};
      IdNotRunning(Pool({got.value}), got.value);
      var launched := Launch(got.value, WARM_UP, {});
      if launched.Failure? { return Failure(launched.error); }
      var waited := WaitAll(warm);
      if waited.Failure? { return Failure(waited.error); }
      AllRecorded(queue.latencies, warm);
      r := Success(queue.latencies[0].ms);
      ghost var s := Pool({});
      GroupsKept();
      queue.ResetTimes();
      StepKeepsInv(s, cfg.pcseq, Reset);
      assert Pool({}) == Next(s, cfg.pcseq, Reset);
      Restart(cfg, latGroup, queue.State());
    }

    lemma GroupsKept()
      requires cfg.Valid() && Grouped(cfg, latGroup, running, queue.latencyGroups, queue.latencies)
      ensures |queue.latencyGroups| == cfg.groups && |latGroup| == cfg.nireq
    {
    }

    // The body of the loop. Other requests may finish, or fail, at any point of it.
    method Iterate(iteration: nat) returns (r: Result<(), Exception>)
      requires Valid({}, Started(iteration))
      modifies this, queue
      ensures r.Success? ==> Valid({}, Started(iteration + 1))
      ensures r.Failure? ==> Explained(r.error)
    {
      hide Grouped, Booked, Partitioned, GroupFor;
      ghost var started := Started(iteration);
      var idle := GetIdleRequest(started);
      if idle.Failure? { return Failure(idle.error); }
      var id := idle.value;
      IdNotRunning(Pool({id}), id);
      Interfere({id}, started);
      GroupsKept();
      GroupSet(cfg, latGroup, running, queue.latencyGroups, queue.latencies, id, iteration);
      if !cfg.inferenceOnly && cfg.pcseq {
        latGroup := latGroup[id := iteration % cfg.groups];
      }
      Interfere({id}, started);
      r := Launch(id, iteration, started);
      assert started + {iteration} == Started(iteration + 1);
    }

    // The measurement: warm-up, loop and final wait. `elapsed(k)` is the time that
    // has passed when the loop condition is tested for the k-th time; time does
    // pass, so from `patience` tests on it exceeds the duration.
    method Measure(elapsed: nat -> nat, ghost patience: nat) returns (r: Result<nat, Exception>)
      requires Valid({}, {}) && latGroup == seq(cfg.nireq, _ => 0)
      requires forall k | k >= patience :: elapsed(k) >= cfg.duration
      modifies this, queue
      ensures r.Success? ==> Stops(cfg, r.value) && RightCount(cfg, elapsed, r.value)
      ensures r.Success? ==> Recorded(cfg, queue.latencies, queue.latencyGroups, r.value)
      ensures r.Failure? ==> Explained(r.error)
    {
      hide Grouped, Booked, Partitioned, Aligned, Recorded, RoundUp, Continues, Stops, Last, Started, RightCount;
      var warm := WarmUp();
      if warm.Failure? { return Failure(warm.error); }

      var iteration := 0;
      ghost var bound := RoundUp(if Aligned(cfg) > patience then Aligned(cfg) else patience, cfg.nireq);
      while Continues(cfg, iteration, elapsed(iteration))
        invariant Valid({}, Started(iteration))
        invariant iteration <= bound
        invariant cfg.duration == 0 ==> iteration <= Last(cfg)
        invariant forall k | 0 <= k < iteration :: Continues(cfg, k, elapsed(k))
        decreases bound - iteration
      {
        NotYetLast(cfg, iteration, elapsed(iteration), patience);
        var done := Iterate(iteration);
        if done.Failure? { return Failure(done.error); }
        iteration := iteration + 1;
      }
      Stopped(cfg, iteration, elapsed(iteration));
      StoppedRight(cfg, elapsed, iteration);
      var waited := WaitAll(Started(iteration));
      if waited.Failure? { return Failure(waited.error); }
      Finished(cfg, latGroup, queue.latencies, queue.latencyGroups, iteration);
      r := Success(iteration);
    }
  }

  // From building the request pool to the final wait.
  method RunBenchmark(cfg: Config, elapsed: nat -> nat, ghost patience: nat)
    returns (b: Benchmark, r: Result<nat, Exception>)
    requires cfg.Valid()
    requires forall k | k >= patience :: elapsed(k) >= cfg.duration
    ensures b.cfg == cfg
    ensures r.Success? ==> Stops(cfg, r.value) && RightCount(cfg, elapsed, r.value)
    ensures r.Success? ==> Recorded(cfg, b.queue.latencies, b.queue.latencyGroups, r.value)
    ensures r.Failure? ==> b.Explained(r.error)
  {
    hide Stops, Recorded, RightCount;
    b := new Benchmark(cfg);
    r := b.Measure(elapsed, patience);
  }
}
