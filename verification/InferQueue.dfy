// The pool of inference requests shared by the measuring thread and the completion
// callbacks, openvino/samples/cpp/benchmark_app/infer_request_wrap.hpp.
module InferQueue {
  import opened Wrappers

  // ----- What is done under the mutex -----

  datatype Queue<T> = Queue(idle: seq<nat>, latencies: seq<T>, groups: seq<seq<T>>, failed: bool)

  function Put<T>(q: Queue<T>, enableGroups: bool, id: nat, group: nat, latency: T, exception: bool): Queue<T>
    requires enableGroups ==> group < |q.groups|
  {
    if exception then q.(failed := true)
    else Queue(q.idle + [id],
               q.latencies + [latency],
               if enableGroups then q.groups[group := q.groups[group] + [latency]] else q.groups,
               q.failed)
  }

  datatype Call = Get | WaitAll

  // The result of evaluating the predicate of a wait once.
  datatype Attempt = Throws | Blocks | Returns

  function Evaluate<T>(q: Queue<T>, nireq: nat, call: Call): Attempt {
    if q.failed then Throws
    else if (if call.Get? then |q.idle| > 0 else |q.idle| == nireq) then Returns
    else Blocks
  }

  class InferRequestsQueue<T> {
    const nireq: nat
    const enableLatGroups: bool
    var idleIds: seq<nat>
    var latencies: seq<T>
    var latencyGroups: seq<seq<T>>
    var inferenceException: bool

    constructor (nireq: nat, latGroups: nat, enableLatGroups: bool)
      ensures this.nireq == nireq && this.enableLatGroups == enableLatGroups
      ensures State() == Queue(seq(nireq, i => i), [], seq(latGroups, _ => []), false)
    {
      this.nireq, this.enableLatGroups := nireq, enableLatGroups;
      latencies, latencyGroups, inferenceException := [], seq(latGroups, _ => []), false;
      new;
      idleIds := [];
      var id := 0;
      while id < nireq
        invariant id <= nireq && idleIds == seq(id, i => i)
        invariant latencies == [] && latencyGroups == seq(latGroups, _ => []) && !inferenceException
        modifies `idleIds
      {
        idleIds := idleIds + [id];
        id := id + 1;
      }
    }

    function State(): Queue<T>
      reads this
    {
      Queue(idleIds, latencies, latencyGroups, inferenceException)
    }

    method ResetTimes()
      modifies this
      ensures State() == old(State()).(latencies := [], groups := seq(|old(latencyGroups)|, _ => []))
    {
      latencies := [];
      var g := 0;
      while g < |latencyGroups|
        invariant g <= |latencyGroups| == |old(latencyGroups)|
        invariant latencyGroups[..g] == seq(g, _ => [])
        invariant idleIds == old(idleIds) && latencies == [] && inferenceException == old(inferenceException)
      {
        latencyGroups := latencyGroups[g := []];
        g := g + 1;
      }
    }

    method PutIdleRequest(id: nat, group: nat, latency: T, exception: bool)
      requires enableLatGroups ==> group < |latencyGroups|
      modifies this
      ensures State() == Put(old(State()), enableLatGroups, id, group, latency, exception)
    {
      if exception {
        inferenceException := true;
      } else {
        latencies := latencies + [latency];
        if enableLatGroups {
          latencyGroups := latencyGroups[group := latencyGroups[group] + [latency]];
        }
        idleIds := idleIds + [id];
      }
    }

    // One evaluation of the predicate of get_idle_request, and its critical section.
    method TryGetIdleRequest() returns (a: Attempt, id: nat)
      modifies this
      ensures a == Evaluate(old(State()), nireq, Get)
      ensures a.Returns? ==> old(idleIds) == [id] + idleIds && State() == old(State()).(idle := idleIds)
      ensures !a.Returns? ==> State() == old(State())
    {
      if inferenceException { return Throws, 0; }
      if !(|idleIds| > 0) { return Blocks, 0; }
      id := idleIds[0];
      idleIds := idleIds[1..];
      a := Returns;
    }

    // One evaluation of the predicate of wait_all.
    method TryWaitAll() returns (a: Attempt)
      ensures a == Evaluate(State(), nireq, WaitAll)
    {
      if inferenceException { return Throws; }
      a := if |idleIds| == nireq then Returns else Blocks;
    }
  }

  // ----- The protocol -----

  // The thread that calls get_idle_request and wait_all. `notified` tells whether
  // the condition variable was signalled since it fell asleep.
  datatype Main = Running | Sleeping(call: Call, notified: bool) | Thrown

  // Besides the queue: which requests the main thread holds, which the runtime is
  // executing, and which ended in an exception.
  datatype State<T> = State(nireq: nat, q: Queue<T>, main: Main, held: set<nat>, running: set<nat>, broken: set<nat>)

  datatype Action<T> =
    | Enter(call: Call)                                        // calls get_idle_request or wait_all
    | Wake                                                     // returns from the wait, perhaps spuriously
    | StartAsync(id: nat)
    | InferSync(id: nat, group: nat, latency: T)               // infer() and its callback
    | Complete(id: nat, group: nat, latency: T, exception: bool) // callback of an asynchronous request
    | Reset

  predicate Enabled<T>(s: State<T>, enableGroups: bool, a: Action<T>) {
    match a
    case Enter(_) => s.main.Running?
    case Wake => s.main.Sleeping?
    case StartAsync(id) => s.main.Running? && id in s.held
    case InferSync(id, group, _) => s.main.Running? && id in s.held && (enableGroups ==> group < |s.q.groups|)
    case Complete(id, group, _, _) => id in s.running && (enableGroups ==> group < |s.q.groups|)
    case Reset => s.main.Running?
  }

  function Tested<T>(s: State<T>, call: Call): State<T> {
    match Evaluate(s.q, s.nireq, call)
    case Throws => s.(main := Thrown)
    case Blocks => s.(main := Sleeping(call, false))
    case Returns =>
      if call.Get?
      then s.(main := Running, held := s.held + {s.q.idle[0]}, q := s.q.(idle := s.q.idle[1..]))
      else s.(main := Running)
  }

  function Notified(m: Main): Main {
    if m.Sleeping? then m.(notified := true) else m
  }

  function Next<T>(s: State<T>, enableGroups: bool, a: Action<T>): State<T>
    requires Enabled(s, enableGroups, a)
  {
    match a
    case Enter(call) => Tested(s, call)
    case Wake => Tested(s, s.main.call)
    case StartAsync(id) => s.(held := s.held - {id}, running := s.running + {id})
    case InferSync(id, group, latency) =>
      s.(held := s.held - {id}, q := Put(s.q, enableGroups, id, group, latency, false))
    case Complete(id, group, latency, exception) =>
      s.(running := s.running - {id},
         broken := if exception then s.broken + {id} else s.broken,
         q := Put(s.q, enableGroups, id, group, latency, exception),
         main := Notified(s.main))
    case Reset => s.(q := s.q.(latencies := [], groups := seq(|s.q.groups|, _ => [])))
  }

  function Init<T>(nireq: nat, latGroups: nat): State<T> {
    State(nireq, Queue(seq(nireq, i => i), [], seq(latGroups, _ => []), false), Running, {}, {}, {})
  }

  // ----- Facts over every run -----

  ghost predicate NoDuplicates<X>(xs: seq<X>) {
    forall i, j | 0 <= i < j < |xs| :: xs[i] != xs[j]
  }

  function Elements<X>(xs: seq<X>): set<X> {
    set x | x in xs
  }

  function Ids(n: nat): (r: set<nat>)
    ensures |r| == n && forall id: nat :: id in r <==> id < n
  {
    if n == 0 then {} else Ids(n - 1) + {n - 1}
  }

  function One(b: bool): nat {
    if b then 1 else 0
  }

  // In how many of the four places request id is.
  function Places<T>(s: State<T>, id: nat): nat {
    One(id in s.q.idle) + One(id in s.held) + One(id in s.running) + One(id in s.broken)
  }

  // Idle, held, running and broken requests are exactly the requests 0..nireq, each
  // in one place, the idle queue names none twice, and a broken request has raised
  // the exception.
  ghost predicate Partitioned<T>(s: State<T>) {
    && NoDuplicates(s.q.idle)
    && (forall id: nat :: Places(s, id) == One(id < s.nireq))
    && (s.broken != {} <==> s.q.failed)
  }

  // A sleeper nobody has notified has nothing to wake up for.
  ghost predicate NoLostWakeUp<T>(s: State<T>) {
    s.main.Sleeping? && !s.main.notified ==> Evaluate(s.q, s.nireq, s.main.call) == Blocks
  }

  ghost predicate Inv<T>(s: State<T>) {
    Partitioned(s) && NoLostWakeUp(s)
  }

  lemma TestKeepsInv<T>(s: State<T>, call: Call)
    requires Partitioned(s)
    ensures Inv(Tested(s, call))
  {
    var s' := Tested(s, call);
    if Evaluate(s.q, s.nireq, call).Returns? && call.Get? {
      assert s.q.idle == [s.q.idle[0]] + s'.q.idle;
      assert s.q.idle[0] !in s'.q.idle;
    }
    forall id: nat ensures Places(s', id) == Places(s, id) {}
  }

  lemma StepKeepsInv<T>(s: State<T>, enableGroups: bool, a: Action<T>)
    requires Inv(s) && Enabled(s, enableGroups, a)
    ensures Inv(Next(s, enableGroups, a))
  {
    match a
    case Enter(call) => TestKeepsInv(s, call);
    case Wake => TestKeepsInv(s, s.main.call);
    case StartAsync(id) => MoveKeepsInv(s, enableGroups, a, id);
    case InferSync(id, _, _) => MoveKeepsInv(s, enableGroups, a, id);
    case Complete(id, _, _, _) => MoveKeepsInv(s, enableGroups, a, id);
    case Reset => forall id: nat ensures Places(Next(s, enableGroups, a), id) == Places(s, id) {}
  }

  // The steps that move request x from one place to another.
  lemma MoveKeepsInv<T>(s: State<T>, enableGroups: bool, a: Action<T>, x: nat)
    requires Inv(s) && Enabled(s, enableGroups, a)
    requires (a.StartAsync? || a.InferSync? || a.Complete?) && a.id == x
    ensures Inv(Next(s, enableGroups, a))
  {
    var s' := Next(s, enableGroups, a);
    assert Places(s, x) == 1;
    forall id: nat ensures Places(s', id) == Places(s, id) {}
  }

  ghost predicate IsRun<T>(nireq: nat, latGroups: nat, enableGroups: bool, actions: seq<Action<T>>, ss: seq<State<T>>) {
    && |ss| == |actions| + 1 && ss[0] == Init(nireq, latGroups)
    && forall i | 0 <= i < |actions| ::
         Enabled(ss[i], enableGroups, actions[i]) && ss[i + 1] == Next(ss[i], enableGroups, actions[i])
  }

  lemma {:induction false} RunKeepsInv<T>(nireq: nat, latGroups: nat, enableGroups: bool,
        actions: seq<Action<T>>, ss: seq<State<T>>)
    requires IsRun(nireq, latGroups, enableGroups, actions, ss)
    ensures forall i | 0 <= i < |ss| :: Inv(ss[i])
  {
    var m := |actions|;
    if m == 0 {
      forall id: nat ensures Places(ss[0], id) == One(id < nireq) {
        if id < nireq { assert ss[0].q.idle[id] == id; }
      }
    } else {
      RunKeepsInv(nireq, latGroups, enableGroups, actions[..m - 1], ss[..m]);
      assert Inv(ss[..m][m - 1]);
      StepKeepsInv(ss[m - 1], enableGroups, actions[m - 1]);
      forall i | 0 <= i < |ss| ensures Inv(ss[i]) {
        if i < m { assert ss[i] == ss[..m][i]; }
      }
    }
  }

  // What a step hands out and what it puts back.
  function HandedOut<T>(s: State<T>, a: Action<T>): seq<nat> {
    if (a == Enter(Get) || (a.Wake? && s.main.Sleeping? && s.main.call == Get)) && !s.q.failed && s.q.idle != []
    then [s.q.idle[0]] else []
  }

  function PutBack<T>(a: Action<T>): seq<nat> {
    if a.InferSync? || (a.Complete? && !a.exception) then [a.id] else []
  }

  function AllHandedOut<T>(actions: seq<Action<T>>, ss: seq<State<T>>): seq<nat>
    requires |ss| >= |actions|
  {
    if actions == [] then []
    else
      var m := |actions| - 1;
      AllHandedOut(actions[..m], ss) + HandedOut(ss[m], actions[m])
  }

  function AllPutBack<T>(actions: seq<Action<T>>): seq<nat> {
    if actions == [] then []
    else
      var m := |actions| - 1;
      AllPutBack(actions[..m]) + PutBack(actions[m])
  }

  lemma StepInOrder<T>(s: State<T>, enableGroups: bool, a: Action<T>)
    requires Enabled(s, enableGroups, a)
    ensures s.q.idle + PutBack(a) == HandedOut(s, a) + Next(s, enableGroups, a).q.idle
  {
  }

  // Requests are handed out in the order in which they became idle, at first 0, 1, ...
  lemma {:induction false} IdleInOrder<T>(nireq: nat, latGroups: nat, enableGroups: bool,
        actions: seq<Action<T>>, ss: seq<State<T>>)
    requires IsRun(nireq, latGroups, enableGroups, actions, ss)
    ensures seq(nireq, i => i) + AllPutBack(actions) == AllHandedOut(actions, ss) + ss[|actions|].q.idle
  {
    var m := |actions| - 1;
    if m >= 0 {
      hide Next;
      IdleInOrder(nireq, latGroups, enableGroups, actions[..m], ss[..m + 1]);
      SameHandedOut(actions[..m], ss[..m + 1], ss);
      StepInOrder(ss[m], enableGroups, actions[m]);
      assert ss[m + 1] == Next(ss[m], enableGroups, actions[m]);
      InOrder(seq(nireq, i => i), AllPutBack(actions[..m]), PutBack(actions[m]),
              AllHandedOut(actions[..m], ss), HandedOut(ss[m], actions[m]), ss[m].q.idle, ss[m + 1].q.idle);
    }
  }

  lemma InOrder(first: seq<nat>, back: seq<nat>, b: seq<nat>, out: seq<nat>, o: seq<nat>, idle: seq<nat>,
                idle': seq<nat>)
    requires first + back == out + idle && idle + b == o + idle'
    ensures first + (back + b) == (out + o) + idle'
  {
    assert first + (back + b) == (first + back) + b == out + (idle + b);
    assert (out + o) + idle' == out + (o + idle');
  }

  lemma {:induction false} SameHandedOut<T>(actions: seq<Action<T>>, ss: seq<State<T>>, ss': seq<State<T>>)
    requires |ss| >= |actions| && |ss'| >= |ss| && ss == ss'[..|ss|]
    ensures AllHandedOut(actions, ss) == AllHandedOut(actions, ss')
  {
    if actions != [] {
      SameHandedOut(actions[..|actions| - 1], ss, ss');
    }
  }

  // get_idle_request hands out a request that nobody is using.
  lemma GetReturnsIdle<T>(s: State<T>)
    requires Inv(s) && Evaluate(s.q, s.nireq, Get).Returns?
    ensures var id := s.q.idle[0];
            && id !in s.running + s.held + s.broken
            && Tested(s, Get).held == s.held + {id} && id !in Tested(s, Get).q.idle
  {
    assert Places(s, s.q.idle[0]) == 1;
  }

  lemma {:induction false} Counted<X>(xs: seq<X>)
    requires NoDuplicates(xs)
    ensures |Elements(xs)| == |xs|
  {
    if xs != [] {
      var m := |xs| - 1;
      Counted(xs[..m]);
      assert xs == xs[..m] + [xs[m]];
      assert Elements(xs) == Elements(xs[..m]) + {xs[m]};
    } else {
      assert Elements(xs) == {};
    }
  }

  lemma {:induction false} FullSubset<X>(s: set<X>, t: set<X>)
    requires s <= t && |s| == |t|
    ensures s == t
  {
    if x :| x in s {
      FullSubset(s - {x}, t - {x});
    }
  }

  lemma OnlyIdle<T>(s: State<T>, id: nat)
    requires Inv(s) && (id < s.nireq ==> id in s.q.idle)
    ensures id !in s.running && id !in s.held && id !in s.broken
  {
    assert Places(s, id) == One(id < s.nireq);
  }

  // wait_all returns normally exactly when every request is back.
  lemma WaitAllReturnsAtRest<T>(s: State<T>)
    requires Inv(s)
    ensures Evaluate(s.q, s.nireq, WaitAll).Returns? <==> s.running == {} && s.held == {} && s.broken == {}
  {
    var idle := Elements(s.q.idle);
    Counted(s.q.idle);
    forall id | id in idle ensures id in Ids(s.nireq) {
      assert Places(s, id) == One(id < s.nireq);
    }
    if |s.q.idle| == s.nireq {
      FullSubset(idle, Ids(s.nireq));
      forall id: nat ensures id !in s.running && id !in s.held && id !in s.broken {
        assert id in idle <==> id in Ids(s.nireq);
        OnlyIdle(s, id);
      }
    }
    if s.running == {} && s.held == {} && s.broken == {} {
      forall id: nat ensures id in idle <==> id in Ids(s.nireq) {
        assert Places(s, id) == One(id < s.nireq);
      }
      assert idle == Ids(s.nireq);
    }
  }

  // A sleeping main thread that holds no request is never stuck: either it has been
  // notified already, or the runtime still owes a completion, which will notify it.
  lemma SleeperIsServed<T>(s: State<T>)
    requires Inv(s) && s.main.Sleeping? && s.held == {} && s.nireq > 0
    ensures s.main.notified || s.running != {}
  {
    WaitAllReturnsAtRest(s);
    assert Places(s, 0) == 1;
  }

  // The steps that evaluate a predicate; after one of them a sleeper is not notified yet.
  predicate Tests<T>(a: Action<T>) {
    a.Enter? || a.Wake?
  }

  // A sleeper has been notified exactly when a request has completed since it last looked.
  lemma {:induction false} NotifiedByCompletion<T>(nireq: nat, latGroups: nat, enableGroups: bool,
        actions: seq<Action<T>>, ss: seq<State<T>>, k: nat)
    requires IsRun(nireq, latGroups, enableGroups, actions, ss) && k <= |actions| && ss[k].main.Sleeping?
    ensures ss[k].main.notified <==>
      exists i | 0 <= i < k :: actions[i].Complete? && forall j | i < j < k :: !Tests(actions[j])
  {
    assert ss[0].main == Running;
    var a, s := actions[k - 1], ss[k - 1];
    assert Enabled(s, enableGroups, a) && ss[k] == Next(s, enableGroups, a);
    if !Tests(a) {
      NotifiedByCompletion(nireq, latGroups, enableGroups, actions, ss, k - 1);
      assert a.Complete?;
    } else {
      assert Tests(actions[k - 1]);
    }
  }

  // Nothing clears the exception.
  lemma FailureStays<T>(s: State<T>, enableGroups: bool, a: Action<T>)
    requires Enabled(s, enableGroups, a) && (s.q.failed || (a.Complete? && a.exception))
    ensures Next(s, enableGroups, a).q.failed
  {
  }

  // Once an inference has failed, in every later state of the run it still has, and any
  // call to get_idle_request or wait_all, and any wake-up, throws.
  lemma {:induction false} FailureIsFinal<T>(nireq: nat, latGroups: nat, enableGroups: bool, actions: seq<Action<T>>,
        ss: seq<State<T>>, i: nat, k: nat, call: Call)
    requires IsRun(nireq, latGroups, enableGroups, actions, ss) && i < |actions| && i < k < |ss|
    requires ss[i].q.failed || (actions[i].Complete? && actions[i].exception)
    ensures ss[k].q.failed && Evaluate(ss[k].q, nireq, call) == Throws
    ensures k < |actions| && (actions[k].Enter? || actions[k].Wake?) ==> ss[k + 1].main == Thrown
    decreases k
  {
    if k == i + 1 {
      FailureStays(ss[i], enableGroups, actions[i]);
    } else {
      FailureIsFinal(nireq, latGroups, enableGroups, actions, ss, i, k - 1, call);
      FailureStays(ss[k - 1], enableGroups, actions[k - 1]);
    }
    if k < |actions| && (actions[k].Enter? || actions[k].Wake?) {
      assert ss[k + 1] == Next(ss[k], enableGroups, actions[k]);
    }
  }
}
