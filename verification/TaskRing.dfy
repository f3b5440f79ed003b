// The task queue of src/mem/mem_ring.cc: a ring of two parallel arrays with one slot
// kept free, alone and between one producer and one consumer.
module TaskRing {
  import opened Wrappers

  newtype uint32 = x: int | 0 <= x < 0x1_0000_0000

  // ----- Slots -----

  // The k-th slot from `first` on, around a ring of the given size.
  function Slot(first: nat, k: nat, size: nat): (s: nat)
    requires first < size && k <= size
    ensures s < size
  {
    if first + k < size then first + k else first + k - size
  }

  lemma FirstSlot(first: nat, size: nat)
    requires first < size
    ensures Slot(first, 0, size) == first
  {
  }

  // How many slots lie between tail and head.
  function Count(head: nat, tail: nat, size: nat): (n: nat)
    requires head < size && tail < size
    ensures n < size
  {
    if tail <= head then head - tail else head + size - tail
  }

  lemma Successor(i: nat, size: nat)
    requires i < size
    ensures (i + 1) % size == Slot(i, 1, size)
  {
    if i + 1 == size {
      assert (i + 1) % size == 0;
    }
  }

  // The code's test for a full ring: one slot stays free.
  lemma FullExactly(head: nat, tail: nat, size: nat)
    requires head < size && tail < size
    ensures (head + 1) % size == tail <==> Count(head, tail, size) == size - 1
    ensures head == tail <==> Count(head, tail, size) == 0
    ensures Slot(tail, Count(head, tail, size), size) == head
  {
    Successor(head, size);
  }

  // The n pairs from slot `tail` on.
  function Window<T, D>(tasks: seq<T>, data: seq<D>, tail: nat, n: nat, size: nat): (w: seq<(T, D)>)
    requires tail < size <= |tasks| && |tasks| == |data| && n < size
    ensures |w| == n
  {
    seq(n, k requires 0 <= k < n => (tasks[Slot(tail, k, size)], data[Slot(tail, k, size)]))
  }

  // Writing the slot after the window adds a pair to it.
  lemma WindowGrows<T, D>(tasks: seq<T>, data: seq<D>, tail: nat, n: nat, size: nat, task: T, datum: D)
    requires tail < size <= |tasks| && |tasks| == |data| && n + 1 < size
    ensures var h := Slot(tail, n, size);
      Window(tasks[h := task], data[h := datum], tail, n + 1, size) ==
        Window(tasks, data, tail, n, size) + [(task, datum)]
  {
  }

  lemma WindowShrinks<T, D>(tasks: seq<T>, data: seq<D>, tail: nat, n: nat, size: nat)
    requires tail < size <= |tasks| && |tasks| == |data| && 0 < n < size
    ensures Window(tasks, data, Slot(tail, 1, size), n - 1, size) == Window(tasks, data, tail, n, size)[1..]
  {
  }

  lemma CountMoves(head: nat, tail: nat, size: nat)
    requires head < size && tail < size
    ensures Count(head, tail, size) < size - 1 ==> Count(Slot(head, 1, size), tail, size) == Count(head, tail, size) + 1
    ensures Count(head, tail, size) > 0 ==> Count(head, Slot(tail, 1, size), size) == Count(head, tail, size) - 1
  {
  }

  // ----- A bounded queue -----

  // What a caller of pop sees: the data only when asked for.
  function Seen<T, D>(pair: (T, D), wantData: bool): (T, Option<D>) {
    (pair.0, if wantData then Some(pair.1) else None)
  }

  class Ring<T(0), D(0)> {
    var head: uint32
    var tail: uint32
    var size: uint32
    var tasks: array<T>
    var data: array<D>

    // Every pair ever accepted by a push and handed out by a pop.
    ghost var accepted: seq<(T, D)>
    ghost var taken: seq<(T, D)>

    ghost predicate Shaped()
      reads this
    {
      && head < size && tail < size
      && size as nat <= tasks.Length && tasks.Length == data.Length && tasks as object != data as object
    }

    // First in, first out: what was handed out is a prefix of what was accepted, and
    // the rest is in the ring, in order.
    ghost predicate Valid()
      reads this, tasks, data
    {
      Shaped() && accepted == taken + Contents()
    }

    ghost function Contents(): (q: seq<(T, D)>)
      requires Shaped()
      reads this, tasks, data
      ensures |q| < size as nat
    {
      Window(tasks[..], data[..], tail as nat, Count(head as nat, tail as nat, size as nat), size as nat)
    }

    // The arrays get the requested number of slots, of which the ring uses what
    // is left of it in 32 bits. When that is nothing the other operations, which
    // divide by it, cannot be called.
    constructor (size: nat)
      ensures this.size as nat == size % 0x1_0000_0000 && head == tail == 0
      ensures tasks.Length == data.Length == size && fresh(tasks) && fresh(data)
      ensures accepted == taken == []
      ensures size % 0x1_0000_0000 != 0 <==> Valid()
    {
      tasks, data := new T[size], new D[size];
      this.size, head, tail := (size % 0x1_0000_0000) as uint32, 0, 0;
      accepted, taken := [], [];
    }

    predicate IsFull()
      requires Shaped()
      reads this
    {
      Successor(head as nat, size as nat);
      (head as int + 1) % size as int == tail as int
    }

    predicate IsEmpty()
      reads this
    {
      head == tail
    }

    // (index + 1) % size in 32 bits
    function Following(index: uint32): (next: uint32)
      requires Shaped() && index < size
      reads this
      ensures next as nat == Slot(index as nat, 1, size as nat)
    {
      Successor(index as nat, size as nat);
      (index + 1) % size
    }

    method PushTask(task: T, datum: D) returns (ok: bool)
      requires Valid()
      modifies this`head, this`accepted, tasks, data
      ensures Valid()
      ensures ok <==> |old(Contents())| < size as nat - 1
      ensures accepted == if ok then old(accepted) + [(task, datum)] else old(accepted)
      ensures Contents() == if ok then old(Contents()) + [(task, datum)] else old(Contents())
    {
      hide Window, Count;
      FullExactly(head as nat, tail as nat, size as nat);
      if IsFull() {
        return false;
      }
      CountMoves(head as nat, tail as nat, size as nat);
      WindowGrows(tasks[..], data[..], tail as nat, Count(head as nat, tail as nat, size as nat), size as nat,
                  task, datum);
      tasks[head] := task;
      data[head] := datum;
      assert tasks[..] == old(tasks[..])[head as nat := task] && data[..] == old(data[..])[head as nat := datum];
      head := Following(head);
      accepted := accepted + [(task, datum)];
      return true;
    }

    method PopTask(wantData: bool) returns (r: Option<(T, Option<D>)>)
      requires Valid()
      modifies this`tail, this`taken
      ensures Valid()
      ensures r == None <==> old(Contents()) == []
      ensures r == None ==> Contents() == [] && taken == old(taken)
      ensures r.Some? ==> r.value == Seen(old(Contents())[0], wantData) && Contents() == old(Contents())[1..]
      ensures r.Some? ==> taken == old(taken) + [accepted[|old(taken)|]]
    {
      hide Count, Slot;
      FullExactly(head as nat, tail as nat, size as nat);
      if IsEmpty() {
        return None;
      }
      CountMoves(head as nat, tail as nat, size as nat);
      WindowShrinks(tasks[..], data[..], tail as nat, Count(head as nat, tail as nat, size as nat), size as nat);
      assert accepted[|taken|] == Contents()[0];
      FirstSlot(tail as nat, size as nat);
      var task := tasks[tail];
      var datum := None;
      if wantData {
        datum := Some(data[tail]);
      }
      r := Some((task, datum));
      taken := taken + [accepted[|taken|]];
      tail := Following(tail);
    }
  }

  // ----- One producer and one consumer -----

  // What each thread is about to do. A step is one statement, and a write may be
  // seen half done: until it is over its slot may hold anything.
  datatype Producer<T, D> =
    | Outside
    | WriteTask(task: T, datum: D)
    | WriteData(task: T, datum: D)
    | AdvanceHead(task: T, datum: D)

  datatype Consumer<T, D> =
    | Away
    | ReadTask(wantData: bool)
    | ReadData(wantData: bool, task: T)
    | AdvanceTail(seen: (T, Option<D>))

  // `pushed` and `popped` collect what the calls that returned true passed in and out.
  datatype State<T, D> = State(size: nat, head: nat, tail: nat, tasks: seq<T>, data: seq<D>,
                               producer: Producer<T, D>, consumer: Consumer<T, D>,
                               pushed: seq<(T, D)>, popped: seq<(T, Option<D>)>)

  datatype Action<T, D> =
    | StartPush(task: T, datum: D)
    | StartPop(wantData: bool)
    | Produce
    | Consume
    | Tear(junkTask: T, junkData: D)   // some words of the producer's current write

  predicate Enabled<T, D>(s: State<T, D>, a: Action<T, D>) {
    match a
    case StartPush(_, _) => s.producer.Outside?
    case StartPop(_) => s.consumer.Away?
    case Produce => !s.producer.Outside?
    case Consume => !s.consumer.Away?
    case Tear(_, _) => s.producer.WriteTask? || s.producer.WriteData?
  }

  ghost predicate InBounds<T, D>(s: State<T, D>) {
    s.head < s.size && s.tail < s.size && |s.tasks| == |s.data| == s.size
  }

  function Next<T, D>(s: State<T, D>, a: Action<T, D>): (r: State<T, D>)
    requires InBounds(s) && Enabled(s, a)
    ensures InBounds(r)
  {
    match a
    case StartPush(task, datum) =>
      if (s.head + 1) % s.size == s.tail then s else s.(producer := WriteTask(task, datum))
    case StartPop(wantData) =>
      if s.head == s.tail then s else s.(consumer := ReadTask(wantData))
    case Produce =>
      (match s.producer
       case Outside => s
       case WriteTask(task, datum) => s.(tasks := s.tasks[s.head := task], producer := WriteData(task, datum))
       case WriteData(task, datum) => s.(data := s.data[s.head := datum], producer := AdvanceHead(task, datum))
       case AdvanceHead(task, datum) =>
         s.(head := (s.head + 1) % s.size, producer := Outside, pushed := s.pushed + [(task, datum)]))
    case Consume =>
      (match s.consumer
       case Away => s
       case ReadTask(wantData) => s.(consumer := ReadData(wantData, s.tasks[s.tail]))
       case ReadData(wantData, task) =>
         s.(consumer := AdvanceTail((task, if wantData then Some(s.data[s.tail]) else None)))
       case AdvanceTail(seen) =>
         s.(tail := (s.tail + 1) % s.size, consumer := Away, popped := s.popped + [seen]))
    case Tear(junkTask, junkData) =>
      if s.producer.WriteTask? then s.(tasks := s.tasks[s.head := junkTask])
      else s.(data := s.data[s.head := junkData])
  }

  function InFlight<T, D>(s: State<T, D>): nat
    requires InBounds(s)
  {
    Count(s.head, s.tail, s.size)
  }

  // What pop handed out is, in order, what push accepted.
  ghost predicate Prefix<T, D>(popped: seq<(T, Option<D>)>, pushed: seq<(T, D)>) {
    && |popped| <= |pushed|
    && forall i | 0 <= i < |popped| :: popped[i] == Seen(pushed[i], popped[i].1.Some?)
  }

  // The producer has room for what it writes and has written it so far.
  ghost predicate ProducerInv<T, D>(s: State<T, D>)
    requires InBounds(s)
  {
    && (!s.producer.Outside? ==> InFlight(s) < s.size - 1)
    && (s.producer.WriteData? || s.producer.AdvanceHead? ==> s.tasks[s.head] == s.producer.task)
    && (s.producer.AdvanceHead? ==> s.data[s.head] == s.producer.datum)
  }

  // The consumer has something to read and has read the oldest pair so far.
  ghost predicate ConsumerInv<T, D>(s: State<T, D>)
    requires InBounds(s) && |s.pushed| == |s.popped| + InFlight(s)
  {
    && (!s.consumer.Away? ==> InFlight(s) > 0)
    && (s.consumer.ReadData? ==> s.consumer.task == s.pushed[|s.popped|].0)
    && (s.consumer.AdvanceTail? ==>
          s.consumer.seen == Seen(s.pushed[|s.popped|], s.consumer.seen.1.Some?))
  }

  ghost predicate Inv<T, D>(s: State<T, D>) {
    && InBounds(s)
    && |s.pushed| == |s.popped| + InFlight(s)
    && Prefix(s.popped, s.pushed)
    && Window(s.tasks, s.data, s.tail, InFlight(s), s.size) == s.pushed[|s.popped|..]
    && ProducerInv(s)
    && ConsumerInv(s)
  }

  // A slot outside the window may be written.
  lemma OutsideWindow<T, D>(s: State<T, D>, tasks: seq<T>, data: seq<D>)
    requires InBounds(s) && InFlight(s) < s.size
    requires |tasks| == |data| == s.size
    requires forall i | 0 <= i < s.size && i != s.head :: tasks[i] == s.tasks[i] && data[i] == s.data[i]
    ensures Window(tasks, data, s.tail, InFlight(s), s.size) == Window(s.tasks, s.data, s.tail, InFlight(s), s.size)
  {
  }

  lemma Oldest<T, D>(s: State<T, D>)
    requires InBounds(s) && InFlight(s) > 0
    ensures Window(s.tasks, s.data, s.tail, InFlight(s), s.size)[0] == (s.tasks[s.tail], s.data[s.tail])
  {
  }

  lemma WriteKeepsInv<T, D>(s: State<T, D>, a: Action<T, D>)
    requires Inv(s) && Enabled(s, a)
    requires a.Tear? || (a.Produce? && !s.producer.AdvanceHead?)
    ensures Inv(Next(s, a))
  {
    hide Count, Window, Prefix;
    OutsideWindow(s, Next(s, a).tasks, Next(s, a).data);
  }

  lemma PublishKeepsInv<T, D>(s: State<T, D>)
    requires Inv(s) && s.producer.AdvanceHead?
    ensures Inv(Next(s, Produce))
  {
    hide Count, Window, Slot, Prefix;
    var s', pair := Next(s, Produce), (s.producer.task, s.producer.datum);
    Successor(s.head, s.size);
    FullExactly(s.head, s.tail, s.size);
    CountMoves(s.head, s.tail, s.size);
    WindowGrows(s.tasks, s.data, s.tail, InFlight(s), s.size, pair.0, pair.1);
    assert s.tasks == s.tasks[s.head := pair.0] && s.data == s.data[s.head := pair.1];
    assert s'.pushed[|s'.popped|..] == s.pushed[|s.popped|..] + [pair];
    PrefixGrows(s.popped, s.pushed, pair);
  }

  lemma PrefixGrows<T, D>(popped: seq<(T, Option<D>)>, pushed: seq<(T, D)>, pair: (T, D))
    requires Prefix(popped, pushed)
    ensures Prefix(popped, pushed + [pair])
  {
  }

  lemma AdvanceKeepsInv<T, D>(s: State<T, D>)
    requires Inv(s) && s.consumer.AdvanceTail?
    ensures Inv(Next(s, Consume))
  {
    hide Count, Window, Slot;
    var s' := Next(s, Consume);
    Successor(s.tail, s.size);
    CountMoves(s.head, s.tail, s.size);
    WindowShrinks(s.tasks, s.data, s.tail, InFlight(s), s.size);
    assert s'.pushed[|s'.popped|..] == s.pushed[|s.popped|..][1..];
  }

  lemma ReadKeepsInv<T, D>(s: State<T, D>)
    requires Inv(s) && (s.consumer.ReadTask? || s.consumer.ReadData?)
    ensures Inv(Next(s, Consume))
  {
    hide Count, Window, Slot, Prefix;
    Oldest(s);
    assert s.pushed[|s.popped|..][0] == s.pushed[|s.popped|];
  }

  lemma StartKeepsInv<T, D>(s: State<T, D>, a: Action<T, D>)
    requires Inv(s) && Enabled(s, a) && (a.StartPush? || a.StartPop?)
    ensures Inv(Next(s, a))
  {
    hide Count, Window, Prefix;
    FullExactly(s.head, s.tail, s.size);
  }

  lemma StepKeepsInv<T, D>(s: State<T, D>, a: Action<T, D>)
    requires Inv(s) && Enabled(s, a)
    ensures Inv(Next(s, a))
  {
    hide Inv, Next;
    match a
    case StartPush(_, _) => StartKeepsInv(s, a);
    case StartPop(_) => StartKeepsInv(s, a);
    case Tear(_, _) => WriteKeepsInv(s, a);
    case Produce => if s.producer.AdvanceHead? { PublishKeepsInv(s); } else { WriteKeepsInv(s, a); }
    case Consume => if s.consumer.AdvanceTail? { AdvanceKeepsInv(s); } else { ReadKeepsInv(s); }
  }

  function Init<T, D>(size: nat, tasks: seq<T>, data: seq<D>): State<T, D> {
    State(size, 0, 0, tasks, data, Outside, Away, [], [])
  }

  ghost predicate Run<T, D>(s: State<T, D>, run: seq<Action<T, D>>, end: State<T, D>)
    decreases |run|
  {
    if run == [] then end == s
    else InBounds(s) && Enabled(s, run[0]) && Run(Next(s, run[0]), run[1..], end)
  }

  lemma {:induction false} RunKeepsInv<T, D>(s: State<T, D>, run: seq<Action<T, D>>, end: State<T, D>)
    requires Inv(s) && Run(s, run, end)
    ensures Inv(end)
    decreases |run|
  {
    hide Inv, Next;
    if run != [] {
      StepKeepsInv(s, run[0]);
      RunKeepsInv(Next(s, run[0]), run[1..], end);
    }
  }

  // Whatever the interleaving, pops hand out a prefix of the accepted pushes, the
  // rest is stored in order, and at most size - 1 pairs are.
  lemma FirstInFirstOut<T, D>(size: nat, tasks: seq<T>, data: seq<D>, run: seq<Action<T, D>>, end: State<T, D>)
    requires size >= 1 && |tasks| == |data| == size
    requires Run(Init(size, tasks, data), run, end)
    ensures InBounds(end) && Prefix(end.popped, end.pushed)
    ensures InFlight(end) < end.size
    ensures Window(end.tasks, end.data, end.tail, InFlight(end), end.size) == end.pushed[|end.popped|..]
  {
    var s := Init(size, tasks, data);
    assert Window(s.tasks, s.data, s.tail, InFlight(s), s.size) == s.pushed[|s.popped|..];
    RunKeepsInv(s, run, end);
  }

  // What the pops of a run that found something had asked for, in order.
  function Asked<T, D>(s: State<T, D>, run: seq<Action<T, D>>, end: State<T, D>): seq<bool>
    requires Run(s, run, end)
    decreases |run|
  {
    if run == [] then []
    else
      (if run[0].StartPop? && s.head != s.tail then [run[0].wantData] else [])
      + Asked(Next(s, run[0]), run[1..], end)
  }

  // The pops so far, the one going on included, give data when asked to.
  ghost predicate Answers<T, D>(s: State<T, D>, asked: seq<bool>) {
    && |asked| == |s.popped| + (if s.consumer.Away? then 0 else 1)
    && (forall i | 0 <= i < |s.popped| :: s.popped[i].1.Some? == asked[i])
    && match s.consumer
       case Away => true
       case ReadTask(wantData) => wantData == asked[|s.popped|]
       case ReadData(wantData, _) => wantData == asked[|s.popped|]
       case AdvanceTail(seen) => seen.1.Some? == asked[|s.popped|]
  }

  lemma {:induction false} RunAnswers<T, D>(s: State<T, D>, run: seq<Action<T, D>>, end: State<T, D>, asked: seq<bool>)
    requires Run(s, run, end) && Answers(s, asked)
    ensures Answers(end, asked + Asked(s, run, end))
    decreases |run|
  {
    if run == [] {
      assert asked + [] == asked;
    } else {
      var next := Next(s, run[0]);
      var more := if run[0].StartPop? && s.head != s.tail then [run[0].wantData] else [];
      RunAnswers(next, run[1..], end, asked + more);
      assert asked + more + Asked(next, run[1..], end) == asked + Asked(s, run, end);
    }
  }

  // The i-th pop hands out the i-th pair pushed: its task, and its data exactly when the
  // caller asked for it.
  lemma PopsAnswer<T, D>(size: nat, tasks: seq<T>, data: seq<D>, run: seq<Action<T, D>>, end: State<T, D>)
    requires size >= 1 && |tasks| == |data| == size
    requires Run(Init(size, tasks, data), run, end)
    ensures var asked := Asked(Init(size, tasks, data), run, end);
      && |end.popped| <= |end.pushed| && |end.popped| <= |asked|
      && forall i | 0 <= i < |end.popped| ::
           && end.popped[i].0 == end.pushed[i].0
           && end.popped[i].1 == if asked[i] then Some(end.pushed[i].1) else None
  {
    var s := Init(size, tasks, data);
    FirstInFirstOut(size, tasks, data, run, end);
    RunAnswers(s, run, end, []);
    assert [] + Asked(s, run, end) == Asked(s, run, end);
  }

  // A push without the consumer in between, its two writes possibly torn: three steps after
  // it has found room the pair counts as pushed.
  lemma PushAlone<T, D>(s: State<T, D>, task: T, datum: D, junkTask: T, junkData: D)
    requires Inv(s) && s.producer.Outside? && |s.pushed| - |s.popped| < s.size - 1
    ensures Enabled(s, StartPush(task, datum))
    ensures var s1 := Next(s, StartPush(task, datum));
      && Enabled(s1, Tear(junkTask, junkData))
      && var s1' := Next(s1, Tear(junkTask, junkData));
      && Enabled(s1', Produce)
      && var s2 := Next(s1', Produce);
      && Enabled(s2, Tear(junkTask, junkData))
      && var s2' := Next(s2, Tear(junkTask, junkData));
      && Enabled(s2', Produce)
      && var s3 := Next(s2', Produce);
      && Enabled(s3, Produce)
      && var s4 := Next(s3, Produce);
      && s1'.tasks == s1.tasks[s1.head := junkTask] && s2'.data == s2.data[s2.head := junkData]
      && s4.pushed == s.pushed + [(task, datum)] && s4.producer.Outside?
      && s4.popped == s.popped && s4.consumer == s.consumer
  {
    hide Window, Prefix, Slot;
    FullExactly(s.head, s.tail, s.size);
  }

  // A pop without the producer in between hands out the oldest pair.
  lemma PopAlone<T, D>(s: State<T, D>, wantData: bool)
    requires Inv(s) && s.consumer.Away? && |s.popped| < |s.pushed|
    ensures Enabled(s, StartPop(wantData))
    ensures var s1 := Next(s, StartPop(wantData));
      && Enabled(s1, Consume)
      && var s2 := Next(s1, Consume);
      && Enabled(s2, Consume)
      && var s3 := Next(s2, Consume);
      && Enabled(s3, Consume)
      && var s4 := Next(s3, Consume);
      && var oldest := s.pushed[|s.popped|];
      && s4.popped == s.popped + [(oldest.0, if wantData then Some(oldest.1) else None)] && s4.consumer.Away?
      && s4.pushed == s.pushed && s4.producer == s.producer
  {
    hide Window, Prefix, Slot, Count;
    FullExactly(s.head, s.tail, s.size);
    Oldest(s);
    assert s.pushed[|s.popped|..][0] == s.pushed[|s.popped|];
  }

  // The slot being written is never the slot being read.
  lemma NoSlotShared<T, D>(s: State<T, D>)
    requires Inv(s) && !s.producer.Outside? && !s.consumer.Away?
    ensures s.head != s.tail
  {
  }

  // push gives up exactly when size - 1 pairs are stored, pop when none is.
  lemma RefusedExactly<T, D>(s: State<T, D>, task: T, datum: D, wantData: bool)
    requires Inv(s)
    ensures s.producer.Outside? ==>
      (Next(s, StartPush(task, datum)) == s <==> |s.pushed| - |s.popped| == s.size - 1)
    ensures s.consumer.Away? ==>
      (Next(s, StartPop(wantData)) == s <==> |s.pushed| == |s.popped|)
  {
    FullExactly(s.head, s.tail, s.size);
  }
}
