// Averaging performance counters over inference requests,
// openvino/samples/cpp/benchmark_app/statistics_report.cpp.
module Counters {

  // Times in microseconds; `details` stands for the status and type fields.
  datatype Info = Info(name: string, realTime: int, cpuTime: int, details: string)

  // Which of the two times.
  datatype Clock = Real | Cpu

  function Time(i: Info, c: Clock): int {
    if c.Real? then i.realTime else i.cpuTime
  }

  function Sum(infos: seq<Info>, c: Clock): int {
    if infos == [] then 0 else Sum(infos[..|infos| - 1], c) + Time(infos[|infos| - 1], c)
  }

  function Total(infos: seq<Info>, name: string, c: Clock): int {
    if infos == [] then 0
    else
      var last := infos[|infos| - 1];
      Total(infos[..|infos| - 1], name, c) + if last.name == name then Time(last, c) else 0
  }

  // The index of the first entry with a name, or the length.
  function First(infos: seq<Info>, name: string): (k: nat)
    ensures k <= |infos|
    ensures k < |infos| ==> infos[k].name == name
    ensures forall j | 0 <= j < k :: infos[j].name != name
    decreases |infos|
  {
    if infos == [] then 0
    else
      var k := First(infos[..|infos| - 1], name);
      if k < |infos| - 1 || infos[|infos| - 1].name == name then k else |infos|
  }

  function Flat(perf: seq<seq<Info>>): seq<Info> {
    if perf == [] then [] else Flat(perf[..|perf| - 1]) + perf[|perf| - 1]
  }

  // Dividing integers in C++ truncates towards zero.
  function Divide(t: int, n: nat): int
    requires n > 0
  {
    if t >= 0 then t / n else -(-t / n)
  }

  // An entry with the first appearance's details and both totals of its name.
  ghost predicate Totalled(a: Info, infos: seq<Info>) {
    && First(infos, a.name) < |infos|
    && a.details == infos[First(infos, a.name)].details
    && forall c: Clock :: Time(a, c) == Total(infos, a.name, c)
  }

  // One entry per name, in the order of first appearance.
  ghost predicate OnePerName(avg: seq<Info>, infos: seq<Info>) {
    && (forall i, j | 0 <= i < j < |avg| :: First(infos, avg[i].name) < First(infos, avg[j].name))
    && (forall info | info in infos :: Has(avg, info.name))
  }

  predicate Has(avg: seq<Info>, name: string) {
    exists a | a in avg :: a.name == name
  }

  ghost predicate Gathered(avg: seq<Info>, infos: seq<Info>) {
    OnePerName(avg, infos) && forall i | 0 <= i < |avg| :: Totalled(avg[i], infos)
  }

  lemma FirstAppend(infos: seq<Info>, pm: Info, name: string)
    ensures First(infos + [pm], name) ==
      if First(infos, name) < |infos| then First(infos, name) else if pm.name == name then |infos| else |infos| + 1
  {
    assert (infos + [pm])[..|infos|] == infos;
  }

  lemma TotalAppend(infos: seq<Info>, pm: Info, name: string, c: Clock)
    ensures Total(infos + [pm], name, c) == Total(infos, name, c) + if pm.name == name then Time(pm, c) else 0
  {
    assert (infos + [pm])[..|infos|] == infos;
  }

  lemma {:induction false} TotalAbsent(infos: seq<Info>, name: string, c: Clock)
    requires First(infos, name) == |infos|
    ensures Total(infos, name, c) == 0
  {
    if infos != [] {
      TotalAbsent(infos[..|infos| - 1], name, c);
    }
  }

  function Plus(a: Info, pm: Info): Info {
    a.(realTime := a.realTime + pm.realTime, cpuTime := a.cpuTime + pm.cpuTime)
  }

  lemma TotalledMore(a: Info, infos: seq<Info>, pm: Info)
    requires Totalled(a, infos)
    ensures Totalled(if a.name == pm.name then Plus(a, pm) else a, infos + [pm])
    ensures First(infos + [pm], a.name) == First(infos, a.name)
  {
    hide First, Total;
    FirstAppend(infos, pm, a.name);
    TotalAppend(infos, pm, a.name, Real);
    TotalAppend(infos, pm, a.name, Cpu);
  }

  lemma TotalledFirst(infos: seq<Info>, pm: Info)
    requires First(infos, pm.name) == |infos|
    ensures Totalled(pm, infos + [pm]) && First(infos + [pm], pm.name) == |infos|
  {
    hide First, Total;
    FirstAppend(infos, pm, pm.name);
    forall c: Clock ensures Time(pm, c) == Total(infos + [pm], pm.name, c) {
      TotalAppend(infos, pm, pm.name, c);
      TotalAbsent(infos, pm.name, c);
    }
  }

  // Two entries never share a name.
  lemma Distinct(avg: seq<Info>, infos: seq<Info>, i: nat, j: nat)
    requires OnePerName(avg, infos) && i < |avg| && j < |avg| && avg[i].name == avg[j].name
    ensures i == j
  {
  }

  // Adding a counter to the entry of its name.
  lemma AddToEntry(avg: seq<Info>, infos: seq<Info>, idx: nat, pm: Info)
    requires Gathered(avg, infos) && idx < |avg| && avg[idx].name == pm.name
    ensures Gathered(avg[idx := Plus(avg[idx], pm)], infos + [pm])
  {
    hide Totalled, First, Has;
    var more, after := infos + [pm], avg[idx := Plus(avg[idx], pm)];
    forall i | 0 <= i < |avg|
      ensures Totalled(after[i], more) && First(more, avg[i].name) == First(infos, avg[i].name)
    {
      TotalledMore(avg[i], infos, pm);
      if avg[i].name == pm.name { Distinct(avg, infos, i, idx); }
    }
    forall info | info in more ensures Has(after, info.name) {
      assert info in infos || info == pm;
      SameNames(avg, idx, pm, info.name);
    }
  }

  lemma SameNames(avg: seq<Info>, idx: nat, pm: Info, name: string)
    requires idx < |avg| && avg[idx].name == pm.name
    requires Has(avg, name) || name == pm.name
    ensures Has(avg[idx := Plus(avg[idx], pm)], name)
  {
    var after := avg[idx := Plus(avg[idx], pm)];
    if name == pm.name {
      assert after[idx] in after;
    } else {
      var i :| 0 <= i < |avg| && avg[i].name == name;
      assert after[i] == avg[i];
    }
  }

  // A new entry for a new name.
  lemma AddEntry(avg: seq<Info>, infos: seq<Info>, pm: Info)
    requires Gathered(avg, infos) && !Has(avg, pm.name)
    ensures Gathered(avg + [pm], infos + [pm])
  {
    hide Totalled, First;
    var more, after := infos + [pm], avg + [pm];
    NewName(avg, infos, pm.name);
    TotalledFirst(infos, pm);
    forall i | 0 <= i < |avg|
      ensures Totalled(avg[i], more) && First(more, avg[i].name) == First(infos, avg[i].name) < |infos|
    {
      assert avg[i] in avg;
      TotalledMore(avg[i], infos, pm);
      Within(avg[i], infos);
    }
    forall info | info in more ensures Has(after, info.name) {
      if info == pm {
        assert pm in after;
      } else {
        assert info in infos;
        var a :| a in avg && a.name == info.name;
        assert a in after;
      }
    }
  }

  lemma Within(a: Info, infos: seq<Info>)
    requires Totalled(a, infos)
    ensures First(infos, a.name) < |infos|
  {
  }

  lemma NewName(avg: seq<Info>, infos: seq<Info>, name: string)
    requires OnePerName(avg, infos) && !Has(avg, name)
    ensures First(infos, name) == |infos|
  {
    forall k | 0 <= k < |infos| ensures infos[k].name != name {}
  }

  function DividedBy(i: Info, n: nat): Info
    requires n > 0
  {
    i.(realTime := Divide(i.realTime, n), cpuTime := Divide(i.cpuTime, n))
  }

  // The averages of n requests whose counters are `infos`: one entry per name, in the
  // order of first appearance, with each name's total divided by n.
  ghost predicate Averages(avg: seq<Info>, infos: seq<Info>, n: nat) {
    && OnePerName(avg, infos)
    && (n == 0 ==> avg == [])
    && (n > 0 ==> forall i | 0 <= i < |avg| :: Averaged(avg[i], infos, n))
  }

  ghost predicate Averaged(a: Info, infos: seq<Info>, n: nat)
    requires n > 0
  {
    && First(infos, a.name) < |infos|
    && a.details == infos[First(infos, a.name)].details
    && forall c: Clock :: Time(a, c) == Divide(Total(infos, a.name, c), n)
  }

  lemma AverageTotalled(a: Info, infos: seq<Info>, n: nat)
    requires Totalled(a, infos) && n > 0
    ensures Averaged(DividedBy(a, n), infos, n)
  {
    hide First, Total, Divide;
    forall c: Clock ensures Time(DividedBy(a, n), c) == Divide(Total(infos, a.name, c), n) {
      assert Time(a, c) == Total(infos, a.name, c);
    }
  }

  method AddCounter(avg: seq<Info>, pm: Info, ghost infos: seq<Info>) returns (r: seq<Info>)
    requires Gathered(avg, infos)
    ensures Gathered(r, infos + [pm])
  {
    hide Gathered;
    r := avg;
    var idx := 0;
    while idx < |r|
      invariant idx <= |r| && r == avg && forall i | 0 <= i < idx :: avg[i].name != pm.name
    {
      if r[idx].name == pm.name {
        AddToEntry(avg, infos, idx, pm);
        r := r[idx := Plus(r[idx], pm)];
        return;
      }
      idx := idx + 1;
    }
    AddEntry(avg, infos, pm);
    r := r + [pm];
  }

  method GetAveragePerformanceCounters(perf: seq<seq<Info>>) returns (avg: seq<Info>)
    ensures Averages(avg, Flat(perf), |perf|)
  {
    hide Gathered, Averaged, Flat;
    avg := [];
    NothingGathered();
    ghost var infos: seq<Info> := [];
    for i := 0 to |perf|
      invariant infos == Flat(perf[..i]) && Gathered(avg, infos)
      invariant i == 0 ==> avg == []
    {
      FlatMore(perf, i);
      for j := 0 to |perf[i]|
        invariant infos == Flat(perf[..i]) + perf[i][..j] && Gathered(avg, infos)
      {
        avg := AddCounter(avg, perf[i][j], infos);
        infos := infos + [perf[i][j]];
        assert perf[i][..j] + [perf[i][j]] == perf[i][..j + 1];
      }
      assert perf[i][..|perf[i]|] == perf[i];
    }
    assert perf[..|perf|] == perf;
    ghost var totals := avg;
    for k := 0 to |avg|
      invariant |avg| == |totals| && avg[k..] == totals[k..]
      invariant |perf| > 0 ==> forall i | 0 <= i < k :: avg[i] == DividedBy(totals[i], |perf|)
    {
      assert avg[k] == avg[k..][0] == totals[k];
      avg := avg[k := DividedBy(avg[k], |perf|)];
    }
    if |perf| > 0 { AverageAll(totals, infos, |perf|, avg); } else { AllFromNothing(avg); }
  }

  lemma NothingGathered()
    ensures Gathered([], []) && Flat([]) == []
  {
  }

  lemma AllFromNothing(avg: seq<Info>)
    requires avg == []
    ensures Averages(avg, Flat([]), 0)
  {
  }

  lemma FlatMore(perf: seq<seq<Info>>, i: nat)
    requires i < |perf|
    ensures Flat(perf[..i + 1]) == Flat(perf[..i]) + perf[i]
  {
    assert perf[..i + 1][..i] == perf[..i];
  }

  lemma AverageAll(totals: seq<Info>, infos: seq<Info>, n: nat, avg: seq<Info>)
    requires Gathered(totals, infos) && n > 0 && |avg| == |totals|
    requires forall i | 0 <= i < |avg| :: avg[i] == DividedBy(totals[i], n)
    ensures Averages(avg, infos, n)
  {
    hide Totalled, Averaged, First;
    forall i | 0 <= i < |avg| ensures Averaged(avg[i], infos, n) {
      AverageTotalled(totals[i], infos, n);
    }
    forall info | info in infos ensures Has(avg, info.name) {
      var i :| 0 <= i < |totals| && totals[i].name == info.name;
      assert avg[i] in avg;
    }
  }

  // ----- Conservation -----

  // The totals of all names.
  function SumTotals(avg: seq<Info>, infos: seq<Info>, c: Clock): int {
    if avg == [] then 0 else Total(infos, avg[0].name, c) + SumTotals(avg[1..], infos, c)
  }

  lemma {:induction false} SumTotalsStep(avg: seq<Info>, infos: seq<Info>, pm: Info, c: Clock)
    requires forall i, j | 0 <= i < j < |avg| :: avg[i].name != avg[j].name
    ensures SumTotals(avg, infos + [pm], c) == SumTotals(avg, infos, c) + if Has(avg, pm.name) then Time(pm, c) else 0
  {
    if avg != [] {
      TotalAppend(infos, pm, avg[0].name, c);
      SumTotalsStep(avg[1..], infos, pm, c);
      assert avg == [avg[0]] + avg[1..];
    }
  }

  // Every counter is in the total of exactly one name.
  lemma {:induction false} TotalsAddUp(avg: seq<Info>, infos: seq<Info>, c: Clock)
    requires forall i, j | 0 <= i < j < |avg| :: avg[i].name != avg[j].name
    requires forall info | info in infos :: Has(avg, info.name)
    ensures SumTotals(avg, infos, c) == Sum(infos, c)
  {
    if infos == [] {
      NoTotals(avg, c);
    } else {
      var m := |infos| - 1;
      TotalsAddUp(avg, infos[..m], c);
      assert infos == infos[..m] + [infos[m]];
      SumTotalsStep(avg, infos[..m], infos[m], c);
    }
  }

  lemma {:induction false} NoTotals(avg: seq<Info>, c: Clock)
    ensures SumTotals(avg, [], c) == 0
  {
    if avg != [] { NoTotals(avg[1..], c); }
  }

  function SumTimes(avg: seq<Info>, c: Clock): int {
    if avg == [] then 0 else Time(avg[0], c) + SumTimes(avg[1..], c)
  }

  lemma {:induction false} TotalNotNegative(infos: seq<Info>, name: string, c: Clock)
    requires forall info | info in infos :: Time(info, c) >= 0
    ensures Total(infos, name, c) >= 0
  {
    if infos != [] { TotalNotNegative(infos[..|infos| - 1], name, c); }
  }

  lemma Quotient(t: int, n: nat)
    requires n > 0 && t >= 0
    ensures n * Divide(t, n) <= t < n * Divide(t, n) + n
  {
  }

  // Division drops the fraction of negative times too.
  lemma DivideTruncates(t: int, n: nat)
    requires n > 0
    ensures t >= 0 ==> n * Divide(t, n) <= t < n * Divide(t, n) + n
    ensures t <= 0 ==> n * Divide(t, n) - n < t <= n * Divide(t, n)
  {
    if t >= 0 {
      Quotient(t, n);
    } else {
      Quotient(-t, n);
      assert n * -Divide(-t, n) == -(n * Divide(-t, n));
    }
  }

  // Whatever the signs, averaging is off by less than n microseconds for each name.
  lemma {:induction false} NearTotals(avg: seq<Info>, infos: seq<Info>, n: nat, c: Clock)
    requires n > 0
    requires forall i | 0 <= i < |avg| :: Time(avg[i], c) == Divide(Total(infos, avg[i].name, c), n)
    ensures -(n - 1) * |avg| <= SumTotals(avg, infos, c) - n * SumTimes(avg, c) <= (n - 1) * |avg|
  {
    hide Divide, Total;
    if avg != [] {
      var t, rest := Total(infos, avg[0].name, c), avg[1..];
      DivideTruncates(t, n);
      NearTotals(rest, infos, n, c);
      assert n * SumTimes(avg, c) == n * Time(avg[0], c) + n * SumTimes(rest, c);
      assert (n - 1) * |avg| == (n - 1) * |rest| + (n - 1);
    }
  }

  lemma AveragesNear(avg: seq<Info>, infos: seq<Info>, n: nat, c: Clock)
    requires n > 0 && Averages(avg, infos, n)
    ensures -(n - 1) * |avg| <= Sum(infos, c) - n * SumTimes(avg, c) <= (n - 1) * |avg|
  {
    hide First, Divide, Total;
    forall i | 0 <= i < |avg| ensures Time(avg[i], c) == Divide(Total(infos, avg[i].name, c), n) {
      assert Averaged(avg[i], infos, n);
    }
    TotalsAddUp(avg, infos, c);
    NearTotals(avg, infos, n, c);
  }

  lemma {:induction false} RoundedDown(avg: seq<Info>, infos: seq<Info>, n: nat, c: Clock)
    requires n > 0
    requires forall info | info in infos :: Time(info, c) >= 0
    requires forall i | 0 <= i < |avg| :: Time(avg[i], c) == Divide(Total(infos, avg[i].name, c), n)
    ensures n * SumTimes(avg, c) <= SumTotals(avg, infos, c) <= n * SumTimes(avg, c) + (n - 1) * |avg|
  {
    hide Divide, Total;
    if avg != [] {
      var t, rest := Total(infos, avg[0].name, c), avg[1..];
      TotalNotNegative(infos, avg[0].name, c);
      Quotient(t, n);
      RoundedDown(rest, infos, n, c);
      assert n * SumTimes(avg, c) == n * Time(avg[0], c) + n * SumTimes(rest, c);
      assert (n - 1) * |avg| == (n - 1) * |rest| + (n - 1);
    }
  }

  // Averaging n requests loses less than n microseconds for each name.
  lemma LittleIsLost(avg: seq<Info>, infos: seq<Info>, n: nat, c: Clock)
    requires n > 0 && Averages(avg, infos, n)
    requires forall info | info in infos :: Time(info, c) >= 0
    ensures n * SumTimes(avg, c) <= Sum(infos, c) <= n * SumTimes(avg, c) + (n - 1) * |avg|
  {
    hide First, Divide, Total;
    forall i | 0 <= i < |avg| ensures Time(avg[i], c) == Divide(Total(infos, avg[i].name, c), n) {
      assert Averaged(avg[i], infos, n);
    }
    TotalsAddUp(avg, infos, c);
    RoundedDown(avg, infos, n, c);
  }
}
