// Values given per device on the command line,
// openvino/samples/cpp/benchmark_app/utils.cpp.
module DeviceValues {
  import opened Wrappers
  import opened Text

  // ----- std::map<std::string, std::string> -----

  // A map's entries in the order of iteration.
  type Entry = (string, string)

  // std::string's operator<
  predicate Less(a: string, b: string) {
    b != "" && (a == "" || a[0] < b[0] || (a[0] == b[0] && Less(a[1..], b[1..])))
  }

  lemma {:induction false} LessTransitive(a: string, b: string, c: string)
    requires Less(a, b) && Less(b, c)
    ensures Less(a, c)
  {
    if a != "" && a[0] == b[0] == c[0] {
      LessTransitive(a[1..], b[1..], c[1..]);
    }
  }

  lemma {:induction false} LessTotal(a: string, b: string)
    ensures !(Less(a, b) && Less(b, a))
    ensures !Less(a, b) && !Less(b, a) <==> a == b
  {
    if a != "" && b != "" && a[0] == b[0] {
      LessTotal(a[1..], b[1..]);
      assert a == [a[0]] + a[1..] && b == [b[0]] + b[1..];
    }
  }

  ghost predicate Sorted(es: seq<Entry>) {
    forall i, j | 0 <= i < j < |es| :: Less(es[i].0, es[j].0)
  }

  function Find(es: seq<Entry>, key: string): Option<string> {
    if es == [] then None else if es[0].0 == key then Some(es[0].1) else Find(es[1..], key)
  }

  // es[key] = value
  function Put(es: seq<Entry>, key: string, value: string): seq<Entry> {
    if es == [] then [(key, value)]
    else if es[0].0 == key then [(key, value)] + es[1..]
    else if Less(key, es[0].0) then [(key, value)] + es
    else [es[0]] + Put(es[1..], key, value)
  }

  // es.erase(key)
  function Erase(es: seq<Entry>, key: string): seq<Entry> {
    if es == [] then [] else (if es[0].0 == key then [] else [es[0]]) + Erase(es[1..], key)
  }

  lemma {:induction false} PutFinds(es: seq<Entry>, key: string, value: string, other: string)
    ensures Find(Put(es, key, value), other) == if other == key then Some(value) else Find(es, other)
  {
    if es != [] && es[0].0 != key {
      PutFinds(es[1..], key, value, other);
    }
  }

  lemma {:induction false} PutKeys(es: seq<Entry>, key: string, value: string, e: Entry)
    requires e in Put(es, key, value)
    ensures e == (key, value) || e in es
  {
    if es != [] && es[0].0 != key && !Less(key, es[0].0) && e != es[0] {
      PutKeys(es[1..], key, value, e);
    }
  }

  lemma {:induction false} PutKeepsSorted(es: seq<Entry>, key: string, value: string)
    requires Sorted(es)
    ensures Sorted(Put(es, key, value))
  {
    if es == [] || es[0].0 == key {
    } else if Less(key, es[0].0) {
      forall j | 0 <= j < |es| ensures Less(key, es[j].0) {
        if j > 0 { LessTransitive(key, es[0].0, es[j].0); }
      }
    } else {
      PutKeepsSorted(es[1..], key, value);
      var rest := Put(es[1..], key, value);
      LessTotal(key, es[0].0);
      forall j | 0 <= j < |rest| ensures Less(es[0].0, rest[j].0) {
        PutKeys(es[1..], key, value, rest[j]);
      }
    }
  }

  lemma {:induction false} PutLast(es: seq<Entry>, key: string, value: string)
    requires Sorted(es + [(key, value)])
    ensures Put(es, key, value) == es + [(key, value)]
  {
    if es != [] {
      var all := es + [(key, value)];
      assert all[0] == es[0] && all[|es|] == (key, value);
      LessTotal(es[0].0, key);
      assert all[1..] == es[1..] + [(key, value)];
      PutLast(es[1..], key, value);
    }
  }

  // ----- split -----

  // What std::getline leaves after an item.
  function Rest(s: string, c: char): string {
    if Until(s, c) < |s| then s[Until(s, c) + 1..] else ""
  }

  function Split(s: string, c: char): (items: seq<string>)
    ensures forall item | item in items :: c !in item
    decreases |s|
  {
    if s == "" then [] else [s[..Until(s, c)]] + Split(Rest(s, c), c)
  }

  method SplitString(s: string, c: char) returns (items: seq<string>)
    ensures items == Split(s, c)
  {
    items := [];
    var rest := s;
    while rest != ""
      invariant Split(s, c) == items + Split(rest, c)
      decreases |rest|
    {
      items := items + [rest[..Until(rest, c)]];
      rest := Rest(rest, c);
    }
  }

  function Join(items: seq<string>, c: char): string {
    if items == [] then ""
    else if |items| == 1 then items[0]
    else items[0] + [c] + Join(items[1..], c)
  }

  lemma SplitFirst(item: string, c: char, rest: string)
    requires c !in item
    ensures Split(item + [c] + rest, c) == [item] + Split(rest, c)
    ensures Split(item, c) == if item == "" then [] else [item]
  {
    UntilFound(item, c, rest);
    var s := item + [c] + rest;
    assert s[..|item|] == item && s[|item| + 1..] == rest;
    assert item[..|item|] == item;
    assert Split("", c) == [];
  }

  // Splitting undoes joining except for an empty last item, which getline never returns.
  lemma {:induction false} SplitJoined(items: seq<string>, c: char)
    requires forall item | item in items :: c !in item
    ensures Split(Join(items, c), c) ==
      if items != [] && items[|items| - 1] == "" then items[..|items| - 1] else items
  {
    hide Split;
    if items == [] {
      SplitFirst("", c, "");
    } else {
      var rest := items[1..];
      assert items == [items[0]] + rest;
      SplitFirst(items[0], c, Join(rest, c));
      if rest != [] {
        SplitJoined(rest, c);
        assert rest[|rest| - 1] == items[|items| - 1];
        assert items[..|items| - 1] == [items[0]] + rest[..|rest| - 1];
      }
    }
  }

  lemma {:induction false} JoinAppend(items: seq<string>, item: string, c: char)
    requires items != []
    ensures Join(items + [item], c) == Join(items, c) + [c] + item
  {
    if |items| > 1 {
      assert (items + [item])[1..] == items[1..] + [item];
      JoinAppend(items[1..], item, c);
      assert Join(items, c) + [c] + item == items[0] + [c] + (Join(items[1..], c) + [c] + item);
    }
  }

  // ----- parse_value_per_device -----

  datatype ParseError = UnknownDevice(name: string) | UnknownFormat

  function SetAll(es: seq<Entry>, devices: seq<string>, value: string): seq<Entry>
    decreases |devices|
  {
    if devices == [] then es else SetAll(Put(es, devices[0], value), devices[1..], value)
  }

  function Apply(es: seq<Entry>, devices: seq<string>, item: string): Result<seq<Entry>, ParseError> {
    var parts := Split(item, ':');
    if |parts| == 2 then
      if parts[0] in devices then Success(Put(es, parts[0], parts[1])) else Failure(UnknownDevice(parts[0]))
    else if |parts| == 1 then Success(SetAll(es, devices, parts[0]))
    else if |parts| != 0 then Failure(UnknownFormat)
    else Success(es)
  }

  function ApplyAll(es: seq<Entry>, devices: seq<string>, items: seq<string>): Result<seq<Entry>, ParseError>
    decreases |items|
  {
    if items == [] then Success(es)
    else
      match Apply(es, devices, items[0])
      case Failure(e) => Failure(e)
      case Success(next) => ApplyAll(next, devices, items[1..])
  }

  function ParseSpec(devices: seq<string>, values: string): Result<seq<Entry>, ParseError> {
    ApplyAll([], devices, Split(values, ','))
  }

  method ParseValuePerDevice(devices: seq<string>, values: string) returns (r: Result<seq<Entry>, ParseError>)
    ensures r == ParseSpec(devices, values)
  {
    hide Split, Put;
    var result: seq<Entry> := [];
    var items := SplitString(values, ',');
    var i := 0;
    while i < |items|
      invariant i <= |items| && ParseSpec(devices, values) == ApplyAll(result, devices, items[i..])
    {
      var parts := SplitString(items[i], ':');
      assert items[i..][0] == items[i] && items[i..][1..] == items[i + 1..];
      if |parts| == 2 {
        if parts[0] in devices {
          result := Put(result, parts[0], parts[1]);
        } else {
          return Failure(UnknownDevice(parts[0]));
        }
      } else if |parts| == 1 {
        result := SetEvery(result, devices, parts[0]);
      } else if |parts| != 0 {
        return Failure(UnknownFormat);
      }
      i := i + 1;
    }
    return Success(result);
  }

  method SetEvery(es: seq<Entry>, devices: seq<string>, value: string) returns (r: seq<Entry>)
    ensures r == SetAll(es, devices, value)
  {
    hide Put;
    r := es;
    for i := 0 to |devices|
      invariant SetAll(es, devices, value) == SetAll(r, devices[i..], value)
    {
      assert devices[i..][0] == devices[i] && devices[i..][1..] == devices[i + 1..];
      r := Put(r, devices[i], value);
    }
  }

  // ----- parse_value_for_virtual_device -----

  function Pair(e: Entry): string {
    e.0 + ":" + e.1
  }

  function Pairs(es: seq<Entry>): (items: seq<string>)
    ensures |items| == |es|
    ensures forall i | 0 <= i < |es| :: items[i] == Pair(es[i])
  {
    seq(|es|, i requires 0 <= i < |es| => Pair(es[i]))
  }

  // "{key:value,key:value" so far, and nothing before the first pair
  function Open(es: seq<Entry>): string {
    if es == [] then "" else "{" + Join(Pairs(es), ',')
  }

  lemma OpenAppend(es: seq<Entry>, e: Entry)
    ensures Open(es + [e]) == Open(es) + (if Open(es) == "" then "{" else ",") + e.0 + ":" + e.1
  {
    hide Pairs, Join;
    if es == [] {
      assert es + [e] == [e] && Join(Pairs([e]), ',') == Pair(e) by { PairAlone(e); }
      assert "{" + Pair(e) == "" + "{" + e.0 + ":" + e.1;
    } else {
      PairsAppend(es, e);
      assert "{" + (Join(Pairs(es), ',') + "," + Pair(e)) == Open(es) + "," + e.0 + ":" + e.1;
    }
  }

  lemma PairAlone(e: Entry)
    ensures Join(Pairs([e]), ',') == Pair(e)
  {
  }

  lemma PairsAppend(es: seq<Entry>, e: Entry)
    requires es != []
    ensures Join(Pairs(es + [e]), ',') == Join(Pairs(es), ',') + "," + Pair(e)
  {
    hide Join;
    assert Pairs(es + [e]) == Pairs(es) + [Pair(e)];
    JoinAppend(Pairs(es), Pair(e), ',');
  }

  // What a virtual device's values become.
  function Folded(device: string, es: seq<Entry>): seq<Entry> {
    var own, others := Find(es, device), Erase(es, device);
    if others == [] then es
    else if own.Some? && (device == "AUTO" || device == "HETERO") then [(device, own.value)]
    else [(device, Open(others) + "}")]
  }

  lemma {:induction false} EraseAppend(es: seq<Entry>, e: Entry, key: string)
    ensures Erase(es + [e], key) == if e.0 == key then Erase(es, key) else Erase(es, key) + [e]
  {
    if es != [] {
      assert (es + [e])[1..] == es[1..] + [e];
      EraseAppend(es[1..], e, key);
    }
  }

  lemma {:induction false} EraseNone(es: seq<Entry>, key: string)
    ensures Find(es, key) == None ==> Erase(es, key) == es
    ensures forall e | e in Erase(es, key) :: e in es && e.0 != key
    ensures |Erase(es, key)| <= |es|
  {
    if es != [] {
      EraseNone(es[1..], key);
      assert es == [es[0]] + es[1..];
    }
  }

  lemma {:induction false} EraseTwice(es: seq<Entry>, key: string)
    ensures Erase(Erase(es, key), key) == Erase(es, key)
  {
    EraseNone(es, key);
    NotFound(Erase(es, key), key);
    EraseNone(Erase(es, key), key);
  }

  lemma {:induction false} NotFound(es: seq<Entry>, key: string)
    requires forall e | e in es :: e.0 != key
    ensures Find(es, key) == None
  {
    if es != [] { NotFound(es[1..], key); }
  }

  lemma DistinctKeys(es: seq<Entry>, i: nat, j: nat)
    requires Sorted(es) && i < j < |es|
    ensures es[i].0 != es[j].0
  {
    LessTotal(es[i].0, es[j].0);
  }

  // Of several entries some stay whatever key is erased.
  lemma OthersRemain(es: seq<Entry>, key: string)
    requires Sorted(es) && |es| > 1
    ensures Erase(es, key) != []
  {
    DistinctKeys(es, 0, 1);
    assert es[1..][0] == es[1];
  }

  lemma {:induction false} EraseKeepsSorted(es: seq<Entry>, key: string)
    requires Sorted(es)
    ensures Sorted(Erase(es, key))
  {
    if es != [] {
      EraseKeepsSorted(es[1..], key);
      EraseNone(es[1..], key);
      var rest := Erase(es[1..], key);
      forall j | 0 <= j < |rest| ensures Less(es[0].0, rest[j].0) {
        assert rest[j] in es[1..];
      }
    }
  }

  lemma SingleEntry(es: seq<Entry>, key: string)
    requires |es| <= 1
    ensures Find(es, key).Some? ==> Erase(es, key) == []
  {
    if es != [] {
      assert es[1..] == [] && Find([], key) == None;
      assert Erase(es, key) == (if es[0].0 == key then [] else [es[0]]) + [];
    }
  }

  // es.erase(iterator)
  function EraseAt(es: seq<Entry>, k: nat): seq<Entry>
    requires k < |es|
  {
    es[..k] + es[k + 1..]
  }

  class ValuesPerDevice {
    var entries: seq<Entry>

    method ParseForVirtualDevice(device: string)
      requires Sorted(entries)
      modifies this
      ensures entries == Folded(device, old(entries))
    {
      hide Put, Open, Less, Erase, Find, Sorted;
      EraseNone(entries, device);
      if |entries| <= 1 { SingleEntry(entries, device); }
      var item := Find(entries, device);
      if item != None && |entries| > 1 {
        OthersRemain(entries, device);
        if device == "MULTI" {
          EraseTwice(entries, device);
          EraseKeepsSorted(entries, device);
          entries := Erase(entries, device);
        } else if device == "AUTO" || device == "HETERO" {
          PutOver([], device, item.value);
          entries := [];
          entries := Put(entries, device, item.value);
          return;
        }
      }
      FoldOthers(device);
    }

    method FoldOthers(device: string)
      requires Sorted(entries)
      modifies this
      ensures var others := Erase(old(entries), device);
        entries == if others == [] then old(entries) else [(device, Open(others) + "}")]
    {
      hide Put, Less, Sorted, Open, Erase, EraseAt;
      ghost var all, j: nat, at: nat, kept: seq<Entry> := entries, 0, 0, [];
      var ss, iter: nat := "", 0;
      Nothing(device);
      assert all[..0] == [] && all[0..] == all;
      while iter < |entries|
        invariant j <= |all| && entries == kept + all[j..] && iter == |kept|
        invariant kept == [] || (at < j && kept == [all[at]] && all[at].0 == device)
        invariant Erase(all[..j], device) == [] ==> kept == all[..j]
        invariant ss == Open(Erase(all[..j], device))
        decreases |all| - j
      {
        Remaining(all, kept, j);
        EraseAppend(all[..j], all[j], device);
        if entries[iter].0 == device {
          if kept != [] { DistinctKeys(all, at, j); }
          at, kept := j, [all[j]];
          iter := iter + 1;
        } else {
          OpenAppend(Erase(all[..j], device), all[j]);
          ss := ss + (if ss == "" then "{" else ",");
          ss := ss + entries[iter].0 + ":" + entries[iter].1;
          entries := EraseAt(entries, iter);
        }
        j := j + 1;
      }
      assert all[..j] == all && all[j..] == [] && entries == kept;
      Opened(Erase(all, device));
      if ss != "" {
        ss := ss + "}";
        PutOver(kept, device, ss);
        entries := Put(entries, device, ss);
      }
    }
  }

  lemma Remaining(all: seq<Entry>, kept: seq<Entry>, j: nat)
    requires j < |all|
    ensures var es := kept + all[j..];
      && es[|kept|] == all[j] && es == (kept + [all[j]]) + all[j + 1..]
      && EraseAt(es, |kept|) == kept + all[j + 1..]
    ensures all[..j + 1] == all[..j] + [all[j]]
  {
  }

  lemma Nothing(key: string)
    ensures Open(Erase([], key)) == "" && Erase([], key) == []
  {
  }

  lemma Opened(es: seq<Entry>)
    ensures Open(es) == "" <==> es == []
  {
  }

  lemma PutOver(kept: seq<Entry>, key: string, value: string)
    requires kept == [] || (|kept| == 1 && kept[0].0 == key)
    ensures Put(kept, key, value) == [(key, value)]
  {
  }

  // A virtual device keeps a value of its own exactly when nothing else is given, or for AUTO
  // and HETERO, or when it happens to be what the others are folded to.
  lemma OwnValueStays(device: string, es: seq<Entry>, value: string)
    requires Sorted(es) && Find(es, device) == Some(value)
    ensures Folded(device, es) == [(device, value)] <==>
      || |es| == 1
      || device == "AUTO" || device == "HETERO"
      || value == "{" + Join(Pairs(Erase(es, device)), ',') + "}"
  {
    hide Join, Pairs, Less;
    if |es| > 1 {
      OthersRemain(es, device);
    } else {
      SingleEntry(es, device);
    }
  }

  // At most one key is left, the virtual device's.
  lemma OneKeyLeft(device: string, es: seq<Entry>)
    requires Sorted(es)
    ensures |Folded(device, es)| <= 1
    ensures forall e | e in Folded(device, es) :: e.0 == device
    ensures Folded(device, es) == [] <==> es == []
  {
    if |es| > 1 {
      OthersRemain(es, device);
    }
  }

  // A key or value that the fold string can hold.
  predicate Plain(s: string) {
    s != "" && ':' !in s && ',' !in s
  }

  lemma PairSplits(e: Entry)
    requires Plain(e.0) && Plain(e.1)
    ensures Split(Pair(e), ':') == [e.0, e.1] && ',' !in Pair(e) && Pair(e) != ""
  {
    var items := [e.0, e.1];
    assert items[1..] == [e.1];
    assert Join(items, ':') == e.0 + ":" + e.1;
    SplitJoined(items, ':');
  }

  lemma {:induction false} ApplyPairs(done: seq<Entry>, es: seq<Entry>, devices: seq<string>)
    requires Sorted(done + es)
    requires forall e | e in es :: Plain(e.0) && Plain(e.1) && e.0 in devices
    ensures ApplyAll(done, devices, Pairs(es)) == Success(done + es)
    decreases |es|
  {
    hide Split, Put;
    if es == [] {
      assert done + es == done;
    } else {
      var e := es[0];
      PairSplits(e);
      assert done + es == (done + [e]) + es[1..];
      assert (done + es)[..|done| + 1] == done + [e];
      PutLast(done, e.0, e.1);
      assert Pairs(es)[1..] == Pairs(es[1..]);
      ApplyPairs(done + [e], es[1..], devices);
    }
  }

  lemma BodyRoundTrip(es: seq<Entry>, devices: seq<string>)
    requires Sorted(es)
    requires forall e | e in es :: Plain(e.0) && Plain(e.1) && e.0 in devices
    ensures ParseSpec(devices, Join(Pairs(es), ',')) == Success(es)
  {
    hide Put, Split, Less, Join, ApplyAll, Pair;
    PairsSplit(es);
    assert [] + es == es;
    ApplyPairs([], es, devices);
  }

  lemma PairsSplit(es: seq<Entry>)
    requires forall e | e in es :: ',' !in e.0 && ',' !in e.1
    ensures Split(Join(Pairs(es), ','), ',') == Pairs(es)
  {
    hide Split, Join;
    var items := Pairs(es);
    forall i | 0 <= i < |es| ensures ',' !in items[i] && items[i] != "" {
      assert es[i] in es;
    }
    SplitJoined(items, ',');
  }

  // What a parse can put into the map: a device and a value without separators.
  predicate Parsed(e: Entry, devices: seq<string>) {
    e.0 in devices && ':' !in e.1 && ',' !in e.1
  }

  lemma {:induction false} SplitKeepsOut(s: string, c: char, other: char, item: string)
    requires other !in s && item in Split(s, c)
    ensures other !in item
    decreases |s|
  {
    if item != s[..Until(s, c)] {
      SplitKeepsOut(Rest(s, c), c, other, item);
    }
  }

  lemma {:induction false} SetAllEntries(es: seq<Entry>, devices: seq<string>, value: string, e: Entry)
    requires e in SetAll(es, devices, value)
    ensures e in es || (e.0 in devices && e.1 == value)
    decreases |devices|
  {
    hide Put;
    if devices != [] {
      SetAllEntries(Put(es, devices[0], value), devices[1..], value, e);
      if e in Put(es, devices[0], value) { PutKeys(es, devices[0], value, e); }
    }
  }

  lemma AppliedEntry(es: seq<Entry>, devices: seq<string>, item: string, e: Entry)
    requires ',' !in item && Apply(es, devices, item).Success? && e in Apply(es, devices, item).value
    ensures e in es || Parsed(e, devices)
  {
    hide Put, Split, SetAll;
    var parts := Split(item, ':');
    if |parts| == 2 {
      PutKeys(es, parts[0], parts[1], e);
      SplitKeepsOut(item, ':', ',', parts[1]);
    } else if |parts| == 1 {
      SetAllEntries(es, devices, parts[0], e);
      SplitKeepsOut(item, ':', ',', parts[0]);
    }
  }

  lemma {:induction false} AppliedEntries(es: seq<Entry>, devices: seq<string>, items: seq<string>, e: Entry)
    requires forall item | item in items :: ',' !in item
    requires ApplyAll(es, devices, items).Success? && e in ApplyAll(es, devices, items).value
    ensures e in es || Parsed(e, devices)
    decreases |items|
  {
    hide Apply, Parsed;
    if items != [] {
      var next := Apply(es, devices, items[0]).value;
      AppliedEntries(next, devices, items[1..], e);
      if e in next { AppliedEntry(es, devices, items[0], e); }
    }
  }

  // A pair whose value is empty stands for a bare value, its key.
  lemma PairValue(es: seq<Entry>, devices: seq<string>, p: Entry, e: Entry)
    requires p.0 != "" && ':' !in p.0 && ':' !in p.1
    requires Apply(es, devices, Pair(p)).Success? && e in Apply(es, devices, Pair(p)).value
    ensures e in es || e.1 != ""
  {
    hide Put, Split, SetAll;
    var parts := [p.0, p.1];
    assert Join(parts, ':') == Pair(p) by { assert parts[1..] == [p.1]; }
    SplitJoined(parts, ':');
    assert parts[..1] == [p.0];
    if p.1 == "" {
      SetAllEntries(es, devices, p.0, e);
    } else {
      PutKeys(es, p.0, p.1, e);
    }
  }

  lemma {:induction false} PairValues(done: seq<Entry>, es: seq<Entry>, devices: seq<string>, e: Entry)
    requires forall p | p in es :: p.0 != "" && ':' !in p.0 && ':' !in p.1
    requires ApplyAll(done, devices, Pairs(es)).Success? && e in ApplyAll(done, devices, Pairs(es)).value
    ensures e in done || e.1 != ""
    decreases |es|
  {
    hide Apply, Pair;
    if es != [] {
      var next := Apply(done, devices, Pair(es[0])).value;
      assert Pairs(es)[0] == Pair(es[0]) && Pairs(es)[1..] == Pairs(es[1..]);
      PairValues(next, es[1..], devices, e);
      if e in next { PairValue(done, devices, es[0], e); }
    }
  }

  // The joined pairs parse to themselves exactly when each is a known device with a
  // non-empty value free of separators.
  lemma SurvivesExactly(es: seq<Entry>, devices: seq<string>)
    requires Sorted(es) && forall d | d in devices :: Plain(d)
    ensures ParseSpec(devices, Join(Pairs(es), ',')) == Success(es) <==>
      forall e | e in es :: e.0 in devices && Plain(e.1)
  {
    hide Split, Join, ApplyAll, Pairs, Less;
    var r := ParseSpec(devices, Join(Pairs(es), ','));
    if forall e | e in es :: e.0 in devices && Plain(e.1) {
      BodyRoundTrip(es, devices);
    }
    if r == Success(es) {
      forall e | e in es ensures Parsed(e, devices) {
        AppliedEntries([], devices, Split(Join(Pairs(es), ','), ','), e);
      }
      PairsSplit(es);
      forall e | e in es ensures e.1 != "" {
        PairValues([], es, devices, e);
      }
    }
  }

  // Without its braces a fold string parses to the folded entries exactly when each of
  // them is a known device with a non-empty value free of separators. Device names
  // themselves are taken to be such; plain keys and values are enough in any case.
  lemma FoldedRoundTrip(device: string, es: seq<Entry>, devices: seq<string>)
    requires Sorted(es) && Erase(es, device) != []
    requires Find(es, device) == None || (device != "AUTO" && device != "HETERO")
    ensures |Folded(device, es)| == 1
    ensures var s, others := Folded(device, es)[0].1, Erase(es, device);
      && |s| >= 2 && s[0] == '{' && s[|s| - 1] == '}'
      && var r := ParseSpec(devices, s[1..|s| - 1]);
      && ((forall e | e in others :: Plain(e.0) && Plain(e.1) && e.0 in devices) ==> r == Success(others))
      && ((forall d | d in devices :: Plain(d)) ==>
            (r == Success(others) <==> forall e | e in others :: e.0 in devices && Plain(e.1)))
  {
    hide Put, Split, Less, Join, Erase, Find, ParseSpec, Pairs, Plain, Sorted;
    var others := Erase(es, device);
    var body := Join(Pairs(others), ',');
    assert (Open(others) + "}")[1..|Open(others) + "}"| - 1] == body;
    EraseKeepsSorted(es, device);
    if forall e | e in others :: Plain(e.0) && Plain(e.1) && e.0 in devices {
      BodyRoundTrip(others, devices);
    }
    if forall d | d in devices :: Plain(d) {
      SurvivesExactly(others, devices);
    }
  }

  // After any number of good pairs the first pair with an unknown device is reported,
  // whatever follows it.
  lemma {:induction false} UnknownDeviceFails(done: seq<Entry>, es: seq<Entry>, bad: Entry, rest: seq<string>,
                                              devices: seq<string>)
    requires forall e | e in es :: Plain(e.0) && Plain(e.1) && e.0 in devices
    requires Plain(bad.0) && Plain(bad.1) && bad.0 !in devices
    ensures ApplyAll(done, devices, Pairs(es) + [Pair(bad)] + rest) == Failure(UnknownDevice(bad.0))
    decreases |es|
  {
    hide Split, Put;
    var items := Pairs(es) + [Pair(bad)] + rest;
    if es == [] {
      assert items[0] == Pair(bad);
      PairSplits(bad);
    } else {
      PairSplits(es[0]);
      assert items[0] == Pair(es[0]) && items[1..] == Pairs(es[1..]) + [Pair(bad)] + rest;
      UnknownDeviceFails(Put(done, es[0].0, es[0].1), es[1..], bad, rest, devices);
    }
  }

  // More than one colon in an item is an error.
  lemma ManyColonsFail(es: seq<Entry>, devices: seq<string>, parts: seq<string>)
    requires |parts| > 2 && forall p | p in parts :: Plain(p)
    ensures Apply(es, devices, Join(parts, ':')) == Failure(UnknownFormat)
  {
    hide Split, Put;
    assert parts[|parts| - 1] in parts;
    SplitJoined(parts, ':');
  }

  // So an empty value, for one, does not survive: the key is taken for a value of every device.
  // Such an entry can be given.
  lemma EmptyValueIsLost()
    ensures ParseSpec(["CPU"], "CPU::") == Success([("CPU", "")])
    ensures Folded("AUTO", [("CPU", "")]) == [("AUTO", "{CPU:}")]
    ensures ParseSpec(["CPU"], "CPU:") == Success([("CPU", "CPU")])
  {
    var e: Entry := ("CPU", "");
    assert Pair(e) == "CPU:";
    assert Pairs([e]) == ["CPU:"];
    NotFound([e], "AUTO");
    EraseNone([e], "AUTO");
    assert Open([e]) + "}" == "{CPU:}";
    SplitJoined(["CPU", ""], ':');
    assert Join(["CPU", ""], ':') == "CPU:" by { assert ["CPU", ""][1..] == [""]; }
    SplitJoined(["CPU:"], ',');
    assert ["CPU", ""][..1] == ["CPU"];
    assert ["CPU:"][1..] == [];
    EmptyValueGiven();
  }

  lemma EmptyValueGiven()
    ensures ParseSpec(["CPU"], "CPU::") == Success([("CPU", "")])
  {
    hide Split;
    SplitFirst("CPU::", ',', "");
    assert "CPU" + [':'] + ":" == "CPU::" && "" + [':'] + "" == ":";
    SplitFirst("CPU", ':', ":");
    SplitFirst("", ':', "");
    SplitFirst("", ':', "");
    assert ["CPU::"][1..] == [];
  }

  // A value without a device name goes to every device.
  lemma {:induction false} SetAllSets(es: seq<Entry>, devices: seq<string>, value: string, key: string)
    ensures Find(SetAll(es, devices, value), key) == if key in devices then Some(value) else Find(es, key)
    decreases |devices|
  {
    if devices != [] {
      PutFinds(es, devices[0], value, key);
      SetAllSets(Put(es, devices[0], value), devices[1..], value, key);
      assert devices == [devices[0]] + devices[1..];
    }
  }

  lemma BareValue(devices: seq<string>, value: string, key: string)
    requires Plain(value)
    ensures ParseSpec(devices, value).Success?
    ensures Find(ParseSpec(devices, value).value, key) == if key in devices then Some(value) else None
  {
    hide Split;
    SplitJoined([value], ',');
    SplitJoined([value], ':');
    assert Join([value], ',') == value && Join([value], ':') == value;
    assert ApplyAll([], devices, [value]) == Success(SetAll([], devices, value));
    SetAllSets([], devices, value, key);
  }
}
