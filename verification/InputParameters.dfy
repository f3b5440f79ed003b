// Per-input parameters on the command line, "input0[value0],input1[value1]" or
// "[value]", openvino/samples/cpp/benchmark_app/utils.cpp.
module InputParameters {
  import opened Wrappers
  import opened Text

  // ----- Inputs and their names -----

  datatype Port = Port(names: set<string>, friendlyName: string, anyName: string)

  function ByFriendlyName(name: string, inputs: seq<Port>): Option<string> {
    if inputs == [] then None
    else if inputs[0].friendlyName == name then Some(inputs[0].anyName)
    else ByFriendlyName(name, inputs[1..])
  }

  // parameter_name_to_tensor_name, without outputs
  function Resolve(name: string, inputs: seq<Port>): Option<string> {
    if exists i | 0 <= i < |inputs| :: name in inputs[i].names then Some(name) else ByFriendlyName(name, inputs)
  }

  type Parameters = map<string, seq<string>>

  function Get(acc: Parameters, key: string): seq<string> {
    if key in acc then acc[key] else []
  }

  // acc[key].push_back(value)
  function Push(acc: Parameters, key: string, value: string): Parameters {
    acc[key := Get(acc, key) + [value]]
  }

  function PushAll(acc: Parameters, inputs: seq<Port>, value: string): Parameters
    decreases |inputs|
  {
    if inputs == [] then acc else PushAll(Push(acc, inputs[0].anyName, value), inputs[1..], value)
  }

  datatype ParseError = Unparsable | UnknownName(name: string)

  function Add(acc: Parameters, name: string, value: string, inputs: seq<Port>): Result<Parameters, ParseError> {
    if name == "" then Success(PushAll(acc, inputs, value))
    else
      match Resolve(name, inputs)
      case None => Failure(UnknownName(name))
      case Some(key) => Success(Push(acc, key, value))
  }

  // ----- The loop -----

  // What follows the separator after a group.
  function Separated(rest: string): string
    requires rest != ""
  {
    if rest[0] == ',' then rest[1..] else rest
  }

  // substr(start + 1, end - start - 1): a count that wraps around takes all there is.
  function Value(search: string, start: nat, end: nat): string
    requires start < |search| && end < |search|
  {
    if start < end then search[start + 1..end] else search[start + 1..]
  }

  function Scan(search: string, name: string, acc: Parameters, inputs: seq<Port>): Result<Parameters, ParseError>
    decreases |search|
  {
    var start, end := Until(search, '['), Until(search, ']');
    if search == "" then Success(acc)
    else if start == |search| || end == |search| then Failure(Unparsable)
    else
      var current := if start > 0 then search[..start] else name;
      match Add(acc, current, Value(search, start, end), inputs)
      case Failure(e) => Failure(e)
      case Success(next) =>
        var rest := search[end + 1..];
        if rest == "" then Success(next)
        else if rest[0] != ',' && rest[0] != '[' then Failure(Unparsable)
        else Scan(Separated(rest), current, next, inputs)
  }

  method ParseInputParameters(s: string, inputs: seq<Port>) returns (r: Result<Parameters, ParseError>)
    ensures r == Scan(s, "", map[], inputs)
  {
    hide Until, Resolve;
    var result: Parameters := map[];
    var search := s;
    var start := Until(search, '[');
    var inputName := search[..start];
    while start < |search|
      invariant start == Until(search, '[')
      invariant Scan(s, "", map[], inputs) == Scan(search, inputName, result, inputs)
      decreases |search|
    {
      var end := Until(search, ']');
      if end == |search| {
        break;
      }
      if start > 0 {
        inputName := search[..start];
      }
      var value := Value(search, start, end);
      if inputName != "" {
        var key := Resolve(inputName, inputs);
        if key == None {
          return Failure(UnknownName(inputName));
        }
        result := Push(result, key.value, value);
      } else {
        result := PushEvery(result, inputs, value);
      }
      search := search[end + 1..];
      if search == "" || (search[0] != ',' && search[0] != '[') {
        break;
      }
      if search[0] == ',' {
        search := search[1..];
      }
      start := Until(search, '[');
    }
    if search != "" {
      return Failure(Unparsable);
    }
    return Success(result);
  }

  method PushEvery(acc: Parameters, inputs: seq<Port>, value: string) returns (r: Parameters)
    ensures r == PushAll(acc, inputs, value)
  {
    r := acc;
    for i := 0 to |inputs|
      invariant PushAll(acc, inputs, value) == PushAll(r, inputs[i..], value)
    {
      assert inputs[i..][0] == inputs[i] && inputs[i..][1..] == inputs[i + 1..];
      r := Push(r, inputs[i].anyName, value);
    }
  }

  // ----- What is accepted -----

  // name[value] and the comma that may follow
  datatype Item = Item(name: string, value: string, comma: bool)

  function Separator(comma: bool): string {
    if comma then "," else ""
  }

  function ItemText(i: Item): string {
    i.name + "[" + i.value + "]" + Separator(i.comma)
  }

  function ItemsText(items: seq<Item>): string {
    if items == [] then "" else ItemText(items[0]) + ItemsText(items[1..])
  }

  // Closing brackets only close items, and without a comma only a bracket may follow.
  // The last comma is optional.
  ghost predicate Closed(items: seq<Item>) {
    && (forall i | i in items :: ']' !in i.name && ']' !in i.value)
    && (forall k | 0 < k < |items| :: items[k - 1].comma || items[k].name == "")
  }

  ghost predicate WellFormed(items: seq<Item>) {
    Closed(items) && forall i | i in items :: '[' !in i.name
  }

  // An item without a name continues the one before it; before any name it is meant
  // for every input.
  function Collect(items: seq<Item>, name: string, acc: Parameters, inputs: seq<Port>): Result<Parameters, ParseError>
    decreases |items|
  {
    if items == [] then Success(acc)
    else
      match Add(acc, Current(items[0], name), items[0].value, inputs)
      case Failure(e) => Failure(e)
      case Success(next) => Collect(items[1..], Current(items[0], name), next, inputs)
  }

  lemma Brackets(i: Item, tail: string)
    requires '[' !in i.name && ']' !in i.name && ']' !in i.value
    ensures var s := i.name + "[" + i.value + "]" + tail; var start, end := |i.name|, |i.name| + 1 + |i.value|;
      && Until(s, '[') == start && Until(s, ']') == end && end < |s|
      && s[..start] == i.name && Value(s, start, end) == i.value && s[end + 1..] == tail
  {
    var s := i.name + "[" + i.value + "]" + tail;
    UntilFound(i.name, '[', i.value + "]" + tail);
    assert s == i.name + ['['] + (i.value + "]" + tail);
    UntilFound(i.name + "[" + i.value, ']', tail);
    assert s == (i.name + "[" + i.value) + [']'] + tail;
    hide Until;
    assert s[..|i.name|] == i.name;
    assert s[|i.name| + 1..|i.name| + 1 + |i.value|] == i.value;
    assert s[|i.name| + 1 + |i.value| + 1..] == tail;
  }

  function Current(i: Item, name: string): string {
    if i.name != "" then i.name else name
  }

  lemma ScanOne(i: Item, tail: string, name: string, acc: Parameters, inputs: seq<Port>)
    requires '[' !in i.name && ']' !in i.name && ']' !in i.value
    ensures Scan(i.name + "[" + i.value + "]" + tail, name, acc, inputs) ==
      AfterGroup(tail, Current(i, name), Add(acc, Current(i, name), i.value, inputs), inputs)
  {
    hide Until, Value, Add, AfterGroup, Scan;
    Brackets(i, tail);
    ScanAt(i.name + "[" + i.value + "]" + tail, |i.name|, |i.name| + 1 + |i.value|, name, acc, inputs);
  }

  function AfterGroup(rest: string, current: string, added: Result<Parameters, ParseError>, inputs: seq<Port>)
    : Result<Parameters, ParseError>
  {
    match added
    case Failure(e) => Failure(e)
    case Success(next) =>
      if rest == "" then Success(next)
      else if rest[0] != ',' && rest[0] != '[' then Failure(Unparsable)
      else Scan(Separated(rest), current, next, inputs)
  }

  lemma ScanAt(s: string, start: nat, end: nat, name: string, acc: Parameters, inputs: seq<Port>)
    requires Until(s, '[') == start < |s| && Until(s, ']') == end < |s|
    ensures var current := if start > 0 then s[..start] else name;
      Scan(s, name, acc, inputs) ==
        AfterGroup(s[end + 1..], current, Add(acc, current, Value(s, start, end), inputs), inputs)
  {
    hide Until, Value, Add;
  }

  // Well-formed text means what its items say, unknown names included.
  lemma {:induction false} ScanItems(items: seq<Item>, name: string, acc: Parameters, inputs: seq<Port>)
    requires WellFormed(items)
    ensures Scan(ItemsText(items), name, acc, inputs) == Collect(items, name, acc, inputs)
    decreases |items|
  {
    if items != [] {
      hide Scan, Add, Separated;
      var i, rest := items[0], items[1..];
      var tail := Separator(i.comma) + ItemsText(rest);
      ItemThenTail(items, tail);
      ScanOne(i, tail, name, acc, inputs);
      match Add(acc, Current(i, name), i.value, inputs)
      case Failure(_) =>
      case Success(next) => ScanItems(rest, Current(i, name), next, inputs);
    }
  }

  lemma ItemThenTail(items: seq<Item>, tail: string)
    requires Closed(items) && items != []
    requires tail == Separator(items[0].comma) + ItemsText(items[1..])
    ensures Closed(items[1..])
    ensures ItemsText(items) == items[0].name + "[" + items[0].value + "]" + tail
    ensures tail == "" ==> items[1..] == []
    ensures tail != "" ==> (tail[0] == ',' || tail[0] == '[') && Separated(tail) == ItemsText(items[1..])
  {
    var rest := items[1..];
    RestClosed(items);
    if rest != [] { StartsWithBracket(rest); }
    hide Closed;
    var i := items[0];
    assert ItemsText(items) == ItemText(i) + ItemsText(rest);
    hide ItemsText;
    Reassociate(i.name + "[" + i.value + "]", Separator(i.comma), ItemsText(rest));
  }

  lemma Reassociate(a: string, b: string, c: string)
    ensures (a + b) + c == a + (b + c)
  {
  }

  lemma RestClosed(items: seq<Item>)
    requires Closed(items) && items != []
    ensures Closed(items[1..])
    ensures items[1..] != [] ==> items[0].comma || items[1..][0].name == ""
  {
    var rest := items[1..];
    forall k | 0 < k < |rest| ensures rest[k - 1].comma || rest[k].name == "" {
      assert rest[k - 1] == items[k] && rest[k] == items[k + 1];
      assert items[k + 1 - 1].comma || items[k + 1].name == "";
    }
    if rest != [] { assert items[1 - 1].comma || items[1].name == ""; }
  }

  lemma StartsWithBracket(items: seq<Item>)
    requires items != []
    ensures ItemsText(items) != ""
    ensures items[0].name == "" ==> ItemsText(items)[0] == '['
  {
  }

  // ----- Names that are cut in two -----

  // Whether name[value] is accepted for a name without opening brackets: the name is
  // known and, if it holds a closing bracket, either ends there or goes on with a comma
  // and nothing more or again such a name.
  predicate Usable(name: string, inputs: seq<Port>)
    decreases |name|
  {
    var end := Until(name, ']');
    && Resolve(name, inputs).Some?
    && (end == |name| || name[end + 1..] == "" ||
        (name[end + 1] == ',' && (name[end + 2..] == "" || Usable(name[end + 2..], inputs))))
  }

  // No known name is accepted in spite of a closing bracket.
  ghost predicate NoneIsCut(inputs: seq<Port>) {
    forall name | name != "" && '[' !in name && Usable(name, inputs) :: ']' !in name
  }

  lemma OpensAfter(name: string, more: string)
    requires '[' !in name
    ensures Until(name + "[" + more, '[') == |name|
    ensures (name + "[" + more)[..|name|] == name && (name + "[" + more)[|name| + 1..] == more
  {
    hide Until;
    var s := name + "[" + more;
    assert s[..|name|] == name && s[|name| + 1..] == more;
    UntilAt(s, '[', |name|);
  }

  // A closing bracket in the name comes before the opening one.
  lemma ClosesInside(name: string, more: string)
    requires Until(name, ']') < |name|
    ensures var s, end := name + "[" + more, Until(name, ']');
      Until(s, ']') == end && s[end + 1..] == name[end + 1..] + "[" + more
  {
    hide Until;
    var end := Until(name, ']');
    Reassociate(name, "[", more);
    CutFirst(name, "[" + more, end);
    CutFirst(name, "[" + more, end + 1);
    Reassociate(name[end + 1..], "[", more);
    UntilAt(name + "[" + more, ']', end);
  }

  lemma ClosesLater(name: string, more: string)
    requires Until(name, ']') == |name|
    ensures Until(name + "[" + more, ']') > |name|
  {
    hide Until;
    var s := name + "[" + more;
    assert s[..|name|] == name;
    UntilEnd(name, ']');
    forall j | 0 <= j < |name| ensures s[j] != ']' { assert s[j] in name; }
  }

  lemma FirstClosing(name: string, more: string)
    requires '[' !in name
    ensures var s, end := name + "[" + more, Until(name, ']');
      && Until(s, '[') == |name|
      && (end < |name| ==> Until(s, ']') == end && s[end + 1..] == name[end + 1..] + "[" + more)
      && (end < |name| ==> Value(s, |name|, end) == more)
      && (end == |name| ==> Until(s, ']') > |name|)
  {
    hide Until;
    OpensAfter(name, more);
    if Until(name, ']') < |name| {
      ClosesInside(name, more);
    } else {
      ClosesLater(name, more);
    }
  }

  // Wherever a group with this name is accepted, the name is usable.
  lemma {:induction false} AcceptedIsUsable(name: string, more: string, before: string, acc: Parameters,
        inputs: seq<Port>)
    requires name != "" && '[' !in name && Scan(name + "[" + more, before, acc, inputs).Success?
    ensures Usable(name, inputs)
    decreases |name|
  {
    hide Scan, Until, Add, Value, Separated, Resolve;
    var s, end := name + "[" + more, Until(name, ']');
    OpensAfter(name, more);
    FirstClosing(name, more);
    BothBrackets(s, before, acc, inputs);
    ScanAt(s, |name|, Until(s, ']'), before, acc, inputs);
    AddNeedsName(acc, name, Value(s, |name|, Until(s, ']')), inputs);
    if end < |name| && name[end + 1..] != "" {
      var tail := name[end + 1..];
      assert tail[0] == name[end + 1] && tail[0] in name;
      CutFirst(tail, "[" + more, 0);
      Reassociate(tail, "[", more);
      AfterCut(tail, more);
      assert tail[1..] == name[end + 2..];
      if name[end + 2..] != "" {
        AcceptedIsUsable(name[end + 2..], more, name, Add(acc, name, more, inputs).value, inputs);
      }
    }
  }

  lemma AddNeedsName(acc: Parameters, name: string, value: string, inputs: seq<Port>)
    ensures name != "" ==> (Add(acc, name, value, inputs).Success? <==> Resolve(name, inputs).Some?)
    ensures name == "" ==> Add(acc, name, value, inputs).Success?
  {
  }

  lemma {:induction false} UsableIsAccepted(name: string, value: string, before: string, acc: Parameters,
        inputs: seq<Port>)
    requires '[' !in name && ']' !in value
    requires if name == "" then before == "" || Resolve(before, inputs).Some? else Usable(name, inputs)
    ensures Scan(name + "[" + value + "]", before, acc, inputs).Success?
    decreases |name|
  {
    hide Scan, Until, Add, Value, Resolve;
    var end := Until(name, ']');
    UntilEnd(name, ']');
    if end == |name| {
      WholeIsAccepted(name, value, before, acc, inputs);
    } else {
      var next := CutStep(name, value, before, acc, inputs);
      UsableIsAccepted(if name[end + 1..] == "" then "" else name[end + 2..], value, name, next, inputs);
    }
  }

  lemma WholeIsAccepted(name: string, value: string, before: string, acc: Parameters, inputs: seq<Port>)
    requires '[' !in name && ']' !in name && ']' !in value
    requires var current := if name != "" then name else before; current == "" || Resolve(current, inputs).Some?
    ensures Scan(name + "[" + value + "]", before, acc, inputs).Success?
  {
    hide Scan, Add, Resolve;
    var i := Item(name, value, false);
    ScanOne(i, "", before, acc, inputs);
    assert i.name + "[" + i.value + "]" + "" == name + "[" + value + "]";
    AddNeedsName(acc, Current(i, before), value, inputs);
  }

  // One turn of the loop on a name with a closing bracket.
  lemma CutStep(name: string, value: string, before: string, acc: Parameters, inputs: seq<Port>)
    returns (next: Parameters)
    requires '[' !in name && Until(name, ']') < |name| && Resolve(name, inputs).Some?
    requires name[Until(name, ']') + 1..] == "" || name[Until(name, ']') + 1] == ','
    ensures var end := Until(name, ']');
      var left := if name[end + 1..] == "" then "" else name[end + 2..];
      Scan(name + "[" + value + "]", before, acc, inputs) == Scan(left + "[" + value + "]", name, next, inputs)
  {
    hide Scan, Until, Add, Value, Resolve, Separated, AfterGroup;
    var more, end := value + "]", Until(name, ']');
    var tail := name[end + 1..];
    Reassociate(name + "[", value, "]");
    FirstClosing(name, more);
    OpensAfter(name, more);
    ScanAt(name + "[" + more, |name|, end, before, acc, inputs);
    AddNeedsName(acc, name, more, inputs);
    next := Add(acc, name, more, inputs).value;
    CutContinues(tail, more, name, next, inputs);
    assert tail != "" ==> tail[1..] == name[end + 2..];
    Reassociate((if tail == "" then "" else name[end + 2..]) + "[", value, "]");
  }

  lemma CutContinues(tail: string, more: string, current: string, next: Parameters, inputs: seq<Port>)
    requires tail == "" || tail[0] == ','
    ensures AfterGroup(tail + "[" + more, current, Success(next), inputs) ==
      Scan((if tail == "" then "" else tail[1..]) + "[" + more, current, next, inputs)
  {
    hide Scan, Separated;
    AfterCut(tail, more);
  }

  lemma AfterCut(tail: string, more: string)
    requires tail == "" || tail[0] == ','
    ensures var rest := tail + "[" + more;
      && rest != "" && (rest[0] == ',' || rest[0] == '[')
      && Separated(rest) == (if tail == "" then "" else tail[1..]) + "[" + more
  {
    Reassociate(tail, "[", more);
    if tail != "" {
      CutFirst(tail, "[" + more, 1);
      Reassociate(tail[1..], "[", more);
    }
  }

  // Exactly the usable names can be given a value, well formed or not.
  lemma UsableExactly(name: string, value: string, inputs: seq<Port>)
    requires name != "" && '[' !in name && ']' !in value
    ensures Scan(name + "[" + value + "]", "", map[], inputs).Success? <==> Usable(name, inputs)
  {
    assert name + "[" + value + "]" == name + "[" + (value + "]");
    if Usable(name, inputs) {
      UsableIsAccepted(name, value, "", map[], inputs);
    }
    if Scan(name + "[" + value + "]", "", map[], inputs).Success? {
      AcceptedIsUsable(name, value + "]", "", map[], inputs);
    }
  }

  // What it takes for a group to be accepted.
  lemma FirstGroup(s: string, name: string, acc: Parameters, inputs: seq<Port>)
    requires NoneIsCut(inputs)
    ensures s != "" && Scan(s, name, acc, inputs).Success? ==>
      var start, end := Until(s, '['), Until(s, ']');
      && start < end < |s|
      && var current := if start > 0 then s[..start] else name;
         var added := Add(acc, current, s[start + 1..end], inputs);
         var rest := s[end + 1..];
      && added.Success?
      && (rest == "" ||
          ((rest[0] == ',' || rest[0] == '[') && Scan(Separated(rest), current, added.value, inputs).Success?))
  {
    hide NoneIsCut, Until, Add, Scan, Separated;
    BothBrackets(s, name, acc, inputs);
    if s != "" && Scan(s, name, acc, inputs).Success? {
      var start, end := Until(s, '['), Until(s, ']');
      GroupInOrder(s, name, acc, inputs);
      ScanAt(s, start, end, name, acc, inputs);
    }
  }

  lemma GroupInOrder(s: string, before: string, acc: Parameters, inputs: seq<Port>)
    requires NoneIsCut(inputs)
    ensures s != "" && Scan(s, before, acc, inputs).Success? ==> Until(s, '[') < Until(s, ']') < |s|
  {
    hide Scan, Until, Usable;
    BothBrackets(s, before, acc, inputs);
    var start, end := Until(s, '['), Until(s, ']');
    if s != "" && Scan(s, before, acc, inputs).Success? && end < start {
      var name, more := s[..start], s[start + 1..];
      assert s == name + "[" + more;
      assert name[end] == ']';
      AcceptedIsUsable(name, more, before, acc, inputs);
    }
  }

  lemma BothBrackets(s: string, name: string, acc: Parameters, inputs: seq<Port>)
    ensures s != "" && Scan(s, name, acc, inputs).Success? ==> Until(s, '[') < |s| && Until(s, ']') < |s|
  {
    hide Until, Add;
  }

  // Accepted text is well formed.
  lemma {:induction false} AcceptedIsWellFormed(s: string, name: string, acc: Parameters, inputs: seq<Port>)
    returns (items: seq<Item>)
    requires NoneIsCut(inputs) && Scan(s, name, acc, inputs).Success?
    ensures WellFormed(items) && ItemsText(items) == s
    decreases |s|
  {
    hide NoneIsCut, Until, Add, ItemsText, WellFormed, Scan;
    NoItems();
    if s == "" {
      return [];
    }
    FirstGroup(s, name, acc, inputs);
    var start, end := Until(s, '['), Until(s, ']');
    var current, rest := if start > 0 then s[..start] else name, s[end + 1..];
    var i := Item(s[..start], s[start + 1..end], rest != "" && rest[0] == ',');
    items := [];
    if rest != "" {
      items := AcceptedIsWellFormed(Separated(rest), current, Add(acc, current, i.value, inputs).value, inputs);
    }
    FirstItem(s, start, end, i, items);
    BracketFree(s[..end], start);
    OneMore(i, items);
    items := [i] + items;
  }

  lemma FirstItem(s: string, start: nat, end: nat, i: Item, items: seq<Item>)
    requires start < end < |s| && s[start] == '[' && s[end] == ']'
    requires var rest := s[end + 1..];
      && i == Item(s[..start], s[start + 1..end], rest != "" && rest[0] == ',')
      && ItemsText(items) == if rest == "" then "" else Separated(rest)
    ensures ItemText(i) + ItemsText(items) == s
  {
    hide ItemsText;
    var rest := s[end + 1..];
    assert s == s[..start] + "[" + s[start + 1..end] + "]" + rest;
    assert rest == Separator(i.comma) + ItemsText(items);
    Reassociate(i.name + "[" + i.value + "]", Separator(i.comma), ItemsText(items));
  }

  lemma BracketFree(s: string, start: nat)
    requires start < |s| && ']' !in s
    ensures ']' !in s[..start] && ']' !in s[start + 1..]
  {
  }

  lemma NoItems()
    ensures WellFormed([]) && ItemsText([]) == ""
  {
  }

  lemma OneMore(i: Item, items: seq<Item>)
    requires '[' !in i.name && ']' !in i.name && ']' !in i.value && WellFormed(items)
    requires i.comma || ItemsText(items) == "" || ItemsText(items)[0] == '['
    ensures WellFormed([i] + items) && ItemsText([i] + items) == ItemText(i) + ItemsText(items)
  {
    var all := [i] + items;
    assert all[1..] == items;
    if items != [] {
      StartsWithBracket(items);
      StartsWithName(items);
    }
    forall k | 0 < k < |all| ensures all[k - 1].comma || all[k].name == "" {
      if k > 1 { assert items[k - 1 - 1].comma || items[k - 1].name == ""; }
    }
  }

  lemma StartsWithName(items: seq<Item>)
    requires items != [] && WellFormed(items)
    ensures ItemsText(items)[0] == '[' ==> items[0].name == ""
  {
    var i := items[0];
    if i.name != "" {
      assert ItemsText(items)[0] == i.name[0];
      assert i in items && i.name[0] in i.name;
    }
  }

  ghost predicate IsItems(s: string) {
    exists items :: WellFormed(items) && ItemsText(items) == s
  }

  // Unless a known name is cut, the text is accepted exactly when it is well formed and
  // its names are known.
  lemma AcceptedExactly(s: string, inputs: seq<Port>)
    requires NoneIsCut(inputs)
    ensures Scan(s, "", map[], inputs).Success? <==>
      exists items :: WellFormed(items) && ItemsText(items) == s && Collect(items, "", map[], inputs).Success?
  {
    hide Scan, WellFormed, ItemsText, Collect, NoneIsCut;
    if Scan(s, "", map[], inputs).Success? {
      var items := AcceptedIsWellFormed(s, "", map[], inputs);
      ScanItems(items, "", map[], inputs);
    }
    forall items | WellFormed(items) && ItemsText(items) == s
      ensures Scan(s, "", map[], inputs) == Collect(items, "", map[], inputs)
    {
      ScanItems(items, "", map[], inputs);
    }
  }

  // Text that is not well formed is accepted exactly when a known name can be cut.
  lemma MisreadExactly(inputs: seq<Port>)
    ensures (forall s | Scan(s, "", map[], inputs).Success? :: IsItems(s)) <==> NoneIsCut(inputs)
  {
    hide Scan, WellFormed, ItemsText, Usable;
    if NoneIsCut(inputs) {
      forall s | Scan(s, "", map[], inputs).Success? ensures IsItems(s) {
        var items := AcceptedIsWellFormed(s, "", map[], inputs);
      }
    } else {
      var name :| name != "" && '[' !in name && Usable(name, inputs) && ']' in name;
      UsableIsAccepted(name, "", "", map[], inputs);
      CutIsNoItem(name, name + "[" + "" + "]");
    }
  }

  // In well-formed text the first opening bracket comes before the first closing one.
  lemma CutIsNoItem(name: string, s: string)
    requires '[' !in name && ']' in name && s == name + "[" + "" + "]"
    ensures !IsItems(s)
  {
    hide Until, ItemsText;
    FirstClosing(name, "]");
    assert s == name + "[" + "]";
    UntilEnd(name, ']');
    forall items: seq<Item> | WellFormed(items) ensures ItemsText(items) != s {
      NoItems();
      if items != [] { OpensFirst(items); }
    }
  }

  lemma OpensFirst(items: seq<Item>)
    requires WellFormed(items) && items != []
    ensures Until(ItemsText(items), '[') < Until(ItemsText(items), ']')
  {
    hide Until, ItemsText;
    var tail := Separator(items[0].comma) + ItemsText(items[1..]);
    ItemThenTail(items, tail);
    assert items[0] in items;
    Brackets(items[0], tail);
  }

  // ----- Groups -----

  datatype Group = Group(name: string, values: seq<string>)

  function Bracketed(values: seq<string>): string {
    if values == [] then "" else "[" + values[0] + "]" + Bracketed(values[1..])
  }

  // name[v1][v2],name2[v3]
  function Render(groups: seq<Group>): string {
    if groups == [] then ""
    else groups[0].name + Bracketed(groups[0].values) + Separator(|groups| > 1) + Render(groups[1..])
  }

  // A group that can be written down: its name is known and it has a value.
  ghost predicate Known(g: Group, inputs: seq<Port>) {
    g.name != "" && Resolve(g.name, inputs).Some? && g.values != []
  }

  // No bracket in the name and no closing one in a value.
  ghost predicate Readable(g: Group) {
    Sealed(g) && '[' !in g.name
  }

  ghost predicate Sealed(g: Group) {
    ']' !in g.name && forall v | v in g.values :: ']' !in v
  }

  // The tensor name a group's values are filed under.
  function KeyOf(g: Group, inputs: seq<Port>): string {
    match Resolve(g.name, inputs) case Some(key) => key case None => ""
  }

  // All the values given for a tensor name, in order.
  function ValuesOf(groups: seq<Group>, key: string, inputs: seq<Port>): seq<string> {
    if groups == [] then []
    else (if KeyOf(groups[0], inputs) == key then groups[0].values else []) + ValuesOf(groups[1..], key, inputs)
  }

  function GroupItems(name: string, values: seq<string>, comma: bool): (items: seq<Item>)
    ensures |items| == |values|
    decreases |values|
  {
    if values == [] then []
    else [Item(name, values[0], comma && |values| == 1)] + GroupItems("", values[1..], comma)
  }

  function Flattened(groups: seq<Group>): seq<Item> {
    if groups == [] then []
    else GroupItems(groups[0].name, groups[0].values, |groups| > 1) + Flattened(groups[1..])
  }

  lemma {:induction false} GroupText(name: string, values: seq<string>, comma: bool, rest: seq<Item>)
    requires values != []
    ensures ItemsText(GroupItems(name, values, comma) + rest)
      == name + Bracketed(values) + Separator(comma) + ItemsText(rest)
    decreases |values|
  {
    hide ItemsText, Separator, Bracketed;
    var i, tail := Item(name, values[0], comma && |values| == 1), GroupItems("", values[1..], comma) + rest;
    assert GroupItems(name, values, comma) + rest == [i] + tail;
    FirstText(i, tail);
    BracketedFirst(values);
    if |values| == 1 {
      assert tail == rest;
      LastValue(name, values[0], Separator(comma), ItemsText(rest));
    } else {
      GroupText("", values[1..], comma, rest);
      Regroup(name, values[0], Bracketed(values[1..]), Separator(comma), ItemsText(rest));
    }
  }

  lemma BracketedFirst(values: seq<string>)
    requires values != []
    ensures Bracketed(values) == "[" + values[0] + "]" + Bracketed(values[1..])
    ensures |values| == 1 ==> Bracketed(values[1..]) == ""
    ensures Separator(false) == ""
  {
  }

  lemma LastValue(a: string, b: string, d: string, e: string)
    ensures a + "[" + b + "]" + d + e == a + ("[" + b + "]" + "") + d + e
  {
  }

  lemma Regroup(a: string, b: string, c: string, d: string, e: string)
    ensures a + "[" + b + "]" + "" + ("" + c + d + e) == a + ("[" + b + "]" + c) + d + e
  {
  }

  lemma FirstText(i: Item, tail: seq<Item>)
    ensures ItemsText([i] + tail) == i.name + "[" + i.value + "]" + Separator(i.comma) + ItemsText(tail)
  {
    assert ([i] + tail)[1..] == tail;
  }

  lemma {:induction false} FlattenedText(groups: seq<Group>)
    requires forall g | g in groups :: g.values != []
    ensures ItemsText(Flattened(groups)) == Render(groups)
  {
    if groups != [] {
      FlattenedText(groups[1..]);
      GroupText(groups[0].name, groups[0].values, |groups| > 1, Flattened(groups[1..]));
    }
  }

  lemma {:induction false} GroupClosed(name: string, values: seq<string>, comma: bool, rest: seq<Item>)
    requires ']' !in name && (forall v | v in values :: ']' !in v)
    requires Closed(rest) && (comma || rest == [])
    ensures Closed(GroupItems(name, values, comma) + rest)
    decreases |values|
  {
    if values == [] {
      assert GroupItems(name, values, comma) + rest == rest;
    } else {
      var i, more := Item(name, values[0], comma && |values| == 1), GroupItems("", values[1..], comma) + rest;
      GroupClosed("", values[1..], comma, rest);
      assert GroupItems(name, values, comma) + rest == [i] + more;
      Prepend(i, more);
    }
  }

  lemma Prepend(i: Item, items: seq<Item>)
    requires ']' !in i.name && ']' !in i.value && Closed(items)
    requires items == [] || i.comma || items[0].name == ""
    ensures Closed([i] + items)
  {
    var all := [i] + items;
    forall k | 0 < k < |all| ensures all[k - 1].comma || all[k].name == "" {
      if k > 1 { assert items[k - 1 - 1].comma || items[k - 1].name == ""; }
    }
  }

  // Which items of a group's have an opening bracket in their name.
  lemma {:induction false} GroupNames(name: string, values: seq<string>, comma: bool)
    requires values != []
    ensures Opening(GroupItems(name, values, comma)) <==> '[' in name
    decreases |values|
  {
    var first, rest := Item(name, values[0], comma && |values| == 1), GroupItems("", values[1..], comma);
    OpeningSplits([first], rest);
    if |values| > 1 {
      GroupNames("", values[1..], comma);
    }
  }

  ghost predicate Opening(items: seq<Item>) {
    exists i | i in items :: '[' in i.name
  }

  lemma OpeningSplits(a: seq<Item>, b: seq<Item>)
    ensures Opening(a + b) <==> Opening(a) || Opening(b)
  {
    if Opening(a) {
      var i :| i in a && '[' in i.name;
      assert i in a + b;
    }
    if Opening(b) {
      var i :| i in b && '[' in i.name;
      assert i in a + b;
    }
  }

  lemma {:induction false} FlattenedClosed(groups: seq<Group>)
    requires forall g | g in groups :: Sealed(g) && g.values != []
    ensures Closed(Flattened(groups))
    ensures Opening(Flattened(groups)) <==> exists g | g in groups :: '[' in g.name
  {
    if groups != [] {
      var g, rest := groups[0], groups[1..];
      assert Sealed(g) && groups == [g] + rest;
      FlattenedClosed(rest);
      GroupClosed(g.name, g.values, |groups| > 1, Flattened(rest));
      GroupNames(g.name, g.values, |groups| > 1);
      OpeningSplits(GroupItems(g.name, g.values, |groups| > 1), Flattened(rest));
    }
  }

  function Append(acc: Parameters, key: string, values: seq<string>): Parameters {
    acc[key := Get(acc, key) + values]
  }

  lemma {:induction false} CollectGroup(name: string, given: string, key: string, values: seq<string>, comma: bool,
        rest: seq<Item>, before: string, acc: Parameters, inputs: seq<Port>)
    requires values != [] && given != "" && Resolve(given, inputs) == Some(key)
    requires name == given || (name == "" && before == given)
    ensures Collect(GroupItems(name, values, comma) + rest, before, acc, inputs)
      == Collect(rest, given, Append(acc, key, values), inputs)
    decreases |values|
  {
    hide Resolve, Append;
    var i, tail := Item(name, values[0], comma && |values| == 1), GroupItems("", values[1..], comma) + rest;
    assert GroupItems(name, values, comma) + rest == [i] + tail && ([i] + tail)[1..] == tail;
    var next := Push(acc, key, values[0]);
    PushAppend(acc, key, values);
    if |values| == 1 {
      assert tail == rest;
    } else {
      CollectGroup("", given, key, values[1..], comma, rest, given, next, inputs);
    }
  }

  lemma PushAppend(acc: Parameters, key: string, values: seq<string>)
    requires values != []
    ensures Append(Push(acc, key, values[0]), key, values[1..]) == Append(acc, key, values)
    ensures |values| == 1 ==> Push(acc, key, values[0]) == Append(acc, key, values)
  {
    assert [values[0]] + values[1..] == values;
    if |values| == 1 { assert values == [values[0]]; }
    assert Get(acc, key) + [values[0]] + values[1..] == Get(acc, key) + values;
  }

  function AppendGroups(acc: Parameters, groups: seq<Group>, inputs: seq<Port>): Parameters
    decreases |groups|
  {
    if groups == [] then acc
    else AppendGroups(Append(acc, KeyOf(groups[0], inputs), groups[0].values), groups[1..], inputs)
  }

  lemma {:induction false} CollectGroups(groups: seq<Group>, before: string, acc: Parameters, inputs: seq<Port>)
    requires forall g | g in groups :: Known(g, inputs)
    ensures Collect(Flattened(groups), before, acc, inputs) == Success(AppendGroups(acc, groups, inputs))
    decreases |groups|
  {
    hide Resolve, Append;
    if groups != [] {
      var g, key := groups[0], KeyOf(groups[0], inputs);
      assert Known(g, inputs);
      CollectGroup(g.name, g.name, key, g.values, |groups| > 1, Flattened(groups[1..]), before, acc, inputs);
      CollectGroups(groups[1..], g.name, Append(acc, key, g.values), inputs);
    }
  }

  predicate Named(groups: seq<Group>, key: string, inputs: seq<Port>) {
    exists g | g in groups :: KeyOf(g, inputs) == key
  }

  lemma {:induction false} AppendedValues(acc: Parameters, groups: seq<Group>, key: string, inputs: seq<Port>)
    ensures Get(AppendGroups(acc, groups, inputs), key) == Get(acc, key) + ValuesOf(groups, key, inputs)
    ensures key in AppendGroups(acc, groups, inputs) <==> key in acc || Named(groups, key, inputs)
    decreases |groups|
  {
    hide Resolve, KeyOf, Append, Named, Get;
    NamedFirst(groups, key, inputs);
    if groups == [] {
      assert Get(acc, key) + [] == Get(acc, key);
    } else {
      var g := groups[0];
      AppendGets(acc, KeyOf(g, inputs), g.values, key);
      AppendedValues(Append(acc, KeyOf(g, inputs), g.values), groups[1..], key, inputs);
      Associate(Get(acc, key), if KeyOf(g, inputs) == key then g.values else [], ValuesOf(groups[1..], key, inputs));
    }
  }

  lemma NamedFirst(groups: seq<Group>, key: string, inputs: seq<Port>)
    ensures Named(groups, key, inputs) <==>
      groups != [] && (KeyOf(groups[0], inputs) == key || Named(groups[1..], key, inputs))
  {
    hide KeyOf;
    assert groups != [] ==> groups == [groups[0]] + groups[1..];
  }

  lemma AppendGets(acc: Parameters, name: string, values: seq<string>, key: string)
    ensures Get(Append(acc, name, values), key) == Get(acc, key) + if name == key then values else []
    ensures key in Append(acc, name, values) <==> key in acc || name == key
  {
  }

  lemma Associate(a: seq<string>, b: seq<string>, c: seq<string>)
    ensures (a + b) + c == a + (b + c)
  {
  }

  // What groups mean: each of their tensor names with its values in order.
  ghost predicate Gives(m: Parameters, groups: seq<Group>, inputs: seq<Port>) {
    forall key :: Get(m, key) == ValuesOf(groups, key, inputs) && (key in m <==> Named(groups, key, inputs))
  }

  lemma GivesExactly(m: Parameters, groups: seq<Group>, inputs: seq<Port>)
    ensures Gives(m, groups, inputs) <==> m == AppendGroups(map[], groups, inputs)
  {
    hide ValuesOf, Named, AppendGroups;
    var r := AppendGroups(map[], groups, inputs);
    forall key ensures Get(r, key) == ValuesOf(groups, key, inputs) && (key in r <==> Named(groups, key, inputs)) {
      AppendedValues(map[], groups, key, inputs);
    }
    if Gives(m, groups, inputs) {
      forall key ensures (key in m <==> key in r) && (key in m ==> m[key] == r[key]) {
        assert Get(m, key) == Get(r, key);
      }
    }
  }

  // ----- What names and bare values stand for -----

  // A name is a tensor name of some input, or else the friendly name of one; the first one
  // in order counts and gives a tensor name of that input.
  lemma {:induction false} ResolveExactly(name: string, inputs: seq<Port>, key: string)
    ensures Resolve(name, inputs) == Some(key) <==>
      if exists i | 0 <= i < |inputs| :: name in inputs[i].names then key == name
      else exists i ::
        && 0 <= i < |inputs| && inputs[i].friendlyName == name && inputs[i].anyName == key
        && forall j | 0 <= j < i :: inputs[j].friendlyName != name
    ensures Resolve(name, inputs) == None <==>
      forall i | 0 <= i < |inputs| :: name !in inputs[i].names && inputs[i].friendlyName != name
  {
    FirstFriendly(name, inputs);
  }

  lemma {:induction false} FirstFriendly(name: string, inputs: seq<Port>)
    ensures match ByFriendlyName(name, inputs)
      case None => forall j | 0 <= j < |inputs| :: inputs[j].friendlyName != name
      case Some(key) => exists i ::
        && 0 <= i < |inputs| && inputs[i].friendlyName == name && inputs[i].anyName == key
        && forall j | 0 <= j < i :: inputs[j].friendlyName != name
  {
    if inputs != [] {
      assert inputs == [inputs[0]] + inputs[1..];
      if inputs[0].friendlyName == name {
        assert inputs[0].anyName == ByFriendlyName(name, inputs).value;
      } else {
        FirstFriendly(name, inputs[1..]);
        match ByFriendlyName(name, inputs[1..])
        case None =>
        case Some(key) =>
          var i :| && 0 <= i < |inputs[1..]| && inputs[1..][i].friendlyName == name && inputs[1..][i].anyName == key
                   && forall j | 0 <= j < i :: inputs[1..][j].friendlyName != name;
          assert inputs[i + 1] == inputs[1..][i];
          forall j | 0 <= j < i + 1 ensures inputs[j].friendlyName != name {
            if j > 0 { assert inputs[j] == inputs[1..][j - 1]; }
          }
      }
    }
  }

  // How many inputs have this tensor name.
  function Times(inputs: seq<Port>, key: string): nat {
    if inputs == [] then 0 else (if inputs[0].anyName == key then 1 else 0) + Times(inputs[1..], key)
  }

  function Repeated(values: seq<string>, n: nat): seq<string> {
    if values == [] then [] else seq(n, _ => values[0]) + Repeated(values[1..], n)
  }

  lemma {:induction false} PushAllGets(acc: Parameters, inputs: seq<Port>, value: string, key: string)
    ensures Get(PushAll(acc, inputs, value), key) == Get(acc, key) + seq(Times(inputs, key), _ => value)
    decreases |inputs|
  {
    if inputs != [] {
      var next := Push(acc, inputs[0].anyName, value);
      PushAllGets(next, inputs[1..], value, key);
      if inputs[0].anyName == key {
        assert [value] + seq(Times(inputs[1..], key), _ => value) == seq(Times(inputs, key), _ => value);
        assert Get(next, key) == Get(acc, key) + [value];
      }
    }
  }

  lemma {:induction false} CollectBare(values: seq<string>, acc: Parameters, inputs: seq<Port>, key: string)
    ensures var r := Collect(GroupItems("", values, false), "", acc, inputs);
      r.Success? && Get(r.value, key) == Get(acc, key) + Repeated(values, Times(inputs, key))
    decreases |values|
  {
    hide PushAll, Get;
    if values == [] {
      assert Get(acc, key) + [] == Get(acc, key);
    } else {
      var next := PushAll(acc, inputs, values[0]);
      PushAllGets(acc, inputs, values[0], key);
      CollectBare(values[1..], next, inputs, key);
      assert GroupItems("", values, false)[1..] == GroupItems("", values[1..], false);
      Associate(Get(acc, key), seq(Times(inputs, key), _ => values[0]), Repeated(values[1..], Times(inputs, key)));
    }
  }

  lemma {:induction false} TimesOnce(inputs: seq<Port>, i: nat)
    requires i < |inputs| && forall j | 0 <= j < |inputs| && j != i :: inputs[j].anyName != inputs[i].anyName
    ensures Times(inputs, inputs[i].anyName) == 1
  {
    var key := inputs[i].anyName;
    if i > 0 {
      assert inputs[0].anyName != key && inputs[1..][i - 1] == inputs[i];
      forall j | 0 <= j < |inputs[1..]| && j != i - 1 ensures inputs[1..][j].anyName != key {
        assert inputs[1..][j] == inputs[j + 1];
      }
      TimesOnce(inputs[1..], i - 1);
    } else {
      forall j | 0 <= j < |inputs[1..]| ensures inputs[1..][j].anyName != key {
        assert inputs[1..][j] == inputs[j + 1];
      }
      TimesNever(inputs[1..], key);
    }
  }

  lemma {:induction false} TimesNever(inputs: seq<Port>, key: string)
    requires forall j | 0 <= j < |inputs| :: inputs[j].anyName != key
    ensures Times(inputs, key) == 0
  {
    if inputs != [] {
      forall j | 0 <= j < |inputs[1..]| ensures inputs[1..][j].anyName != key {
        assert inputs[1..][j] == inputs[j + 1];
      }
      TimesNever(inputs[1..], key);
    }
  }

  lemma {:induction false} RepeatedOnce(values: seq<string>)
    ensures Repeated(values, 1) == values
  {
    if values != [] {
      RepeatedOnce(values[1..]);
      assert seq(1, _ => values[0]) == [values[0]];
      assert values == [values[0]] + values[1..];
    }
  }

  // Values without any name, [v1][v2], go to every input, in order.
  lemma BareForEveryInput(values: seq<string>, inputs: seq<Port>)
    requires forall v | v in values :: ']' !in v
    ensures var r := Scan(Bracketed(values), "", map[], inputs);
      && r.Success?
      && (forall key :: Get(r.value, key) == Repeated(values, Times(inputs, key)))
      && ((forall i, j | 0 <= i < j < |inputs| :: inputs[i].anyName != inputs[j].anyName) ==>
            forall i | 0 <= i < |inputs| :: Get(r.value, inputs[i].anyName) == values)
  {
    hide Scan, Collect, Get, Bracketed, Times, Repeated, ItemsText;
    BareText(values);
    ScanItems(GroupItems("", values, false), "", map[], inputs);
    var r := Collect(GroupItems("", values, false), "", map[], inputs);
    forall key ensures r.Success? && Get(r.value, key) == Repeated(values, Times(inputs, key)) {
      CollectBare(values, map[], inputs, key);
      GetNothing(key, Repeated(values, Times(inputs, key)));
    }
    CollectBare(values, map[], inputs, "");
    if forall i, j | 0 <= i < j < |inputs| :: inputs[i].anyName != inputs[j].anyName {
      forall i | 0 <= i < |inputs| ensures Get(r.value, inputs[i].anyName) == values {
        TimesOnce(inputs, i);
        RepeatedOnce(values);
      }
    }
  }

  lemma GetNothing(key: string, values: seq<string>)
    ensures Get(map[], key) + values == values
  {
  }

  lemma BareText(values: seq<string>)
    requires forall v | v in values :: ']' !in v
    ensures ItemsText(GroupItems("", values, false)) == Bracketed(values)
    ensures WellFormed(GroupItems("", values, false))
  {
    var items := GroupItems("", values, false);
    assert items + [] == items;
    GroupClosed("", values, false, []);
    BareNames(values);
    if values != [] { GroupText("", values, false, []); }
  }

  lemma {:induction false} BareNames(values: seq<string>)
    ensures forall i | i in GroupItems("", values, false) :: i.name == ""
    decreases |values|
  {
    if values != [] { BareNames(values[1..]); }
  }

  // ----- How much is parsed -----

  // The number of values, or of their characters.
  function Size(values: seq<string>, chars: bool): nat {
    if values == [] then 0 else (if chars then |values[0]| else 1) + Size(values[1..], chars)
  }

  lemma {:induction false} SizeConcat(a: seq<string>, b: seq<string>, chars: bool)
    ensures Size(a + b, chars) == Size(a, chars) + Size(b, chars)
  {
    if a == [] {
      assert a + b == b;
    } else {
      assert (a + b)[1..] == a[1..] + b;
      SizeConcat(a[1..], b, chars);
    }
  }

  ghost function SomeKey(m: Parameters): (key: string)
    requires m != map[]
    ensures key in m
  {
    var key :| key in m;
    key
  }

  ghost function Total(m: Parameters, chars: bool): nat
    decreases |m|
  {
    if m == map[] then 0 else Size(m[SomeKey(m)], chars) + Total(m - {SomeKey(m)}, chars)
  }

  lemma {:induction false} TotalWithout(m: Parameters, key: string, chars: bool)
    requires key in m
    ensures Total(m, chars) == Size(m[key], chars) + Total(m - {key}, chars)
    decreases |m|
  {
    var other := SomeKey(m);
    if key != other {
      TotalWithout(m - {other}, key, chars);
      TotalWithout(m - {key}, other, chars);
      assert m - {other} - {key} == m - {key} - {other};
    }
  }

  lemma TotalAppend(m: Parameters, key: string, values: seq<string>, chars: bool)
    ensures Total(Append(m, key, values), chars) == Total(m, chars) + Size(values, chars)
  {
    hide Total, Size;
    var after := Append(m, key, values);
    TotalWithout(after, key, chars);
    assert after - {key} == m - {key};
    if key in m {
      TotalWithout(m, key, chars);
      SizeConcat(m[key], values, chars);
    } else {
      assert m - {key} == m && [] + values == values;
    }
  }

  function One(value: string, chars: bool): nat {
    if chars then |value| else 1
  }

  lemma TotalPush(m: Parameters, key: string, value: string, chars: bool)
    ensures Total(Push(m, key, value), chars) == Total(m, chars) + One(value, chars)
  {
    TotalAppend(m, key, [value], chars);
    assert Size([value][1..], chars) == 0;
  }

  lemma {:induction false} TotalPushAll(m: Parameters, inputs: seq<Port>, value: string, chars: bool)
    ensures Total(PushAll(m, inputs, value), chars) >= Total(m, chars) + if inputs == [] then 0 else One(value, chars)
    decreases |inputs|
  {
    hide Total;
    if inputs != [] {
      TotalPush(m, inputs[0].anyName, value, chars);
      TotalPushAll(Push(m, inputs[0].anyName, value), inputs[1..], value, chars);
    }
  }

  // Every accepted group files its value at least once.
  lemma TotalAdd(acc: Parameters, name: string, value: string, inputs: seq<Port>, chars: bool)
    requires inputs != [] && Add(acc, name, value, inputs).Success?
    ensures Total(Add(acc, name, value, inputs).value, chars) >= Total(acc, chars) + One(value, chars)
  {
    hide Total, Resolve;
    if name == "" {
      TotalPushAll(acc, inputs, value, chars);
    } else {
      TotalPush(acc, Resolve(name, inputs).value, value, chars);
    }
  }

  function Sum(groups: seq<Group>, chars: bool): nat {
    if groups == [] then 0 else Size(groups[0].values, chars) + Sum(groups[1..], chars)
  }

  lemma {:induction false} TotalGroups(acc: Parameters, groups: seq<Group>, inputs: seq<Port>, chars: bool)
    ensures Total(AppendGroups(acc, groups, inputs), chars) == Total(acc, chars) + Sum(groups, chars)
    decreases |groups|
  {
    hide Total, Append, KeyOf;
    if groups != [] {
      var key := KeyOf(groups[0], inputs);
      TotalAppend(acc, key, groups[0].values, chars);
      TotalGroups(Append(acc, key, groups[0].values), groups[1..], inputs, chars);
    }
  }

  function Closings(s: string): nat {
    if s == "" then 0 else (if s[0] == ']' then 1 else 0) + Closings(s[1..])
  }

  lemma {:induction false} ClosingsConcat(a: string, b: string)
    ensures Closings(a + b) == Closings(a) + Closings(b)
  {
    if a == "" {
      assert a + b == b;
    } else {
      assert (a + b)[1..] == a[1..] + b;
      ClosingsConcat(a[1..], b);
    }
  }

  lemma {:induction false} NoClosings(s: string)
    ensures Closings(s) == 0 <==> ']' !in s
  {
    if s != "" {
      NoClosings(s[1..]);
      assert s == [s[0]] + s[1..];
    }
  }

  // Each turn of the loop consumes one closing bracket and files a value.
  lemma {:induction false} EachClosingCounts(s: string, name: string, acc: Parameters, inputs: seq<Port>)
    requires inputs != [] && Scan(s, name, acc, inputs).Success?
    ensures Total(Scan(s, name, acc, inputs).value, false) >= Total(acc, false) + Closings(s)
    decreases |s|
  {
    if s == "" {
      assert Closings(s) == 0;
    } else {
      hide Scan, Until, Add, Value, Total, Closings, Separated;
      BothBrackets(s, name, acc, inputs);
      var start, end := Until(s, '['), Until(s, ']');
      ScanAt(s, start, end, name, acc, inputs);
      var current, rest := if start > 0 then s[..start] else name, s[end + 1..];
      TotalAdd(acc, current, Value(s, start, end), inputs, false);
      ClosingsAfter(s, end);
      if rest == "" {
        NoClosings(rest);
      } else {
        SeparatedShrinks(rest);
        EachClosingCounts(Separated(rest), current, Add(acc, current, Value(s, start, end), inputs).value, inputs);
      }
    }
  }

  lemma ClosingsAfter(s: string, end: nat)
    requires end == Until(s, ']') < |s|
    ensures Closings(s) == 1 + Closings(s[end + 1..])
  {
    hide Until, Closings;
    assert s == s[..end] + ("]" + s[end + 1..]);
    ClosingsConcat(s[..end], "]" + s[end + 1..]);
    ClosingsConcat("]", s[end + 1..]);
    NoClosings(s[..end]);
    OneClosing();
  }

  lemma OneClosing()
    ensures Closings("]") == 1 && Closings("[") == 0 && Closings(",") == 0 && Closings("") == 0
  {
    assert "]"[1..] == "" && "["[1..] == "" && ","[1..] == "";
  }

  lemma SeparatedShrinks(rest: string)
    requires rest != ""
    ensures |Separated(rest)| <= |rest| && Closings(Separated(rest)) == Closings(rest)
  {
    if rest[0] == ',' {
      assert Closings(rest) == Closings(rest[1..]);
    }
  }

  lemma {:induction false} BracketedCloses(values: seq<string>)
    ensures Closings(Bracketed(values)) >= Size(values, false)
    ensures Closings(Bracketed(values)) == Size(values, false) ==> forall v | v in values :: ']' !in v
  {
    OneClosing();
    if values != [] {
      hide Closings;
      var rest := Bracketed(values[1..]);
      BracketedCloses(values[1..]);
      assert Bracketed(values) == ("[" + values[0]) + ("]" + rest);
      ClosingsConcat("[" + values[0], "]" + rest);
      ClosingsConcat("[", values[0]);
      ClosingsConcat("]", rest);
      NoClosings(values[0]);
      assert values == [values[0]] + values[1..];
    }
  }

  // Rendered groups have a closing bracket for every value, and more unless they are sealed.
  lemma {:induction false} RenderCloses(groups: seq<Group>)
    ensures Closings(Render(groups)) >= Sum(groups, false)
    ensures Closings(Render(groups)) == Sum(groups, false) ==> forall g | g in groups :: Sealed(g)
  {
    OneClosing();
    if groups != [] {
      hide Closings, Bracketed, Size;
      var g, rest := groups[0], Render(groups[1..]);
      var separator := Separator(|groups| > 1);
      RenderCloses(groups[1..]);
      ClosingsConcat(g.name + Bracketed(g.values) + separator, rest);
      ClosingsConcat(g.name + Bracketed(g.values), separator);
      ClosingsConcat(g.name, Bracketed(g.values));
      NoClosings(g.name);
      BracketedCloses(g.values);
      assert groups == [g] + groups[1..];
    }
  }

  function Chars(items: seq<Item>): nat {
    if items == [] then 0 else |items[0].value| + Chars(items[1..])
  }

  lemma {:induction false} CharsConcat(a: seq<Item>, b: seq<Item>)
    ensures Chars(a + b) == Chars(a) + Chars(b)
  {
    if a == [] {
      assert a + b == b;
    } else {
      assert (a + b)[1..] == a[1..] + b;
      CharsConcat(a[1..], b);
    }
  }

  lemma {:induction false} GroupChars(name: string, values: seq<string>, comma: bool)
    ensures Chars(GroupItems(name, values, comma)) == Size(values, true)
    decreases |values|
  {
    if values != [] {
      assert GroupItems(name, values, comma)[1..] == GroupItems("", values[1..], comma);
      GroupChars("", values[1..], comma);
    }
  }

  lemma {:induction false} FlattenedChars(groups: seq<Group>)
    ensures Chars(Flattened(groups)) == Sum(groups, true)
  {
    if groups != [] {
      FlattenedChars(groups[1..]);
      GroupChars(groups[0].name, groups[0].values, |groups| > 1);
      CharsConcat(GroupItems(groups[0].name, groups[0].values, |groups| > 1), Flattened(groups[1..]));
    }
  }

  lemma Layout(name: string, value: string, tail: string)
    ensures var s, n, end := name + "[" + value + "]" + tail, |name|, |name| + 1 + |value|;
      && end < |s| && s[..n] == name && s[n] == '[' && s[n + 1..end] == value && s[end] == ']' && s[end + 1..] == tail
  {
    var s, n, end := name + "[" + value + "]" + tail, |name|, |name| + 1 + |value|;
    assert s[..n] == name;
    assert s[n + 1..end] == value;
    assert s[end + 1..] == tail;
  }

  // An item whose name opens a bracket gives part of its name to its value.
  lemma ValueStretches(s: string, i: Item, end: nat)
    requires ']' !in i.name && ']' !in i.value && end == |i.name| + 1 + |i.value| < |s|
    requires s[..|i.name|] == i.name && s[|i.name|] == '[' && s[|i.name| + 1..end] == i.value && s[end] == ']'
    ensures Until(s, '[') <= |i.name| && Until(s, ']') == end
    ensures '[' in i.name ==> Until(s, '[') < |i.name|
  {
    hide Until;
    forall j | 0 <= j < end ensures s[..end][j] != ']' {
      if j < |i.name| {
        assert s[j] == i.name[j];
      } else if j > |i.name| {
        assert s[j] == i.value[j - |i.name| - 1];
      }
    }
    UntilAt(s, ']', end);
    if '[' in i.name {
      UntilEnd(i.name, '[');
      var k := Until(i.name, '[');
      assert s[..k] == i.name[..k] && s[k] == i.name[k];
      UntilAt(s, '[', k);
    } else {
      UntilAt(s, '[', |i.name|);
    }
  }

  // The turn of the loop that reads an item.
  lemma ItemCounts(i: Item, tail: string, name: string, acc: Parameters, inputs: seq<Port>)
    returns (current: string, next: Parameters)
    requires ']' !in i.name && ']' !in i.value && inputs != []
    ensures var r := Scan(i.name + "[" + i.value + "]" + tail, name, acc, inputs); r.Success? ==>
      && r == (if tail == "" then Success(next) else Scan(Separated(tail), current, next, inputs))
      && Total(next, true) >= Total(acc, true) + |i.value|
      && ('[' in i.name ==> Total(next, true) > Total(acc, true) + |i.value|)
  {
    hide Scan, Until, Add, Total, Separated;
    var s, end := i.name + "[" + i.value + "]" + tail, |i.name| + 1 + |i.value|;
    current, next := name, acc;
    Layout(i.name, i.value, tail);
    ValueStretches(s, i, end);
    var start := Until(s, '[');
    ScanAt(s, start, end, name, acc, inputs);
    if Scan(s, name, acc, inputs).Success? {
      current := if start > 0 then s[..start] else name;
      next := Add(acc, current, Value(s, start, end), inputs).value;
      TotalAdd(acc, current, Value(s, start, end), inputs, true);
    }
  }

  lemma {:induction false} EachCharCounts(items: seq<Item>, name: string, acc: Parameters, inputs: seq<Port>)
    requires Closed(items) && inputs != [] && Scan(ItemsText(items), name, acc, inputs).Success?
    ensures var total := Total(Scan(ItemsText(items), name, acc, inputs).value, true);
      && total >= Total(acc, true) + Chars(items)
      && (Opening(items) ==> total > Total(acc, true) + Chars(items))
    decreases |items|
  {
    hide Scan, Total, Separated, Closed, ItemsText, Opening;
    NoItems();
    if items == [] {
      ScanNothing(name, acc, inputs);
    } else {
      var i, rest := items[0], items[1..];
      var tail := Separator(i.comma) + ItemsText(rest);
      ItemThenTail(items, tail);
      ItemSealed(items);
      var current, next := ItemCounts(i, tail, name, acc, inputs);
      OpeningFirst(items);
      ScanNothing(current, next, inputs);
      if tail != "" {
        EachCharCounts(rest, current, next, inputs);
      }
    }
  }

  lemma ScanNothing(name: string, acc: Parameters, inputs: seq<Port>)
    ensures Scan("", name, acc, inputs) == Success(acc) && !Opening([])
  {
  }

  lemma OpeningFirst(items: seq<Item>)
    requires items != []
    ensures Opening(items) <==> '[' in items[0].name || Opening(items[1..])
  {
    OpeningSplits([items[0]], items[1..]);
    assert items == [items[0]] + items[1..];
    assert Opening([items[0]]) <==> '[' in items[0].name by { assert items[0] in [items[0]]; }
  }

  lemma ItemSealed(items: seq<Item>)
    requires Closed(items) && items != []
    ensures ']' !in items[0].name && ']' !in items[0].value
  {
    assert items[0] in items;
  }

  // Rendered groups parse to what they mean exactly when no name has a bracket and no
  // value a closing one.
  lemma RenderedExactly(groups: seq<Group>, inputs: seq<Port>)
    requires forall g | g in groups :: Known(g, inputs)
    ensures var r := Scan(Render(groups), "", map[], inputs);
      (r.Success? && Gives(r.value, groups, inputs)) <==> forall g | g in groups :: Readable(g)
  {
    hide Scan, Render, Gives, Readable, Known;
    var r := Scan(Render(groups), "", map[], inputs);
    if forall g | g in groups :: Readable(g) {
      ReadableParses(groups, inputs);
    }
    if r.Success? {
      GivesExactly(r.value, groups, inputs);
      if Gives(r.value, groups, inputs) {
        ParsedIsReadable(groups, inputs);
      }
    }
  }

  lemma ReadableParses(groups: seq<Group>, inputs: seq<Port>)
    requires forall g | g in groups :: Known(g, inputs) && Readable(g)
    ensures var r := Scan(Render(groups), "", map[], inputs); r.Success? && Gives(r.value, groups, inputs)
  {
    hide Scan, Collect, Closed, Render, Resolve, Gives, Opening;
    FlattenedText(groups);
    FlattenedClosed(groups);
    NothingOpens(Flattened(groups));
    ScanItems(Flattened(groups), "", map[], inputs);
    CollectGroups(groups, "", map[], inputs);
    GivesExactly(AppendGroups(map[], groups, inputs), groups, inputs);
  }

  lemma NothingOpens(items: seq<Item>)
    requires Closed(items) && !Opening(items)
    ensures WellFormed(items)
  {
  }

  lemma ParsedIsReadable(groups: seq<Group>, inputs: seq<Port>)
    requires forall g | g in groups :: Known(g, inputs)
    requires Scan(Render(groups), "", map[], inputs) == Success(AppendGroups(map[], groups, inputs))
    ensures forall g | g in groups :: Readable(g)
  {
    hide Scan, Render, Total, Closings, Sum, AppendGroups, Opening, Closed, Chars;
    if groups != [] {
      assert Known(groups[0], inputs);
      KnownNeedsInputs(groups[0], inputs);
      EachClosingCounts(Render(groups), "", map[], inputs);
      TotalGroups(map[], groups, inputs, false);
      RenderCloses(groups);
      FlattenedText(groups);
      FlattenedClosed(groups);
      EachCharCounts(Flattened(groups), "", map[], inputs);
      FlattenedChars(groups);
      TotalGroups(map[], groups, inputs, true);
    }
  }

  lemma KnownNeedsInputs(g: Group, inputs: seq<Port>)
    requires g.name != "" && Resolve(g.name, inputs).Some?
    ensures inputs != []
  {
  }

  // A name that holds a closing bracket is cut in two: text that no list of items has
  // is accepted.
  lemma ClosingNameMisread()
    ensures var inputs := [Port({"x],y", "y"}, "n", "y")];
      Scan("x],y[v]", "", map[], inputs) == Success(map["x],y" := ["v]"], "y" := ["v"]])
  {
    hide Until, Scan, Value;
    var s, inputs := "x],y[v]", [Port({"x],y", "y"}, "n", "y")];
    UntilFound("x],y", '[', "v]");
    UntilFound("x", ']', ",y[v]");
    assert s == "x],y" + ['['] + "v]" == "x" + [']'] + ",y[v]";
    assert Value(s, 4, 1) == "v]" by { ValueWraps(); }
    assert "x],y" in inputs[0].names && "y" in inputs[0].names;
    ScanAt(s, 4, 1, "", map[], inputs);
    assert s[..4] == "x],y" && s[2..] == ",y[v]" && Separated(s[2..]) == "y[v]";
    var i, next := Item("y", "v", false), map["x],y" := ["v]"]];
    assert [] + ["v]"] == ["v]"] && [] + ["v"] == ["v"];
    assert Push(map[], "x],y", "v]") == next;
    assert Push(next, "y", "v") == next["y" := ["v"]];
    ScanOne(i, "", "x],y", next, inputs);
    assert i.name + "[" + i.value + "]" + "" == "y[v]";
  }

  lemma ValueWraps()
    ensures Value("x],y[v]", 4, 1) == "v]"
  {
  }
}
