// The two constant-rewriting passes over a TorchScript graph,
// openvino/python/openvino/frontend/pytorch/ts_decoder.py.
module TorchScriptPasses {

  type Id = nat

  datatype Val = None | Tensor(id: nat) | List(vals: seq<Val>) | Other(id: nat)

  datatype Type = NoneType | TensorType | ListOfTensors | ListOfOptionalTensors | Optional | OtherType

  // The inputs of an operation include the values its nested blocks capture.
  datatype Node =
    | Constant(out: Id, value: Val, typ: Type)
    | ListConstruct(out: Id, inputs: seq<Id>)
    | Op(name: string, inputs: seq<Id>, outs: seq<Id>)

  datatype Graph = Graph(inputs: seq<Id>, nodes: seq<Node>, outputs: seq<Id>)

  predicate IsTensorList(t: Type) {
    t.ListOfTensors? || t.ListOfOptionalTensors?
  }

  // The type insertConstant gives to a value.
  function Infer(v: Val): Type {
    match v
    case None => NoneType
    case Tensor(_) => TensorType
    case List(vals) =>
      if vals == [] || exists x | x in vals :: !x.None? && !x.Tensor? then OtherType
      else if exists x | x in vals :: x.None? then ListOfOptionalTensors
      else ListOfTensors
    case Other(_) => OtherType
  }

  function Ins(n: Node): seq<Id> {
    if n.Constant? then [] else n.inputs
  }

  function Outs(n: Node): seq<Id> {
    if n.Op? then n.outs else [n.out]
  }

  function Ids(s: seq<Id>): set<Id> {
    set i | i in s
  }

  // ----- Meaning -----

  type Env = map<Id, Val>
  // An operation maps its name, its arguments and an output index to a value.
  type Semantics = (string, seq<Val>, nat) -> Val

  // Definitions come before uses and nothing is defined twice.
  predicate Ordered(nodes: seq<Node>, bound: set<Id>) {
    nodes == [] ||
    var n := nodes[0];
    && (forall i | i in Ins(n) :: i in bound)
    && (forall o | o in Outs(n) :: o !in bound)
    && Ordered(nodes[1..], bound + Ids(Outs(n)))
  }

  function Defined(nodes: seq<Node>, bound: set<Id>): set<Id> {
    if nodes == [] then bound else Defined(nodes[1..], bound + Ids(Outs(nodes[0])))
  }

  function Read(env: Env, ids: seq<Id>): (vals: seq<Val>)
    requires forall i | i in ids :: i in env
    ensures |vals| == |ids|
  {
    seq(|ids|, k requires 0 <= k < |ids| => env[ids[k]])
  }

  function BindOuts(env: Env, outs: seq<Id>, k: nat, name: string, args: seq<Val>, sem: Semantics): (r: Env)
    requires k <= |outs|
    ensures r.Keys == env.Keys + Ids(outs[k..])
    ensures forall i | i in env && i !in outs[k..] :: r[i] == env[i]
    decreases |outs| - k
  {
    if k == |outs| then env
    else
      assert outs[k..] == [outs[k]] + outs[k + 1..];
      BindOuts(env[outs[k] := sem(name, args, k)], outs, k + 1, name, args, sem)
  }

  function EvalNode(n: Node, env: Env, sem: Semantics): (r: Env)
    requires forall i | i in Ins(n) :: i in env
    ensures r.Keys == env.Keys + Ids(Outs(n))
    ensures forall i | i in env && i !in Outs(n) :: r[i] == env[i]
  {
    match n
    case Constant(out, value, _) => env[out := value]
    case ListConstruct(out, inputs) => env[out := List(Read(env, inputs))]
    case Op(name, inputs, outs) =>
      assert outs[0..] == outs;
      BindOuts(env, outs, 0, name, Read(env, inputs), sem)
  }

  function EvalNodes(nodes: seq<Node>, env: Env, sem: Semantics): (r: Env)
    requires Ordered(nodes, env.Keys)
    ensures r.Keys == Defined(nodes, env.Keys)
  {
    if nodes == [] then env else EvalNodes(nodes[1..], EvalNode(nodes[0], env, sem), sem)
  }

  predicate WellFormed(g: Graph) {
    && Ordered(g.nodes, Ids(g.inputs))
    && (forall o | o in g.outputs :: o in Defined(g.nodes, Ids(g.inputs)))
  }

  // The values of the graph outputs when the inputs are bound by env.
  function Meaning(g: Graph, env: Env, sem: Semantics): seq<Val>
    requires WellFormed(g) && env.Keys == Ids(g.inputs)
  {
    Read(EvalNodes(g.nodes, env, sem), g.outputs)
  }

  // ----- Composition -----

  lemma {:induction false} Concat(a: seq<Node>, b: seq<Node>, bound: set<Id>)
    ensures Ordered(a + b, bound) <==> Ordered(a, bound) && Ordered(b, Defined(a, bound))
    ensures Defined(a + b, bound) == Defined(b, Defined(a, bound))
  {
    if a == [] {
      assert a + b == b;
    } else {
      assert (a + b)[1..] == a[1..] + b;
      Concat(a[1..], b, bound + Ids(Outs(a[0])));
    }
  }

  lemma {:induction false} EvalConcat(a: seq<Node>, b: seq<Node>, env: Env, sem: Semantics)
    requires Ordered(a + b, env.Keys)
    ensures Ordered(a, env.Keys) && Ordered(b, Defined(a, env.Keys))
    ensures EvalNodes(a + b, env, sem) == EvalNodes(b, EvalNodes(a, env, sem), sem)
  {
    Concat(a, b, env.Keys);
    if a == [] {
      assert a + b == b;
    } else {
      assert (a + b)[1..] == a[1..] + b;
      EvalConcat(a[1..], b, EvalNode(a[0], env, sem), sem);
    }
  }

  lemma {:induction false} DefinedGrows(nodes: seq<Node>, bound: set<Id>)
    ensures bound <= Defined(nodes, bound)
  {
    if nodes != [] {
      DefinedGrows(nodes[1..], bound + Ids(Outs(nodes[0])));
    }
  }

  // ----- Renaming uses -----

  function RenameIds(ids: seq<Id>, v: Id, w: Id): seq<Id> {
    seq(|ids|, k requires 0 <= k < |ids| => if ids[k] == v then w else ids[k])
  }

  function RenameNode(n: Node, v: Id, w: Id): Node {
    if n.Constant? then n else n.(inputs := RenameIds(n.inputs, v, w))
  }

  function Rename(nodes: seq<Node>, v: Id, w: Id): seq<Node> {
    seq(|nodes|, k requires 0 <= k < |nodes| => RenameNode(nodes[k], v, w))
  }

  // env' knows everything env knows, and w for v.
  ghost predicate Mirrors(env': Env, env: Env, v: Id, w: Id) {
    && (forall i | i in env :: i in env' && env'[i] == env[i])
    && v in env && w in env' && env'[w] == env[v]
  }

  lemma {:induction false} BindMirrors(env: Env, env': Env, v: Id, w: Id, outs: seq<Id>, k: nat, name: string,
        args: seq<Val>, sem: Semantics)
    requires Mirrors(env', env, v, w) && k <= |outs| && v !in outs && w !in outs
    ensures Mirrors(BindOuts(env', outs, k, name, args, sem), BindOuts(env, outs, k, name, args, sem), v, w)
    decreases |outs| - k
  {
    if k < |outs| {
      var val := sem(name, args, k);
      BindMirrors(env[outs[k] := val], env'[outs[k] := val], v, w, outs, k + 1, name, args, sem);
    }
  }

  lemma NodeMirrors(n: Node, env: Env, env': Env, v: Id, w: Id, sem: Semantics)
    requires Mirrors(env', env, v, w)
    requires (forall i | i in Ins(n) :: i in env) && v !in Outs(n) && w !in Outs(n)
    ensures forall i | i in Ins(RenameNode(n, v, w)) :: i in env'
    ensures Mirrors(EvalNode(RenameNode(n, v, w), env', sem), EvalNode(n, env, sem), v, w)
  {
    if !n.Constant? {
      RenamedRead(n.inputs, env, env', v, w);
      if n.Op? {
        BindMirrors(env, env', v, w, n.outs, 0, n.name, Read(env, n.inputs), sem);
      }
    }
  }

  lemma RenamedRead(ids: seq<Id>, env: Env, env': Env, v: Id, w: Id)
    requires Mirrors(env', env, v, w) && forall i | i in ids :: i in env
    ensures forall i | i in RenameIds(ids, v, w) :: i in env'
    ensures Read(env', RenameIds(ids, v, w)) == Read(env, ids)
  {
    assert forall k | 0 <= k < |ids| :: ids[k] in env;
  }

  // Replacing v by w in a suffix where both have the same value changes nothing.
  lemma {:induction false} SuffixMirrors(nodes: seq<Node>, env: Env, env': Env, v: Id, w: Id, sem: Semantics)
    requires Ordered(nodes, env.Keys) && Mirrors(env', env, v, w)
    requires Defined(nodes, env.Keys) !! env'.Keys - env.Keys && w !in env
    ensures Ordered(Rename(nodes, v, w), env'.Keys)
    ensures Mirrors(EvalNodes(Rename(nodes, v, w), env', sem), EvalNodes(nodes, env, sem), v, w)
  {
    if nodes != [] {
      var n, n' := nodes[0], RenameNode(nodes[0], v, w);
      assert Rename(nodes, v, w)[1..] == Rename(nodes[1..], v, w) && Outs(n') == Outs(n);
      DefinedGrows(nodes[1..], env.Keys + Ids(Outs(n)));
      forall o | o in Outs(n) ensures o !in env' {
        assert o in Ids(Outs(n)) && o in Defined(nodes, env.Keys);
      }
      NodeMirrors(n, env, env', v, w, sem);
      SuffixMirrors(nodes[1..], EvalNode(n, env, sem), EvalNode(n', env', sem), v, w, sem);
    }
  }

  // ----- One replacement -----

  // Node i is a constant. Put `news` before it and let w, which they define, take
  // over all of its uses.
  function Replaced(g: Graph, i: nat, news: seq<Node>, w: Id): Graph
    requires i < |g.nodes| && g.nodes[i].Constant?
  {
    var v := g.nodes[i].out;
    Graph(g.inputs, Rename(g.nodes[..i] + news + g.nodes[i..], v, w), RenameIds(g.outputs, v, w))
  }

  // All ids of the graph are older than next.
  ghost predicate Below(g: Graph, next: Id) {
    && (forall i | i in g.inputs :: i < next)
    && (forall k, o | 0 <= k < |g.nodes| && o in Outs(g.nodes[k]) :: o < next)
  }

  lemma {:induction false} DefinedBelow(nodes: seq<Node>, bound: set<Id>, next: Id)
    requires forall i | i in bound :: i < next
    requires forall k, o | 0 <= k < |nodes| && o in Outs(nodes[k]) :: o < next
    ensures forall i | i in Defined(nodes, bound) :: i < next
  {
    if nodes != [] {
      assert forall o | o in Outs(nodes[0]) :: o < next;
      forall k, o | 0 <= k < |nodes| - 1 && o in Outs(nodes[1..][k]) ensures o < next {
        assert o in Outs(nodes[k + 1]);
      }
      DefinedBelow(nodes[1..], bound + Ids(Outs(nodes[0])), next);
    }
  }

  // A node that comes before the definition of v does not use it.
  lemma {:induction false} NoUseBefore(nodes: seq<Node>, bound: set<Id>, v: Id, w: Id)
    requires Ordered(nodes, bound) && v !in Defined(nodes, bound)
    ensures Rename(nodes, v, w) == nodes
  {
    if nodes != [] {
      DefinedGrows(nodes, bound);
      NoUseBefore(nodes[1..], bound + Ids(Outs(nodes[0])), v, w);
      assert Rename(nodes, v, w)[1..] == Rename(nodes[1..], v, w);
      assert nodes == [nodes[0]] + nodes[1..];
      var n := nodes[0];
      if !n.Constant? {
        assert forall k | 0 <= k < |n.inputs| :: n.inputs[k] in bound;
        assert RenameIds(n.inputs, v, w) == n.inputs;
      }
    }
  }

  lemma {:induction false} EvalKeeps(nodes: seq<Node>, env: Env, sem: Semantics, k: Id)
    requires Ordered(nodes, env.Keys) && k in env
    ensures k in EvalNodes(nodes, env, sem) && EvalNodes(nodes, env, sem)[k] == env[k]
  {
    if nodes != [] {
      assert k !in Outs(nodes[0]);
      EvalKeeps(nodes[1..], EvalNode(nodes[0], env, sem), sem, k);
    }
  }

  lemma RenameConcat(a: seq<Node>, b: seq<Node>, v: Id, w: Id)
    ensures Rename(a + b, v, w) == Rename(a, v, w) + Rename(b, v, w)
  {
  }

  // The nodes `news`, run in env, define only fresh ids and give w the value x.
  ghost predicate Stands(news: seq<Node>, env: Env, w: Id, x: Val, next: Id, sem: Semantics) {
    && Ordered(news, env.Keys)
    && (forall k | k in Defined(news, env.Keys) && k !in env :: k >= next)
    && w in Defined(news, env.Keys) && w !in env
    && EvalNodes(news, env, sem)[w] == x
  }

  lemma HeadOf(c: Node, post: seq<Node>, env: Env, sem: Semantics)
    requires c.Constant? && c.out !in env && Ordered(post, env[c.out := c.value].Keys)
    ensures Ordered([c] + post, env.Keys)
    ensures EvalNodes([c] + post, env, sem) == EvalNodes(post, env[c.out := c.value], sem)
  {
    assert ([c] + post)[1..] == post && Ids(Outs(c)) == {c.out};
    assert env[c.out := c.value].Keys == env.Keys + {c.out};
  }

  lemma ReplaceHere(c: Node, post: seq<Node>, news: seq<Node>, w: Id, next: Id, env: Env, sem: Semantics)
    requires c.Constant? && c.out !in env && Ordered(post, env.Keys + {c.out})
    requires forall k | k in Defined(post, env.Keys + {c.out}) :: k < next
    requires Stands(news, env, w, c.value, next, sem)
    ensures var v := c.out;
            && Rename(news, v, w) == news
            && Ordered(news + ([c] + Rename(post, v, w)), env.Keys)
            && Ordered([c] + post, env.Keys)
            && Mirrors(EvalNodes(news + ([c] + Rename(post, v, w)), env, sem), EvalNodes([c] + post, env, sem), v, w)
  {
    var v, post' := c.out, Rename(post, c.out, w);
    var there := EvalNodes(news, env, sem);
    DefinedGrows(news, env.Keys);
    DefinedGrows(post, env.Keys + {v});
    assert v in env.Keys + {v};
    NoUseBefore(news, env.Keys, v, w);
    var after, after' := env[v := c.value], there[v := c.value];
    assert after.Keys == env.Keys + {v} && after'.Keys == there.Keys + {v};
    forall k | k in after ensures k in after' && after'[k] == after[k] {
      if k != v { EvalKeeps(news, env, sem, k); }
    }
    SuffixMirrors(post, after, after', v, w, sem);
    HeadOf(c, post, env, sem);
    assert v !in there;
    HeadOf(c, post', there, sem);
    Concat(news, [c] + post', env.Keys);
    EvalConcat(news, [c] + post', env, sem);
  }

  lemma ReplaceAfter(pre: seq<Node>, c: Node, post: seq<Node>, news: seq<Node>, w: Id, next: Id, env: Env,
        sem: Semantics)
    requires c.Constant? && Ordered(pre + ([c] + post), env.Keys)
    requires forall k | k in Defined(pre + ([c] + post), env.Keys) :: k < next
    requires Ordered(pre, env.Keys) && Stands(news, EvalNodes(pre, env, sem), w, c.value, next, sem)
    ensures var after := pre + (news + ([c] + Rename(post, c.out, w)));
            && Rename(pre + news + ([c] + post), c.out, w) == after
            && Ordered(after, env.Keys)
            && Mirrors(EvalNodes(after, env, sem), EvalNodes(pre + ([c] + post), env, sem), c.out, w)
  {
    hide Ordered, Defined, EvalNodes, Stands, Mirrors, Rename;
    var v, post' := c.out, Rename(post, c.out, w);
    var here := EvalNodes(pre, env, sem);
    EvalConcat(pre, [c] + post, env, sem);
    Concat(pre, [c] + post, env.Keys);
    Tail(c, post, here.Keys);
    ReplaceHere(c, post, news, w, next, here, sem);
    RenamePieces(pre, c, post, news, env.Keys, w);
    Concat(pre, news + ([c] + post'), env.Keys);
    EvalConcat(pre, news + ([c] + post'), env, sem);
  }

  lemma Tail(c: Node, post: seq<Node>, bound: set<Id>)
    requires c.Constant? && Ordered([c] + post, bound)
    ensures c.out !in bound && Ordered(post, bound + {c.out})
    ensures Defined([c] + post, bound) == Defined(post, bound + {c.out})
  {
    assert ([c] + post)[1..] == post && Ids(Outs(c)) == {c.out} && c.out in Outs(c);
  }

  lemma RenamePieces(pre: seq<Node>, c: Node, post: seq<Node>, news: seq<Node>, bound: set<Id>, w: Id)
    requires c.Constant? && Ordered(pre, bound) && c.out !in Defined(pre, bound) && Rename(news, c.out, w) == news
    ensures Rename(pre + news + ([c] + post), c.out, w) == pre + (news + ([c] + Rename(post, c.out, w)))
  {
    var v := c.out;
    NoUseBefore(pre, bound, v, w);
    RenameConcat(pre + news, [c] + post, v, w);
    RenameConcat(pre, news, v, w);
    RenameConcat([c], post, v, w);
    assert Rename([c], v, w) == [c];
  }

  // Replacing a constant by something that stands for it preserves the order of
  // definitions and the value of every graph output.
  lemma ReplacePreserves(g: Graph, i: nat, news: seq<Node>, w: Id, next: Id, env: Env, sem: Semantics)
    requires WellFormed(g) && Below(g, next) && env.Keys == Ids(g.inputs)
    requires i < |g.nodes| && g.nodes[i].Constant? && Ordered(g.nodes[..i], env.Keys)
    requires Stands(news, EvalNodes(g.nodes[..i], env, sem), w, g.nodes[i].value, next, sem)
    ensures WellFormed(Replaced(g, i, news, w))
    ensures Meaning(Replaced(g, i, news, w), env, sem) == Meaning(g, env, sem)
  {
    hide Stands, Ordered, Defined, EvalNodes, Rename;
    var pre, c, post := g.nodes[..i], g.nodes[i], g.nodes[i + 1..];
    assert g.nodes[i..] == [c] + post && g.nodes == pre + ([c] + post);
    DefinedBelow(g.nodes, env.Keys, next);
    ReplaceAfter(pre, c, post, news, w, next, env, sem);
    var g' := Replaced(g, i, news, w);
    var old', new' := EvalNodes(g.nodes, env, sem), EvalNodes(g'.nodes, env, sem);
    assert Read(new', RenameIds(g.outputs, c.out, w)) == Read(old', g.outputs);
  }

  // ----- Uses -----

  ghost predicate Used(g: Graph, x: Id) {
    x in g.outputs || exists k | 0 <= k < |g.nodes| :: x in Ins(g.nodes[k])
  }

  predicate ListConstant(n: Node) {
    n.Constant? && IsTensorList(n.typ)
  }

  predicate OptionalConstant(n: Node) {
    n.Constant? && n.typ.Optional?
  }

  // An optional-typed constant whose value is a list of tensors.
  predicate OptionalListConstant(n: Node) {
    OptionalConstant(n) && IsTensorList(Infer(n.value))
  }

  predicate AnyListConstant(n: Node) {
    ListConstant(n) || OptionalListConstant(n)
  }

  // Node k is a constant of this kind and used directly.
  ghost predicate UsedAt(g: Graph, kind: Node -> bool, k: int) {
    0 <= k < |g.nodes| && g.nodes[k].Constant? && kind(g.nodes[k]) && Used(g, g.nodes[k].out)
  }

  ghost predicate SomeUsed(g: Graph, kind: Node -> bool) {
    exists k :: UsedAt(g, kind, k)
  }

  // What TorchScript promises about a constant of a tensor-list type.
  ghost predicate TypedNode(n: Node) {
    ListConstant(n) ==> n.value.List? && forall x | x in n.value.vals :: x.None? || x.Tensor?
  }

  ghost predicate Typed(g: Graph) {
    forall k | 0 <= k < |g.nodes| :: TypedNode(g.nodes[k])
  }

  lemma {:induction false} UsesAreDefined(nodes: seq<Node>, bound: set<Id>, k: nat, x: Id)
    requires Ordered(nodes, bound) && k < |nodes| && x in Ins(nodes[k]) + Outs(nodes[k])
    ensures x in Defined(nodes, bound)
    ensures x in Outs(nodes[k]) ==> x !in bound
  {
    DefinedGrows(nodes, bound);
    DefinedGrows(nodes[1..], bound + Ids(Outs(nodes[0])));
    if k > 0 {
      UsesAreDefined(nodes[1..], bound + Ids(Outs(nodes[0])), k - 1, x);
    } else {
      assert x in Ins(nodes[0]) || x in Ids(Outs(nodes[0]));
    }
  }

  lemma {:induction false} DefinedOnce(nodes: seq<Node>, bound: set<Id>, j: nat, k: nat, x: Id)
    requires Ordered(nodes, bound) && j < k < |nodes| && x in Outs(nodes[j])
    ensures x !in Outs(nodes[k])
  {
    if j > 0 {
      DefinedOnce(nodes[1..], bound + Ids(Outs(nodes[0])), j - 1, k - 1, x);
    } else if x in Outs(nodes[k]) {
      assert nodes[1..][k - 1] == nodes[k];
      UsesAreDefined(nodes[1..], bound + Ids(Outs(nodes[0])), k - 1, x);
    }
  }

  // The new nodes use and define fresh ids only, and do not use w.
  ghost predicate Fresh(news: seq<Node>, w: Id, next: Id, last: Id) {
    && next <= w < last
    && (forall k, x | 0 <= k < |news| && x in Ins(news[k]) :: next <= x < last && x != w)
    && (forall k, x | 0 <= k < |news| && x in Outs(news[k]) :: next <= x < last)
  }

  // Where node k of g ends up when n nodes are inserted before node i.
  function Moved(k: nat, i: nat, n: nat): nat {
    if k < i then k else k + n
  }

  lemma NodesMove(g: Graph, i: nat, news: seq<Node>, w: Id)
    requires i < |g.nodes| && g.nodes[i].Constant?
    ensures var g', v := Replaced(g, i, news, w), g.nodes[i].out;
            && |g'.nodes| == |g.nodes| + |news|
            && (forall k | 0 <= k < |g.nodes| :: g'.nodes[Moved(k, i, |news|)] == RenameNode(g.nodes[k], v, w))
            && (forall k | 0 <= k < |news| :: g'.nodes[i + k] == RenameNode(news[k], v, w))
  {
  }

  lemma RenameIns(n: Node, v: Id, w: Id, x: Id)
    requires v != w
    ensures x in Ins(RenameNode(n, v, w)) <==> (x != v && x in Ins(n)) || (x == w && v in Ins(n))
    ensures Outs(RenameNode(n, v, w)) == Outs(n)
  {
    RenamedIds(Ins(n), v, w, x);
  }

  lemma RenamedIds(ids: seq<Id>, v: Id, w: Id, x: Id)
    requires v != w
    ensures x in RenameIds(ids, v, w) <==> (x != v && x in ids) || (x == w && v in ids)
  {
    var r := RenameIds(ids, v, w);
    if x != v && x in ids {
      var k :| 0 <= k < |ids| && ids[k] == x;
      assert r[k] == x;
    }
    if x == w && v in ids {
      var k :| 0 <= k < |ids| && ids[k] == v;
      assert r[k] == x;
    }
  }

  // The uses of the constant become uses of w; all other uses stay.
  lemma UsesMove(g: Graph, i: nat, news: seq<Node>, w: Id, next: Id, last: Id, x: Id)
    requires Below(g, next) && i < |g.nodes| && g.nodes[i].Constant? && Fresh(news, w, next, last)
    requires x < next || x == w
    requires x == w ==> !Used(g, w)
    ensures var v := g.nodes[i].out;
            Used(Replaced(g, i, news, w), x) <==> if x == v then false else if x == w then Used(g, v) else Used(g, x)
  {
    var g', v := Replaced(g, i, news, w), g.nodes[i].out;
    assert v in Outs(g.nodes[i]);
    RenamedIds(g.outputs, v, w, x);
    if k' :| 0 <= k' < |g'.nodes| && x in Ins(g'.nodes[k']) {
      UseBack(g, i, news, w, next, last, x, k');
    }
    if k :| 0 <= k < |g.nodes| && x != v && x in Ins(g.nodes[k]) {
      UseForth(g, i, news, w, x, k);
    }
    if k :| 0 <= k < |g.nodes| && x == w && v in Ins(g.nodes[k]) {
      UseForth(g, i, news, w, x, k);
    }
  }

  lemma UseBack(g: Graph, i: nat, news: seq<Node>, w: Id, next: Id, last: Id, x: Id, k': nat)
    requires i < |g.nodes| && g.nodes[i].Constant? && g.nodes[i].out < next && Fresh(news, w, next, last)
    requires (x < next || x == w) && k' < |Replaced(g, i, news, w).nodes| && x in Ins(Replaced(g, i, news, w).nodes[k'])
    ensures exists k | 0 <= k < |g.nodes| ::
      (x != g.nodes[i].out && x in Ins(g.nodes[k])) || (x == w && g.nodes[i].out in Ins(g.nodes[k]))
  {
    var v, n := g.nodes[i].out, |news|;
    NodesMove(g, i, news, w);
    if i <= k' < i + n {
      RenameIns(news[k' - i], v, w, x);
    } else {
      var k := if k' < i then k' else k' - n;
      assert Moved(k, i, n) == k';
      RenameIns(g.nodes[k], v, w, x);
    }
  }

  lemma UseForth(g: Graph, i: nat, news: seq<Node>, w: Id, x: Id, k: nat)
    requires i < |g.nodes| && g.nodes[i].Constant? && w != g.nodes[i].out && k < |g.nodes|
    requires (x != g.nodes[i].out && x in Ins(g.nodes[k])) || (x == w && g.nodes[i].out in Ins(g.nodes[k]))
    ensures Used(Replaced(g, i, news, w), x)
  {
    NodesMove(g, i, news, w);
    RenameIns(g.nodes[k], g.nodes[i].out, w, x);
    assert x in Ins(Replaced(g, i, news, w).nodes[Moved(k, i, |news|)]);
  }

  // ----- What one replacement does to the kinds of constants in use -----

  lemma UsedIsBelow(g: Graph, next: Id, x: Id)
    requires WellFormed(g) && Below(g, next) && Used(g, x)
    ensures x < next
  {
    DefinedBelow(g.nodes, Ids(g.inputs), next);
    if k :| 0 <= k < |g.nodes| && x in Ins(g.nodes[k]) {
      UsesAreDefined(g.nodes, Ids(g.inputs), k, x);
    }
  }

  // Node k other than the replaced one keeps its kind and its uses.
  lemma OthersStay(g: Graph, i: nat, news: seq<Node>, w: Id, next: Id, last: Id, k: nat)
    requires WellFormed(g) && Below(g, next) && i < |g.nodes| && g.nodes[i].Constant? && Fresh(news, w, next, last)
    requires k < |g.nodes| && g.nodes[k].Constant? && k != i
    ensures var g', k' := Replaced(g, i, news, w), Moved(k, i, |news|);
            k' < |g'.nodes| && g'.nodes[k'] == g.nodes[k] && (Used(g', g.nodes[k].out) <==> Used(g, g.nodes[k].out))
  {
    var x := g.nodes[k].out;
    assert x in Outs(g.nodes[k]) && g.nodes[i].out in Outs(g.nodes[i]);
    if k < i {
      DefinedOnce(g.nodes, Ids(g.inputs), k, i, x);
    } else {
      DefinedOnce(g.nodes, Ids(g.inputs), i, k, g.nodes[i].out);
    }
    NodesMove(g, i, news, w);
    UsesMove(g, i, news, w, next, last, x);
  }

  // The replaced constant is no longer used; w is used instead.
  lemma ConstantRetires(g: Graph, i: nat, news: seq<Node>, w: Id, next: Id, last: Id)
    requires WellFormed(g) && Below(g, next) && i < |g.nodes| && g.nodes[i].Constant? && Fresh(news, w, next, last)
    ensures var g', i' := Replaced(g, i, news, w), i + |news|;
            && i' < |g'.nodes| && g'.nodes[i'] == g.nodes[i]
            && !Used(g', g.nodes[i].out) && (Used(g', w) <==> Used(g, g.nodes[i].out))
  {
    assert g.nodes[i].out in Outs(g.nodes[i]);
    NodesMove(g, i, news, w);
    assert Moved(i, i, |news|) == i + |news|;
    if Used(g, w) { UsedIsBelow(g, next, w); }
    UsesMove(g, i, news, w, next, last, g.nodes[i].out);
    UsesMove(g, i, news, w, next, last, w);
  }

  // What is in use in the part already passed over stays as it is, and node i is
  // not in use any more.
  lemma PrefixStays(g: Graph, i: nat, news: seq<Node>, w: Id, next: Id, last: Id, kind: Node -> bool)
    requires WellFormed(g) && Below(g, next) && i < |g.nodes| && g.nodes[i].Constant? && Fresh(news, w, next, last)
    requires forall k | 0 <= k < |news| :: !news[k].Constant? || !kind(news[k])
    requires forall k | 0 <= k < i :: !UsedAt(g, kind, k)
    ensures forall k | 0 <= k <= i + |news| :: !UsedAt(Replaced(g, i, news, w), kind, k)
  {
    hide WellFormed, Below, Fresh, Used;
    NodesMove(g, i, news, w);
    ConstantRetires(g, i, news, w, next, last);
    forall k | 0 <= k <= i + |news|
      ensures !UsedAt(Replaced(g, i, news, w), kind, k)
    {
      if k < i {
        assert !UsedAt(g, kind, k) && Moved(k, i, |news|) == k;
        if g.nodes[k].Constant? { OthersStay(g, i, news, w, next, last, k); }
      } else if k < i + |news| {
        assert Replaced(g, i, news, w).nodes[i + (k - i)] == RenameNode(news[k - i], g.nodes[i].out, w);
      }
    }
  }

  // When the node that defines w is of a kind exactly if the replaced constant is,
  // and no other new node is, the kind is in use after the replacement exactly if it
  // was before.
  lemma KindStays(g: Graph, i: nat, news: seq<Node>, w: Id, next: Id, last: Id, kind: Node -> bool)
    requires WellFormed(g) && Below(g, next) && i < |g.nodes| && g.nodes[i].Constant? && Fresh(news, w, next, last)
    requires news != [] && Outs(news[|news| - 1]) == [w]
    requires forall k | 0 <= k < |news| - 1 :: !news[k].Constant? || !kind(news[k])
    requires var n := news[|news| - 1]; (n.Constant? && kind(n)) <==> kind(g.nodes[i])
    ensures SomeUsed(Replaced(g, i, news, w), kind) <==> SomeUsed(g, kind)
  {
    hide WellFormed, Below, Fresh, Used;
    var g', n := Replaced(g, i, news, w), |news|;
    NodesMove(g, i, news, w);
    ConstantRetires(g, i, news, w, next, last);
    assert g'.nodes[i + (n - 1)] == RenameNode(news[n - 1], g.nodes[i].out, w);
    if k :| UsedAt(g, kind, k) {
      if k == i {
        assert UsedAt(g', kind, i + n - 1);
      } else {
        OthersStay(g, i, news, w, next, last, k);
        assert UsedAt(g', kind, Moved(k, i, n));
      }
    }
    if k' :| UsedAt(g', kind, k') {
      UsedBack(g, i, news, w, next, last, kind, k');
    }
  }

  lemma UsedBack(g: Graph, i: nat, news: seq<Node>, w: Id, next: Id, last: Id, kind: Node -> bool, k': nat)
    requires WellFormed(g) && Below(g, next) && i < |g.nodes| && g.nodes[i].Constant? && Fresh(news, w, next, last)
    requires news != [] && Outs(news[|news| - 1]) == [w]
    requires forall k | 0 <= k < |news| - 1 :: !news[k].Constant? || !kind(news[k])
    requires var n := news[|news| - 1]; (n.Constant? && kind(n)) <==> kind(g.nodes[i])
    requires UsedAt(Replaced(g, i, news, w), kind, k')
    ensures SomeUsed(g, kind)
  {
    hide WellFormed, Below, Fresh, Used;
    var g', n := Replaced(g, i, news, w), |news|;
    NodesMove(g, i, news, w);
    ConstantRetires(g, i, news, w, next, last);
    if i <= k' < i + n {
      assert g'.nodes[i + (k' - i)] == RenameNode(news[k' - i], g.nodes[i].out, w);
      assert UsedAt(g, kind, i);
    } else {
      var k := if k' < i then k' else k' - n;
      assert Moved(k, i, n) == k' && g.nodes[k].Constant?;
      if k != i { OthersStay(g, i, news, w, next, last, k); }
      assert UsedAt(g, kind, k);
    }
  }

  // ----- The new nodes of the two passes -----

  function Constants(vals: seq<Val>, next: Id): seq<Node> {
    seq(|vals|, k requires 0 <= k < |vals| => Constant(next + k, vals[k], Infer(vals[k])))
  }

  function Sequence(next: Id, n: nat): seq<Id> {
    seq(n, k requires 0 <= k < n => next + k)
  }

  // A list construction over fresh constants.
  function ListNews(vals: seq<Val>, next: Id): seq<Node> {
    Constants(vals, next) + [ListConstruct(next + |vals|, Sequence(next, |vals|))]
  }

  // r is env with vals bound to the ids from next on.
  ghost predicate Filled(r: Env, env: Env, vals: seq<Val>, next: Id) {
    && (forall i | i in env :: i in r && r[i] == env[i])
    && (forall i | i in r && i !in env :: next <= i < next + |vals|)
    && (forall id: Id | next <= id < next + |vals| :: id in r && r[id] == vals[id - next])
  }

  lemma FilledStep(r: Env, env: Env, vals: seq<Val>, next: Id)
    requires vals != [] && next !in env
    requires Filled(r, env[next := vals[0]], vals[1..], next + 1)
    ensures Filled(r, env, vals, next)
  {
    assert r[next] == env[next := vals[0]][next];
    forall id: Id | next <= id < next + |vals| ensures id in r && r[id] == vals[id - next] {
      if id > next { assert vals[1..][id - next - 1] == vals[id - next]; }
    }
  }

  lemma {:induction false} ConstantsEval(vals: seq<Val>, next: Id, env: Env, sem: Semantics)
    requires forall i | i in env :: i < next
    ensures Ordered(Constants(vals, next), env.Keys)
    ensures Filled(EvalNodes(Constants(vals, next), env, sem), env, vals, next)
  {
    hide Infer;
    if vals == [] {
      assert Constants(vals, next) == [];
    } else {
      hide Ordered, EvalNodes, Filled;
      var c, rest := Constant(next, vals[0], Infer(vals[0])), Constants(vals[1..], next + 1);
      assert Constants(vals, next) == [c] + rest;
      ConstantsEval(vals[1..], next + 1, env[next := vals[0]], sem);
      HeadOf(c, rest, env, sem);
      FilledStep(EvalNodes(rest, env[next := vals[0]], sem), env, vals, next);
    }
  }

  lemma ReadSequence(r: Env, env: Env, vals: seq<Val>, next: Id)
    requires Filled(r, env, vals, next)
    ensures forall x | x in Sequence(next, |vals|) :: x in r
    ensures Read(r, Sequence(next, |vals|)) == vals
  {
    forall x | x in Sequence(next, |vals|) ensures x in r {
      var k :| 0 <= k < |vals| && Sequence(next, |vals|)[k] == x;
    }
  }

  lemma ListStands(vals: seq<Val>, next: Id, env: Env, sem: Semantics)
    requires forall i | i in env :: i < next
    ensures Stands(ListNews(vals, next), env, next + |vals|, List(vals), next, sem)
  {
    hide Infer, Ordered, EvalNodes, Constants, Sequence;
    ConstantsEval(vals, next, env, sem);
    var first, build := Constants(vals, next), ListConstruct(next + |vals|, Sequence(next, |vals|));
    var r := EvalNodes(first, env, sem);
    ReadSequence(r, env, vals, next);
    SingleNode(build, r, sem);
    Concat(first, [build], env.Keys);
    EvalConcat(first, [build], env, sem);
    assert Ids(Outs(build)) == {next + |vals|};
  }

  lemma SingleNode(n: Node, env: Env, sem: Semantics)
    requires (forall i | i in Ins(n) :: i in env) && (forall o | o in Outs(n) :: o !in env)
    ensures Ordered([n], env.Keys) && EvalNodes([n], env, sem) == EvalNode(n, env, sem)
  {
    assert [n][1..] == [];
  }

  lemma CopyStands(x: Val, next: Id, env: Env, sem: Semantics)
    requires forall i | i in env :: i < next
    ensures Stands([Constant(next, x, Infer(x))], env, next, x, next, sem)
  {
    ConstantsEval([x], next, env, sem);
    assert Constants([x], next) == [Constant(next, x, Infer(x))];
  }

  lemma PrefixBelow(g: Graph, i: nat, next: Id)
    requires WellFormed(g) && Below(g, next) && i <= |g.nodes|
    ensures Ordered(g.nodes[..i], Ids(g.inputs))
    ensures forall k | k in Defined(g.nodes[..i], Ids(g.inputs)) :: k < next
  {
    assert g.nodes == g.nodes[..i] + g.nodes[i..];
    Concat(g.nodes[..i], g.nodes[i..], Ids(g.inputs));
    DefinedBelow(g.nodes[..i], Ids(g.inputs), next);
  }

  // ----- What the passes promise, by the types and values of the constants -----

  // A constant of one of the two tensor-list types is used directly.
  ghost predicate ListLeft(g: Graph) {
    exists n | n in g.nodes ::
      n.Constant? && (n.typ.ListOfTensors? || n.typ.ListOfOptionalTensors?) && Used(g, n.out)
  }

  ghost predicate OptionalLeft(g: Graph) {
    exists n | n in g.nodes :: n.Constant? && n.typ.Optional? && Used(g, n.out)
  }

  // A constant of optional type that holds a non-empty list of tensors and Nones is used.
  ghost predicate HiddenList(g: Graph) {
    exists n | n in g.nodes ::
      && n.Constant? && n.typ.Optional? && n.value.List? && n.value.vals != []
      && (forall x | x in n.value.vals :: x.None? || x.Tensor?) && Used(g, n.out)
  }

  // The type that a new constant gets for its value.
  predicate TypeFits(v: Val, t: Type) {
    && (t.NoneType? <==> v.None?) && (t.TensorType? <==> v.Tensor?) && !t.Optional?
    && (t.ListOfTensors? <==> v.List? && v.vals != [] && forall x | x in v.vals :: x.Tensor?)
    && (t.ListOfOptionalTensors? <==>
          && v.List? && (forall x | x in v.vals :: x.Tensor? || x.None?)
          && exists x | x in v.vals :: x.None?)
  }

  lemma InferredFits(v: Val)
    ensures TypeFits(v, Infer(v))
  {
  }

  // From g to g', constants that are of neither tensor-list type (nor optional, as said)
  // stay and are used as before; other constants only come with new ids and fitting types.
  ghost predicate OthersKept(g: Graph, g': Graph, next: Id, lists: bool, optionals: bool) {
    && (forall n | n in g.nodes && n.Constant? &&
          !(lists && (n.typ.ListOfTensors? || n.typ.ListOfOptionalTensors?)) && !(optionals && n.typ.Optional?) ::
          n in g'.nodes && (Used(g', n.out) <==> Used(g, n.out)))
    && (forall n | n in g'.nodes && n.Constant? :: n in g.nodes || (n.out >= next && TypeFits(n.value, n.typ)))
  }

  lemma KindLeft(g: Graph, kind: Node -> bool)
    ensures SomeUsed(g, kind) <==> exists n | n in g.nodes :: n.Constant? && kind(n) && Used(g, n.out)
  {
    if k :| UsedAt(g, kind, k) {
      assert g.nodes[k] in g.nodes;
    }
    if n :| n in g.nodes && n.Constant? && kind(n) && Used(g, n.out) {
      var k :| 0 <= k < |g.nodes| && g.nodes[k] == n;
      assert UsedAt(g, kind, k);
    }
  }

  lemma LeftInPlainTerms(g: Graph)
    ensures SomeUsed(g, ListConstant) <==> ListLeft(g)
    ensures SomeUsed(g, OptionalConstant) <==> OptionalLeft(g)
    ensures SomeUsed(g, OptionalListConstant) <==> HiddenList(g)
  {
    hide SomeUsed, Used;
    KindLeft(g, ListConstant);
    KindLeft(g, OptionalConstant);
    KindLeft(g, OptionalListConstant);
  }

  lemma KeptFromTheStart(g: Graph, next: Id, lists: bool, optionals: bool)
    ensures OthersKept(g, g, next, lists, optionals)
  {
  }

  lemma KeptFurther(g: Graph, g': Graph, g'': Graph, next: Id, next': Id, lists: bool, optionals: bool)
    requires OthersKept(g, g', next, lists, optionals) && OthersKept(g', g'', next', lists, optionals) && next <= next'
    ensures OthersKept(g, g'', next, lists, optionals)
  {
    hide Used;
  }

  lemma KeptWhenMoreMay(g: Graph, g': Graph, next: Id, lists: bool, optionals: bool)
    requires OthersKept(g, g', next, lists, optionals)
    ensures OthersKept(g, g', next, true, true)
  {
    hide Used;
  }

  lemma AnyLeft(g: Graph)
    ensures SomeUsed(g, AnyListConstant) <==> SomeUsed(g, ListConstant) || SomeUsed(g, OptionalListConstant)
  {
    hide Used;
    if k :| UsedAt(g, AnyListConstant, k) {
      assert UsedAt(g, ListConstant, k) || UsedAt(g, OptionalListConstant, k);
    }
    if k :| UsedAt(g, ListConstant, k) { assert UsedAt(g, AnyListConstant, k); }
    if k :| UsedAt(g, OptionalListConstant, k) { assert UsedAt(g, AnyListConstant, k); }
  }

  lemma FreshOuts(news: seq<Node>, w: Id, next: Id, last: Id)
    requires Fresh(news, w, next, last)
    ensures forall n | n in news && n.Constant? :: n.out >= next
  {
    forall n | n in news && n.Constant? ensures n.out >= next {
      var k :| 0 <= k < |news| && news[k] == n;
      assert n.out in Outs(news[k]);
    }
  }

  lemma OldConstantsKept(g: Graph, i: nat, news: seq<Node>, w: Id, next: Id, last: Id, n: Node)
    requires WellFormed(g) && Below(g, next) && i < |g.nodes| && g.nodes[i].Constant? && Fresh(news, w, next, last)
    requires n in g.nodes && n.Constant? && n != g.nodes[i]
    ensures var g' := Replaced(g, i, news, w); n in g'.nodes && (Used(g', n.out) <==> Used(g, n.out))
  {
    hide WellFormed, Below, Used, Fresh, Replaced;
    var k :| 0 <= k < |g.nodes| && g.nodes[k] == n;
    OthersStay(g, i, news, w, next, last, k);
  }

  lemma NewConstantsFit(g: Graph, i: nat, news: seq<Node>, w: Id, next: Id, last: Id, n': Node)
    requires i < |g.nodes| && g.nodes[i].Constant? && Fresh(news, w, next, last)
    requires forall n | n in news && n.Constant? :: TypeFits(n.value, n.typ)
    requires n' in Replaced(g, i, news, w).nodes && n'.Constant?
    ensures n' in g.nodes || (n'.out >= next && TypeFits(n'.value, n'.typ))
  {
    hide TypeFits, Fresh, Replaced;
    var g' := Replaced(g, i, news, w);
    NodesMove(g, i, news, w);
    FreshOuts(news, w, next, last);
    var k' :| 0 <= k' < |g'.nodes| && g'.nodes[k'] == n';
    if i <= k' < i + |news| {
      assert g'.nodes[i + (k' - i)] == RenameNode(news[k' - i], g.nodes[i].out, w);
      assert n' == news[k' - i] && n' in news;
    } else {
      var k := if k' < i then k' else k' - |news|;
      assert Moved(k, i, |news|) == k' && g'.nodes[k'] == RenameNode(g.nodes[k], g.nodes[i].out, w);
    }
  }

  lemma ReplaceKeepsOthers(g: Graph, i: nat, news: seq<Node>, w: Id, next: Id, last: Id, lists: bool, optionals: bool)
    requires WellFormed(g) && Below(g, next) && i < |g.nodes| && g.nodes[i].Constant? && Fresh(news, w, next, last)
    requires (lists && ListConstant(g.nodes[i])) || (optionals && OptionalConstant(g.nodes[i]))
    requires forall n | n in news && n.Constant? :: TypeFits(n.value, n.typ)
    ensures OthersKept(g, Replaced(g, i, news, w), next, lists, optionals)
  {
    hide WellFormed, Below, Used, TypeFits, Fresh, Replaced;
    var g' := Replaced(g, i, news, w);
    forall n | n in g.nodes && n.Constant? && n != g.nodes[i]
      ensures n in g'.nodes && (Used(g', n.out) <==> Used(g, n.out))
    {
      OldConstantsKept(g, i, news, w, next, last, n);
    }
    forall n' | n' in g'.nodes && n'.Constant?
      ensures n' in g.nodes || (n'.out >= next && TypeFits(n'.value, n'.typ))
    {
      NewConstantsFit(g, i, news, w, next, last, n');
    }
  }

  // ----- The graph as an object -----

  // The names of the operations, in order.
  function Names(nodes: seq<Node>): seq<string> {
    if nodes == [] then []
    else (if nodes[0].Op? then [nodes[0].name] else []) + Names(nodes[1..])
  }

  lemma NamesFirst(nodes: seq<Node>)
    requires nodes != []
    ensures Names(nodes) == (if nodes[0].Op? then [nodes[0].name] else []) + Names(nodes[1..])
  {
  }

  lemma {:induction false} NamesConcat(a: seq<Node>, b: seq<Node>)
    ensures Names(a + b) == Names(a) + Names(b)
  {
    if a == [] {
      assert a + b == b;
    } else {
      hide Names;
      assert (a + b)[1..] == a[1..] + b;
      NamesConcat(a[1..], b);
      NamesFirst(a);
      NamesFirst(a + b);
      JoinNames(if a[0].Op? then [a[0].name] else [], Names(a[1..]), Names(b));
    }
  }

  lemma JoinNames(a: seq<string>, b: seq<string>, c: seq<string>)
    ensures a + (b + c) == (a + b) + c
  {
  }

  // An operation's name comes after those of the operations before it; other nodes have none.
  lemma NamesExactly(before: seq<Node>, n: Node, rest: seq<Node>)
    ensures Names(before + ([n] + rest)) == Names(before) + ((if n.Op? then [n.name] else []) + Names(rest))
  {
    hide Names;
    NamesConcat(before, [n] + rest);
    NamesOne(n, rest);
  }

  lemma NamesOne(n: Node, rest: seq<Node>)
    ensures Names([n] + rest) == (if n.Op? then [n.name] else []) + Names(rest)
  {
    hide Names;
    NamesFirst([n] + rest);
    assert ([n] + rest)[1..] == rest;
  }

  lemma {:induction false} NamesRename(nodes: seq<Node>, v: Id, w: Id)
    ensures Names(Rename(nodes, v, w)) == Names(nodes)
  {
    if nodes != [] {
      assert Rename(nodes, v, w)[1..] == Rename(nodes[1..], v, w);
      NamesRename(nodes[1..], v, w);
    }
  }

  lemma {:induction false} NoNames(nodes: seq<Node>)
    requires forall n | n in nodes :: !n.Op?
    ensures Names(nodes) == []
  {
    if nodes != [] { NoNames(nodes[1..]); }
  }

  // What holds of the graph between two steps of either pass.
  ghost predicate Sane(g: Graph, next: Id) {
    WellFormed(g) && Below(g, next) && Typed(g)
  }

  // One replacement, all in all.
  lemma ReplaceKeepsAll(g: Graph, i: nat, news: seq<Node>, w: Id, next: Id, last: Id, env: Env, sem: Semantics)
    requires Sane(g, next) && env.Keys == Ids(g.inputs) && i < |g.nodes| && g.nodes[i].Constant?
    requires Fresh(news, w, next, last) && forall n | n in news :: !n.Op? && TypedNode(n)
    requires Ordered(g.nodes[..i], env.Keys)
    requires Stands(news, EvalNodes(g.nodes[..i], env, sem), w, g.nodes[i].value, next, sem)
    ensures Sane(Replaced(g, i, news, w), last)
    ensures Meaning(Replaced(g, i, news, w), env, sem) == Meaning(g, env, sem)
    ensures Names(Replaced(g, i, news, w).nodes) == Names(g.nodes)
  {
    hide Ordered, Stands, EvalNodes, WellFormed, Below, Typed, Fresh, TypedNode, Meaning, Names;
    ReplacePreserves(g, i, news, w, next, env, sem);
    SaneNodes(g, i, news, w, next, last);
    NamesStay(g, i, news, w);
  }

  lemma NamesStay(g: Graph, i: nat, news: seq<Node>, w: Id)
    requires i < |g.nodes| && g.nodes[i].Constant? && forall n | n in news :: !n.Op?
    ensures Names(Replaced(g, i, news, w).nodes) == Names(g.nodes)
  {
    hide Names;
    var v := g.nodes[i].out;
    NoNames(news);
    NamesConcat(g.nodes[..i] + news, g.nodes[i..]);
    NamesConcat(g.nodes[..i], news);
    NamesConcat(g.nodes[..i], g.nodes[i..]);
    assert g.nodes == g.nodes[..i] + g.nodes[i..];
    NamesRename(g.nodes[..i] + news + g.nodes[i..], v, w);
  }

  lemma SaneNodes(g: Graph, i: nat, news: seq<Node>, w: Id, next: Id, last: Id)
    requires Below(g, next) && Typed(g) && i < |g.nodes| && g.nodes[i].Constant?
    requires Fresh(news, w, next, last) && forall n | n in news :: TypedNode(n)
    ensures Below(Replaced(g, i, news, w), last) && Typed(Replaced(g, i, news, w))
  {
    var g', v, n := Replaced(g, i, news, w), g.nodes[i].out, |news|;
    NodesMove(g, i, news, w);
    forall k' | 0 <= k' < |g'.nodes|
      ensures TypedNode(g'.nodes[k']) && forall o | o in Outs(g'.nodes[k']) :: o < last
    {
      if i <= k' < i + n {
        assert g'.nodes[i + (k' - i)] == RenameNode(news[k' - i], v, w) && news[k' - i] in news;
        assert Outs(g'.nodes[k']) == Outs(news[k' - i]);
      } else {
        var k := if k' < i then k' else k' - n;
        assert Moved(k, i, n) == k' && Outs(g'.nodes[k']) == Outs(g.nodes[k]);
        assert TypedNode(g.nodes[k]);
      }
    }
  }

  // Expanding a list of tensors.
  lemma ListStep(g: Graph, i: nat, next: Id, env: Env, sem: Semantics)
    requires Sane(g, next) && env.Keys == Ids(g.inputs) && i < |g.nodes| && ListConstant(g.nodes[i])
    requires forall k | 0 <= k < i :: !UsedAt(g, ListConstant, k)
    ensures g.nodes[i].value.List?
    ensures var n := |g.nodes[i].value.vals|;
            var g' := Replaced(g, i, ListNews(g.nodes[i].value.vals, next), next + n);
            && Sane(g', next + n + 1) && Meaning(g', env, sem) == Meaning(g, env, sem)
            && Names(g'.nodes) == Names(g.nodes)
            && (forall k | 0 <= k <= i + n + 1 :: !UsedAt(g', ListConstant, k))
            && (SomeUsed(g', OptionalListConstant) <==> SomeUsed(g, OptionalListConstant))
            && OthersKept(g, g', next, true, false)
  {
    hide Meaning, UsedAt, SomeUsed, Stands, WellFormed, Below, Replaced, OthersKept;
    assert TypedNode(g.nodes[i]);
    var vals := g.nodes[i].value.vals;
    var news, w, last := ListNews(vals, next), next + |vals|, next + |vals| + 1;
    ListNewsFacts(vals, next);
    PrefixBelow(g, i, next);
    ListStands(vals, next, EvalNodes(g.nodes[..i], env, sem), sem);
    ReplaceKeepsAll(g, i, news, w, next, last, env, sem);
    PrefixStays(g, i, news, w, next, last, ListConstant);
    KindStays(g, i, news, w, next, last, OptionalListConstant);
    ReplaceKeepsOthers(g, i, news, w, next, last, true, false);
  }

  lemma ListNewsFacts(vals: seq<Val>, next: Id)
    requires forall x | x in vals :: x.None? || x.Tensor?
    ensures var news, w := ListNews(vals, next), next + |vals|;
            && |news| == |vals| + 1 && Outs(news[|news| - 1]) == [w] && !news[|news| - 1].Constant?
            && Fresh(news, w, next, w + 1)
            && (forall n | n in news :: !n.Op? && TypedNode(n))
            && (forall n | n in news && n.Constant? :: TypeFits(n.value, n.typ))
            && (forall k | 0 <= k < |news| && news[k].Constant? :: !ListConstant(news[k]) && !OptionalConstant(news[k]))
  {
    var news := ListNews(vals, next);
    forall k | 0 <= k < |news| && news[k].Constant?
      ensures !ListConstant(news[k]) && !OptionalConstant(news[k])
    {
      assert vals[k] in vals;
    }
    forall n | n in news && n.Constant? ensures TypeFits(n.value, n.typ) {
      InferredFits(n.value);
    }
  }

  // Copying an optional-typed constant under the type of its value.
  lemma CopyStep(g: Graph, i: nat, next: Id, env: Env, sem: Semantics)
    requires Sane(g, next) && env.Keys == Ids(g.inputs) && i < |g.nodes| && OptionalConstant(g.nodes[i])
    requires forall k | 0 <= k < i :: !UsedAt(g, OptionalConstant, k)
    ensures var x := g.nodes[i].value;
            var g' := Replaced(g, i, [Constant(next, x, Infer(x))], next);
            && Sane(g', next + 1) && Meaning(g', env, sem) == Meaning(g, env, sem)
            && Names(g'.nodes) == Names(g.nodes)
            && (forall k | 0 <= k <= i + 1 :: !UsedAt(g', OptionalConstant, k))
            && (SomeUsed(g', AnyListConstant) <==> SomeUsed(g, AnyListConstant))
            && OthersKept(g, g', next, false, true)
  {
    hide Meaning, UsedAt, SomeUsed, Stands, WellFormed, Below, Replaced, OthersKept;
    var x := g.nodes[i].value;
    var news := [Constant(next, x, Infer(x))];
    PrefixBelow(g, i, next);
    CopyStands(x, next, EvalNodes(g.nodes[..i], env, sem), sem);
    InferredFits(x);
    ReplaceKeepsAll(g, i, news, next, next, next + 1, env, sem);
    PrefixStays(g, i, news, next, next, next + 1, OptionalConstant);
    KindStays(g, i, news, next, next, next + 1, AnyListConstant);
    ReplaceKeepsOthers(g, i, news, next, next, next + 1, false, true);
  }

  class TorchGraph {
    const inputs: seq<Id>
    var nodes: seq<Node>
    var outputs: seq<Id>
    var nextId: Id

    constructor (g: Graph, next: Id)
      ensures State() == g && nextId == next
    {
      inputs, nodes, outputs, nextId := g.inputs, g.nodes, g.outputs, next;
    }

    function State(): Graph
      reads this
    {
      Graph(inputs, nodes, outputs)
    }

    // insertConstant appends a node, moveBefore puts it in front of node i.
    method InsertConstantBefore(i: nat, value: Val) returns (id: Id)
      requires i <= |nodes|
      modifies this`nodes, this`nextId
      ensures id == old(nextId) && nextId == id + 1
      ensures nodes == old(nodes)[..i] + [Constant(id, value, Infer(value))] + old(nodes)[i..]
    {
      id := nextId;
      nextId := nextId + 1;
      nodes := nodes + [Constant(id, value, Infer(value))];
      var last := |nodes| - 1;
      nodes := nodes[..i] + [nodes[last]] + nodes[i..last];
    }

    method ReplaceAllUses(v: Id, w: Id)
      modifies this`nodes, this`outputs
      ensures nodes == Rename(old(nodes), v, w) && outputs == RenameIds(old(outputs), v, w)
    {
      nodes, outputs := Rename(nodes, v, w), RenameIds(outputs, v, w);
    }

    // The body of the first pass for a constant holding a list of tensors.
    method ExpandList(i: nat) returns (n: nat)
      requires i < |nodes| && nodes[i].Constant? && nodes[i].value.List?
      modifies this
      ensures var vals := old(nodes[i]).value.vals;
              && n == |vals| + 1 && nextId == old(nextId) + n && |nodes| == |old(nodes)| + n
              && State() == Replaced(old(State()), i, ListNews(vals, old(nextId)), old(nextId) + |vals|)
    {
      var node := nodes[i];
      var vals := node.value.vals;
      var constInputs: seq<Id> := [];
      var k: nat := 0;
      while k < |vals|
        invariant k <= |vals| && constInputs == Sequence(old(nextId), k) && nextId == old(nextId) + k
        invariant nodes == old(nodes)[..i] + Constants(vals[..k], old(nextId)) + old(nodes)[i..]
        invariant outputs == old(outputs)
      {
        ghost var was := Constants(vals[..k], old(nextId));
        var id := InsertConstantBefore(i + k, vals[k]);
        constInputs := constInputs + [id];
        assert Constants(vals[..k + 1], old(nextId)) == was + [Constant(id, vals[k], Infer(vals[k]))];
        k := k + 1;
      }
      assert vals[..k] == vals;
      var w := nextId;
      nextId := nextId + 1;
      nodes := nodes[..i + k] + [ListConstruct(w, constInputs)] + nodes[i + k..];
      assert nodes == old(nodes)[..i] + ListNews(vals, old(nextId)) + old(nodes)[i..];
      ReplaceAllUses(node.out, w);
      n := |vals| + 1;
    }

    // _transform_tensor_list_constants_to_listconstruct
    method TransformTensorListConstants(ghost env: Env, ghost sem: Semantics)
      requires Sane(State(), nextId) && env.Keys == Ids(inputs)
      modifies this
      ensures Sane(State(), nextId) && Meaning(State(), env, sem) == old(Meaning(State(), env, sem))
      ensures Names(nodes) == old(Names(nodes))
      ensures nextId >= old(nextId)
      ensures !SomeUsed(State(), ListConstant)
      ensures SomeUsed(State(), OptionalListConstant) <==> old(SomeUsed(State(), OptionalListConstant))
      ensures !ListLeft(State())
      ensures OthersKept(old(State()), State(), old(nextId), true, false)
    {
      hide WellFormed, Below, Typed, Meaning, Names, SomeUsed, UsedAt, Replaced, ListNews, OthersKept, ListLeft;
      KeptFromTheStart(State(), nextId, true, false);
      var i: nat := 0;
      while i < |nodes|
        invariant i <= |nodes|
        invariant Sane(State(), nextId) && Meaning(State(), env, sem) == old(Meaning(State(), env, sem))
        invariant Names(nodes) == old(Names(nodes))
        invariant forall k | 0 <= k < i :: !UsedAt(State(), ListConstant, k)
        invariant SomeUsed(State(), OptionalListConstant) <==> old(SomeUsed(State(), OptionalListConstant))
        invariant nextId >= old(nextId) && OthersKept(old(State()), State(), old(nextId), true, false)
        decreases |nodes| - i
      {
        if ListConstant(nodes[i]) {
          ListStep(State(), i, nextId, env, sem);
          ghost var g, next := State(), nextId;
          var n := ExpandList(i);
          KeptFurther(old(State()), g, State(), old(nextId), next, true, false);
          i := i + n + 1;
        } else {
          NotOfKind(State(), ListConstant, i);
          i := i + 1;
        }
      }
      NoneLeft(State(), ListConstant);
      LeftInPlainTerms(State());
    }

    // The body of the second pass for a constant of optional type.
    method CopyOptional(i: nat)
      requires i < |nodes| && nodes[i].Constant?
      modifies this
      ensures nextId == old(nextId) + 1 && |nodes| == |old(nodes)| + 1
      ensures var x := old(nodes[i]).value;
              State() == Replaced(old(State()), i, [Constant(old(nextId), x, Infer(x))], old(nextId))
    {
      var node := nodes[i];
      var copy := InsertConstantBefore(i, node.value);
      ReplaceAllUses(node.out, copy);
    }

    // _transform_optional_constants
    method TransformOptionalConstants(ghost env: Env, ghost sem: Semantics)
      requires Sane(State(), nextId) && env.Keys == Ids(inputs)
      modifies this
      ensures Sane(State(), nextId) && Meaning(State(), env, sem) == old(Meaning(State(), env, sem))
      ensures Names(nodes) == old(Names(nodes))
      ensures !SomeUsed(State(), OptionalConstant)
      ensures SomeUsed(State(), ListConstant) <==> old(SomeUsed(State(), AnyListConstant))
      ensures !OptionalLeft(State())
      ensures ListLeft(State()) <==> old(ListLeft(State()) || HiddenList(State()))
      ensures OthersKept(old(State()), State(), old(nextId), false, true)
    {
      hide WellFormed, Below, Typed, Meaning, Names, SomeUsed, UsedAt, Replaced, ListNews, OthersKept, ListLeft;
      hide OptionalLeft, HiddenList;
      KeptFromTheStart(State(), nextId, false, true);
      AnyLeft(State());
      LeftInPlainTerms(State());
      var i: nat := 0;
      while i < |nodes|
        invariant i <= |nodes|
        invariant Sane(State(), nextId) && Meaning(State(), env, sem) == old(Meaning(State(), env, sem))
        invariant Names(nodes) == old(Names(nodes))
        invariant forall k | 0 <= k < i :: !UsedAt(State(), OptionalConstant, k)
        invariant SomeUsed(State(), AnyListConstant) <==> old(SomeUsed(State(), AnyListConstant))
        invariant nextId >= old(nextId) && OthersKept(old(State()), State(), old(nextId), false, true)
        decreases |nodes| - i
      {
        if OptionalConstant(nodes[i]) {
          CopyStep(State(), i, nextId, env, sem);
          ghost var g, next := State(), nextId;
          CopyOptional(i);
          KeptFurther(old(State()), g, State(), old(nextId), next, false, true);
          i := i + 2;
        } else {
          NotOfKind(State(), OptionalConstant, i);
          i := i + 1;
        }
      }
      NoneLeft(State(), OptionalConstant);
      OnlyLists(State());
      LeftInPlainTerms(State());
    }

    // The two passes in the order in which the decoder runs them. A tensor-list
    // constant is used directly afterwards exactly when, before, a constant of
    // optional type that holds a list of tensors was.
    method Transform(ghost env: Env, ghost sem: Semantics)
      requires Sane(State(), nextId) && env.Keys == Ids(inputs)
      modifies this
      ensures Sane(State(), nextId) && Meaning(State(), env, sem) == old(Meaning(State(), env, sem))
      ensures Names(nodes) == old(Names(nodes))
      ensures !SomeUsed(State(), OptionalConstant)
      ensures SomeUsed(State(), ListConstant) <==> old(SomeUsed(State(), OptionalListConstant))
      ensures !OptionalLeft(State())
      ensures ListLeft(State()) <==> old(HiddenList(State()))
      ensures OthersKept(old(State()), State(), old(nextId), true, true)
    {
      hide WellFormed, Below, Typed, Meaning, Names, SomeUsed, ListLeft, OptionalLeft, HiddenList, OthersKept;
      LeftInPlainTerms(State());
      TransformTensorListConstants(env, sem);
      ghost var g := State();
      KeptWhenMoreMay(old(State()), g, old(nextId), true, false);
      NoListsMeansOptional(State());
      ghost var next := nextId;
      TransformOptionalConstants(env, sem);
      KeptWhenMoreMay(g, State(), next, false, true);
      KeptFurther(old(State()), g, State(), old(nextId), next, true, true);
      LeftInPlainTerms(State());
    }
  }

  lemma NotOfKind(g: Graph, kind: Node -> bool, k: nat)
    requires k < |g.nodes| && !kind(g.nodes[k])
    ensures !UsedAt(g, kind, k)
  {
  }

  lemma NoneLeft(g: Graph, kind: Node -> bool)
    requires forall k | 0 <= k < |g.nodes| :: !UsedAt(g, kind, k)
    ensures !SomeUsed(g, kind)
  {
  }

  lemma OnlyLists(g: Graph)
    requires !SomeUsed(g, OptionalConstant)
    ensures SomeUsed(g, AnyListConstant) <==> SomeUsed(g, ListConstant)
  {
    if k :| UsedAt(g, AnyListConstant, k) {
      assert !UsedAt(g, OptionalConstant, k);
      assert UsedAt(g, ListConstant, k);
    }
    if k :| UsedAt(g, ListConstant, k) {
      assert UsedAt(g, AnyListConstant, k);
    }
  }

  lemma NoListsMeansOptional(g: Graph)
    requires !SomeUsed(g, ListConstant)
    ensures SomeUsed(g, AnyListConstant) <==> SomeUsed(g, OptionalListConstant)
  {
    if k :| UsedAt(g, AnyListConstant, k) {
      assert !UsedAt(g, ListConstant, k);
      assert UsedAt(g, OptionalListConstant, k);
    }
    if k :| UsedAt(g, OptionalListConstant, k) {
      assert UsedAt(g, AnyListConstant, k);
    }
  }

  // Such graphs exist: an optional constant that holds a list of one tensor.
  lemma OptionalListExists() returns (g: Graph)
    ensures Sane(g, 2) && SomeUsed(g, OptionalListConstant) && !SomeUsed(g, ListConstant)
  {
    g := Graph([], [Constant(0, List([Tensor(0)]), Optional), Op("aten::cat", [0], [1])], [1]);
    assert g.nodes[1..] == [Op("aten::cat", [0], [1])] && g.nodes[1..][1..] == [];
    assert UsedAt(g, OptionalListConstant, 0) by { assert 0 in Ins(g.nodes[1]); }
  }
}
