// Decoding a jaxpr into graph nodes,
// openvino/python/openvino/frontend/jax/jaxpr_decoder.py.
module Jaxpr {
  import opened Wrappers

  // What Python's id() tells objects apart by.
  type Id = int

  // Variables are their own identity; a literal is an object that carries a value.
  datatype Atom<V> = Var(id: Id) | Literal(id: Id, val: V)

  // `op` stands for the primitive with its parameters.
  datatype Eqn<V> = Eqn(op: string, invars: seq<Atom<V>>, outvars: seq<Id>)

  datatype Jaxpr<V> = Jaxpr(constvars: seq<Id>, consts: seq<V>, invars: seq<Id>, eqns: seq<Eqn<V>>,
        outvars: seq<Atom<V>>)

  type Env<V> = map<Id, V>
  type Semantics<!V> = (string, seq<V>) -> seq<V>

  function Bind<V>(env: Env<V>, ids: seq<Id>, vals: seq<V>): Env<V>
    requires |ids| == |vals|
    decreases |ids|
  {
    if ids == [] then env else Bind(env[ids[0] := vals[0]], ids[1..], vals[1..])
  }

  // ----- What a jaxpr means -----

  ghost predicate WellFormedEqns<V(!new)>(eqns: seq<Eqn<V>>, bound: set<Id>, sem: Semantics<V>) {
    eqns == [] ||
    var e := eqns[0];
    && (forall a | a in e.invars && a.Var? :: a.id in bound)
    && (forall args: seq<V> | |args| == |e.invars| :: |sem(e.op, args)| == |e.outvars|)
    && WellFormedEqns(eqns[1..], bound + (set o | o in e.outvars), sem)
  }

  function Defined<V>(eqns: seq<Eqn<V>>, bound: set<Id>): set<Id> {
    if eqns == [] then bound else Defined(eqns[1..], bound + (set o | o in eqns[0].outvars))
  }

  ghost predicate WellFormed<V(!new)>(j: Jaxpr<V>, sem: Semantics<V>) {
    var bound := (set v | v in j.constvars) + (set v | v in j.invars);
    && |j.consts| == |j.constvars|
    && (forall v | v in j.constvars :: v !in j.invars)
    && WellFormedEqns(j.eqns, bound, sem)
    && (forall a | a in j.outvars && a.Var? :: a.id in Defined(j.eqns, bound))
  }

  function Value<V>(env: Env<V>, a: Atom<V>): V
    requires a.Var? ==> a.id in env
  {
    if a.Var? then env[a.id] else a.val
  }

  function Values<V>(env: Env<V>, atoms: seq<Atom<V>>): (vals: seq<V>)
    requires forall a | a in atoms && a.Var? :: a.id in env
    ensures |vals| == |atoms|
  {
    seq(|atoms|, i requires 0 <= i < |atoms| => Value(env, atoms[i]))
  }

  lemma {:induction false} BindKeys<V>(env: Env<V>, ids: seq<Id>, vals: seq<V>)
    requires |ids| == |vals|
    ensures Bind(env, ids, vals).Keys == env.Keys + (set i | i in ids)
    decreases |ids|
  {
    if ids != [] {
      BindKeys(env[ids[0] := vals[0]], ids[1..], vals[1..]);
      assert (set i | i in ids) == {ids[0]} + (set i | i in ids[1..]);
    }
  }

  ghost function EvalEqns<V(!new)>(eqns: seq<Eqn<V>>, env: Env<V>, sem: Semantics<V>): (r: Env<V>)
    requires WellFormedEqns(eqns, env.Keys, sem)
    ensures r.Keys == Defined(eqns, env.Keys)
  {
    if eqns == [] then env
    else
      var e := eqns[0];
      var results := sem(e.op, Values(env, e.invars));
      BindKeys(env, e.outvars, results);
      EvalEqns(eqns[1..], Bind(env, e.outvars, results), sem)
  }

  ghost function Eval<V(!new)>(j: Jaxpr<V>, args: seq<V>, sem: Semantics<V>): (r: seq<V>)
    requires WellFormed(j, sem) && |args| == |j.invars|
    ensures |r| == |j.outvars|
  {
    BindKeys(map[], j.constvars, j.consts);
    BindKeys(Bind(map[], j.constvars, j.consts), j.invars, args);
    var env := Bind(Bind(map[], j.constvars, j.consts), j.invars, args);
    assert env.Keys == (set v | v in j.constvars) + (set v | v in j.invars);
    Values(EvalEqns(j.eqns, env, sem), j.outvars)
  }

  // ----- Decoders -----

  datatype Decoder<V> =
    | Constant(value: V, outputId: Id)
    | Equation(eqn: Eqn<V>, literals: seq<Decoder<V>>)

  // The ids an equation decoder reports as its inputs: the idx-th literal in order
  // stands for the output of the idx-th literal decoder.
  function InputIds<V>(invars: seq<Atom<V>>, literals: seq<Id>): seq<Id>
    requires |literals| >= Literals(invars)
  {
    if invars == [] then []
    else if invars[0].Literal? then [literals[0]] + InputIds(invars[1..], literals[1..])
    else [invars[0].id] + InputIds(invars[1..], literals)
  }

  function Literals<V>(invars: seq<Atom<V>>): nat {
    if invars == [] then 0 else Literals(invars[1..]) + if invars[0].Literal? then 1 else 0
  }

  // The constant decoders made for an equation; `newId(n)` is the id of the n-th
  // constant object that is created.
  function LiteralDecoders<V>(invars: seq<Atom<V>>, newId: nat -> Id, n: nat): (ds: seq<Decoder<V>>)
    ensures |ds| == Literals(invars)
    ensures forall i | 0 <= i < |ds| :: ds[i].Constant? && ds[i].outputId == newId(n + i)
  {
    if invars == [] then []
    else if invars[0].Literal? then [Constant(invars[0].val, newId(n))] + LiteralDecoders(invars[1..], newId, n + 1)
    else LiteralDecoders(invars[1..], newId, n)
  }

  function VisitEqns<V>(eqns: seq<Eqn<V>>, newId: nat -> Id, n: nat): seq<Decoder<V>> {
    if eqns == [] then []
    else
      var literals := LiteralDecoders(eqns[0].invars, newId, n);
      literals + [Equation(eqns[0], literals)] + VisitEqns(eqns[1..], newId, n + |literals|)
  }

  function VisitConsts<V>(constvars: seq<Id>, consts: seq<V>): seq<Decoder<V>>
    requires |constvars| == |consts|
  {
    seq(|constvars|, i requires 0 <= i < |constvars| => Constant(consts[i], constvars[i]))
  }

  function OutputIds<V>(outvars: seq<Atom<V>>): seq<Id> {
    seq(|outvars|, i requires 0 <= i < |outvars| => outvars[i].id)
  }

  // ----- What the visited decoders compute -----

  ghost predicate Constants<V(!new)>(ds: seq<Decoder<V>>) {
    forall i | 0 <= i < |ds| :: ds[i].Constant?
  }

  function OutputIdsOf<V>(ds: seq<Decoder<V>>): (r: seq<Id>)
    requires forall i | 0 <= i < |ds| :: ds[i].Constant?
    ensures |r| == |ds|
  {
    seq(|ds|, i requires 0 <= i < |ds| => ds[i].outputId)
  }

  function ValuesOf<V>(ds: seq<Decoder<V>>): (r: seq<V>)
    requires forall i | 0 <= i < |ds| :: ds[i].Constant?
    ensures |r| == |ds|
  {
    seq(|ds|, i requires 0 <= i < |ds| => ds[i].value)
  }

  // One decoder after the other, each reading what was bound before it; None when
  // an id is read that nothing has bound.
  ghost function Run<V(!new)>(ds: seq<Decoder<V>>, env: Env<V>, sem: Semantics<V>): Option<Env<V>> {
    if ds == [] then Some(env)
    else
      match ds[0]
      case Constant(value, id) => Run(ds[1..], env[id := value], sem)
      case Equation(e, literals) =>
        if !Constants(literals) || |literals| < Literals(e.invars) then None
        else
          var ids := InputIds(e.invars, OutputIdsOf(literals));
          if exists i | 0 <= i < |ids| :: ids[i] !in env then None
          else
            var results := sem(e.op, seq(|ids|, i requires 0 <= i < |ids| => env[ids[i]]));
            if |results| != |e.outvars| then None
            else Run(ds[1..], Bind(env, e.outvars, results), sem)
  }

  // `env` extends `ref`.
  ghost predicate Extends<V(!new)>(env: Env<V>, ref: Env<V>) {
    forall id | id in ref :: id in env && env[id] == ref[id]
  }

  lemma {:induction false} BindExtends<V(!new)>(env: Env<V>, ref: Env<V>, ids: seq<Id>, vals: seq<V>)
    requires |ids| == |vals| && Extends(env, ref)
    ensures Extends(Bind(env, ids, vals), Bind(ref, ids, vals))
    decreases |ids|
  {
    if ids != [] {
      BindExtends(env[ids[0] := vals[0]], ref[ids[0] := vals[0]], ids[1..], vals[1..]);
    }
  }

  lemma {:induction false} BindOutside<V(!new)>(env: Env<V>, ids: seq<Id>, vals: seq<V>, k: Id)
    requires |ids| == |vals| && k !in ids
    ensures k in Bind(env, ids, vals) <==> k in env
    ensures k in env ==> Bind(env, ids, vals)[k] == env[k]
    decreases |ids|
  {
    if ids != [] {
      BindOutside(env[ids[0] := vals[0]], ids[1..], vals[1..], k);
    }
  }

  // What a key inside `ids` is bound to does not depend on what was there before.
  lemma {:induction false} BindInside<V(!new)>(env: Env<V>, env': Env<V>, ids: seq<Id>, vals: seq<V>, k: Id)
    requires |ids| == |vals| && k in ids
    ensures k in Bind(env, ids, vals) && k in Bind(env', ids, vals)
    ensures Bind(env, ids, vals)[k] == Bind(env', ids, vals)[k]
    decreases |ids|
  {
    var e, e' := env[ids[0] := vals[0]], env'[ids[0] := vals[0]];
    if k in ids[1..] {
      BindInside(e, e', ids[1..], vals[1..], k);
    } else {
      BindOutside(e, ids[1..], vals[1..], k);
      BindOutside(e', ids[1..], vals[1..], k);
    }
  }

  lemma {:induction false} BindDistinct<V(!new)>(env: Env<V>, ids: seq<Id>, vals: seq<V>, i: nat)
    requires |ids| == |vals| && i < |ids|
    requires forall a, b | 0 <= a < b < |ids| :: ids[a] != ids[b]
    ensures ids[i] in Bind(env, ids, vals) && Bind(env, ids, vals)[ids[i]] == vals[i]
    decreases |ids|
  {
    var e := env[ids[0] := vals[0]];
    if i == 0 {
      BindOutside(e, ids[1..], vals[1..], ids[0]);
    } else {
      BindDistinct(e, ids[1..], vals[1..], i - 1);
    }
  }

  lemma {:induction false} RunConstants<V(!new)>(ds: seq<Decoder<V>>, rest: seq<Decoder<V>>, env: Env<V>,
        sem: Semantics<V>)
    requires Constants(ds)
    ensures Run(ds + rest, env, sem) == Run(rest, Bind(env, OutputIdsOf(ds), ValuesOf(ds)), sem)
  {
    if ds == [] {
      assert ds + rest == rest;
    } else {
      assert (ds + rest)[1..] == ds[1..] + rest;
      assert OutputIdsOf(ds)[1..] == OutputIdsOf(ds[1..]) && ValuesOf(ds)[1..] == ValuesOf(ds[1..]);
      RunConstants(ds[1..], rest, env[ds[0].outputId := ds[0].value], sem);
    }
  }

  ghost predicate Bound<V(!new)>(ds: seq<Decoder<V>>, env: Env<V>) {
    forall i | 0 <= i < |ds| :: ds[i].Constant? && ds[i].outputId in env && env[ds[i].outputId] == ds[i].value
  }

  // The k-th literal of an equation reaches its own constant: read through its
  // input ids, an equation sees what the jaxpr feeds it.
  lemma {:induction false} InputsRead<V(!new)>(invars: seq<Atom<V>>, newId: nat -> Id, n: nat,
        ds: seq<Decoder<V>>, env: Env<V>, ref: Env<V>)
    requires ds == LiteralDecoders(invars, newId, n) && Bound(ds, env)
    requires Extends(env, ref) && forall i | 0 <= i < |invars| && invars[i].Var? :: invars[i].id in ref
    ensures var ids := InputIds(invars, OutputIdsOf(ds));
            && |ids| == |invars|
            && (forall i | 0 <= i < |ids| :: ids[i] in env && env[ids[i]] == Value(ref, invars[i]))
  {
    if invars != [] {
      if invars[0].Literal? {
        InputsRead(invars[1..], newId, n + 1, ds[1..], env, ref);
        assert OutputIdsOf(ds)[1..] == OutputIdsOf(ds[1..]);
        assert ds[0].outputId in env;
      } else {
        InputsRead(invars[1..], newId, n, ds, env, ref);
      }
    }
  }

  // ----- Decoding preserves meaning -----

  // Ids of constants created later are distinct from one another and from those of
  // the variables.
  ghost predicate Distinct(newId: nat -> Id, vars: set<Id>) {
    && (forall a: nat, b: nat | a != b :: newId(a) != newId(b))
    && (forall a: nat :: newId(a) !in vars)
  }

  // Only variables and created constants are ever bound.
  ghost predicate Known<V(!new)>(env: Env<V>, newId: nat -> Id, vars: set<Id>) {
    forall k | k in env :: k in vars || exists m: nat :: newId(m) == k
  }

  // One equation: its literals are bound, then it reads its inputs and binds its outputs.
  lemma RunEqn<V(!new)>(e: Eqn<V>, rest: seq<Decoder<V>>, newId: nat -> Id, n: nat, env: Env<V>, ref: Env<V>,
        vars: set<Id>, sem: Semantics<V>)
    returns (env': Env<V>)
    requires forall i | 0 <= i < |e.invars| && e.invars[i].Var? :: e.invars[i].id in ref
    requires |sem(e.op, Values(ref, e.invars))| == |e.outvars|
    requires forall o | o in e.outvars :: o in vars
    requires Distinct(newId, vars) && Known(env, newId, vars) && Extends(env, ref) && ref.Keys <= vars
    ensures var literals := LiteralDecoders(e.invars, newId, n);
            Run(literals + ([Equation(e, literals)] + rest), env, sem) == Run(rest, env', sem)
    ensures Extends(env', Bind(ref, e.outvars, sem(e.op, Values(ref, e.invars)))) && Known(env', newId, vars)
  {
    var literals := LiteralDecoders(e.invars, newId, n);
    var ids, vals := OutputIdsOf(literals), ValuesOf(literals);
    var mid := Bind(env, ids, vals);
    RunConstants(literals, [Equation(e, literals)] + rest, env, sem);
    AfterLiterals(literals, newId, n, env, ref, vars);
    InputsRead(e.invars, newId, n, literals, mid, ref);
    var results := sem(e.op, Values(ref, e.invars));
    var read := InputIds(e.invars, ids);
    assert seq(|read|, i requires 0 <= i < |read| => mid[read[i]]) == Values(ref, e.invars);
    env' := Bind(mid, e.outvars, results);
    assert ([Equation(e, literals)] + rest)[1..] == rest;
    BindExtends(mid, ref, e.outvars, results);
    BindKeys(mid, e.outvars, results);
  }

  lemma {:induction false} RunEqns<V(!new)>(eqns: seq<Eqn<V>>, newId: nat -> Id, n: nat, env: Env<V>,
        ref: Env<V>, vars: set<Id>, sem: Semantics<V>)
    requires WellFormedEqns(eqns, ref.Keys, sem) && Defined(eqns, ref.Keys) <= vars
    requires Distinct(newId, vars) && Known(env, newId, vars) && Extends(env, ref)
    ensures var r := Run(VisitEqns(eqns, newId, n), env, sem);
            r.Some? && Extends(r.value, EvalEqns(eqns, ref, sem)) && Known(r.value, newId, vars)
  {
    hide Run, Extends, Known, Distinct, Defined, WellFormedEqns, EvalEqns, VisitEqns, LiteralDecoders, Bind;
    if eqns == [] {
      RunNothing(eqns, newId, n, env, ref, sem);
    } else {
      var e := eqns[0];
      var ref' := FirstEqn(eqns, ref, vars, sem);
      FirstVisit(eqns, newId, n);
      var literals := LiteralDecoders(e.invars, newId, n);
      var env' := RunEqn(e, VisitEqns(eqns[1..], newId, n + |literals|), newId, n, env, ref, vars, sem);
      RunEqns(eqns[1..], newId, n + |literals|, env', ref', vars, sem);
    }
  }

  lemma RunNothing<V(!new)>(eqns: seq<Eqn<V>>, newId: nat -> Id, n: nat, env: Env<V>, ref: Env<V>, sem: Semantics<V>)
    requires eqns == [] && WellFormedEqns(eqns, ref.Keys, sem)
    ensures Run(VisitEqns(eqns, newId, n), env, sem) == Some(env) && EvalEqns(eqns, ref, sem) == ref
  {
  }

  // What the jaxpr does first, and that the rest is well formed after it.
  lemma FirstEqn<V(!new)>(eqns: seq<Eqn<V>>, ref: Env<V>, vars: set<Id>, sem: Semantics<V>) returns (ref': Env<V>)
    requires eqns != [] && WellFormedEqns(eqns, ref.Keys, sem) && Defined(eqns, ref.Keys) <= vars
    ensures var e := eqns[0];
      && (forall i | 0 <= i < |e.invars| && e.invars[i].Var? :: e.invars[i].id in ref)
      && |sem(e.op, Values(ref, e.invars))| == |e.outvars|
      && ref' == Bind(ref, e.outvars, sem(e.op, Values(ref, e.invars)))
      && (forall o | o in e.outvars :: o in vars) && ref.Keys <= vars
    ensures WellFormedEqns(eqns[1..], ref'.Keys, sem) && Defined(eqns[1..], ref'.Keys) <= vars
    ensures EvalEqns(eqns, ref, sem) == EvalEqns(eqns[1..], ref', sem)
  {
    hide Bind;
    var e := eqns[0];
    ref' := Bind(ref, e.outvars, sem(e.op, Values(ref, e.invars)));
    BindKeys(ref, e.outvars, sem(e.op, Values(ref, e.invars)));
    DefinedGrows(eqns[1..], ref'.Keys);
    assert forall o | o in e.outvars :: o in ref'.Keys;
  }

  lemma FirstVisit<V>(eqns: seq<Eqn<V>>, newId: nat -> Id, n: nat)
    requires eqns != []
    ensures var literals := LiteralDecoders(eqns[0].invars, newId, n);
      VisitEqns(eqns, newId, n) ==
        literals + ([Equation(eqns[0], literals)] + VisitEqns(eqns[1..], newId, n + |literals|))
  {
    hide LiteralDecoders;
    var literals := LiteralDecoders(eqns[0].invars, newId, n);
    Shift(literals, [Equation(eqns[0], literals)], VisitEqns(eqns[1..], newId, n + |literals|));
  }

  lemma {:induction false} DefinedGrows<V(!new)>(eqns: seq<Eqn<V>>, bound: set<Id>)
    ensures bound <= Defined(eqns, bound)
  {
    if eqns != [] {
      DefinedGrows(eqns[1..], bound + (set o | o in eqns[0].outvars));
    }
  }

  // Binding the literals of an equation disturbs no variable and binds each of them.
  lemma AfterLiterals<V(!new)>(ds: seq<Decoder<V>>, newId: nat -> Id, n: nat, env: Env<V>, ref: Env<V>, vars: set<Id>)
    requires Constants(ds) && forall i | 0 <= i < |ds| :: ds[i].outputId == newId(n + i)
    requires Distinct(newId, vars) && Known(env, newId, vars) && Extends(env, ref) && ref.Keys <= vars
    ensures var env1 := Bind(env, OutputIdsOf(ds), ValuesOf(ds));
            && Extends(env1, ref) && Known(env1, newId, vars)
            && Bound(ds, env1)
  {
    var ids, vals := OutputIdsOf(ds), ValuesOf(ds);
    forall k | k in ref ensures k in Bind(env, ids, vals) && Bind(env, ids, vals)[k] == ref[k] {
      BindOutside(env, ids, vals, k);
    }
    forall i | 0 <= i < |ds|
      ensures ds[i].outputId in Bind(env, ids, vals) && Bind(env, ids, vals)[ds[i].outputId] == ds[i].value
    {
      BindDistinct(env, ids, vals, i);
    }
    BindKeys(env, ids, vals);
  }

  // All ids of variables.
  function Variables<V>(j: Jaxpr<V>): set<Id> {
    Defined(j.eqns, (set v | v in j.constvars) + (set v | v in j.invars))
  }

  function Visit<V>(j: Jaxpr<V>, newId: nat -> Id): seq<Decoder<V>>
    requires |j.constvars| == |j.consts|
  {
    VisitConsts(j.constvars, j.consts) + VisitEqns(j.eqns, newId, 0)
  }

  // The model's inputs are bound to the arguments before anything runs.
  function Inputs<V>(j: Jaxpr<V>, args: seq<V>): Env<V>
    requires |j.invars| == |args|
  {
    Bind(map[], j.invars, args)
  }

  // Evaluating the decoders in visit order never reads an unbound id, and gives
  // every variable the value it has in the jaxpr.
  lemma DecodingPreservesMeaning<V(!new)>(j: Jaxpr<V>, args: seq<V>, newId: nat -> Id, sem: Semantics<V>)
    requires WellFormed(j, sem) && |args| == |j.invars| && Distinct(newId, Variables(j))
    ensures var r := Run(Visit(j, newId), Inputs(j, args), sem);
            && r.Some? && Known(r.value, newId, Variables(j))
            && forall i | 0 <= i < |j.outvars| && j.outvars[i].Var? ::
                 OutputIds(j.outvars)[i] in r.value && r.value[OutputIds(j.outvars)[i]] == Eval(j, args, sem)[i]
  {
    var consts := VisitConsts(j.constvars, j.consts);
    RunConstants(consts, VisitEqns(j.eqns, newId, 0), Inputs(j, args), sem);
    assert OutputIdsOf(consts) == j.constvars && ValuesOf(consts) == j.consts;
    var env := Bind(Inputs(j, args), j.constvars, j.consts);
    var ref := Bind(Bind(map[], j.constvars, j.consts), j.invars, args);
    BindKeys(map[], j.invars, args);
    BindKeys(Inputs(j, args), j.constvars, j.consts);
    BindKeys(map[], j.constvars, j.consts);
    BindKeys(Bind(map[], j.constvars, j.consts), j.invars, args);
    assert ref.Keys == env.Keys == (set v | v in j.constvars) + (set v | v in j.invars);
    forall k | k in ref ensures k in env && env[k] == ref[k] {
      if k in j.constvars {
        BindInside(Inputs(j, args), map[], j.constvars, j.consts, k);
        BindOutside(Bind(map[], j.constvars, j.consts), j.invars, args, k);
      } else {
        BindInside(map[], Bind(map[], j.constvars, j.consts), j.invars, args, k);
        BindOutside(Inputs(j, args), j.constvars, j.consts, k);
      }
    }
    DefinedGrows(j.eqns, ref.Keys);
    RunEqns(j.eqns, newId, 0, env, ref, Variables(j), sem);
    var r := Run(Visit(j, newId), Inputs(j, args), sem);
    forall i | 0 <= i < |j.outvars| && j.outvars[i].Var?
      ensures OutputIds(j.outvars)[i] in r.value && r.value[OutputIds(j.outvars)[i]] == Eval(j, args, sem)[i]
    {
      assert j.outvars[i] in j.outvars;
    }
  }

  // A root output is bound at all exactly when it is a variable: outputs() reports
  // the id of the literal object itself, which no decoder produces.
  lemma OutputsResolve<V(!new)>(j: Jaxpr<V>, args: seq<V>, newId: nat -> Id, sem: Semantics<V>, i: nat)
    requires WellFormed(j, sem) && |args| == |j.invars| && Distinct(newId, Variables(j)) && i < |j.outvars|
    requires j.outvars[i].Literal? ==> j.outvars[i].id !in Variables(j) && forall m: nat :: newId(m) != j.outvars[i].id
    ensures var r := Run(Visit(j, newId), Inputs(j, args), sem);
            r.Some? && (OutputIds(j.outvars)[i] in r.value <==> j.outvars[i].Var?)
  {
    DecodingPreservesMeaning(j, args, newId, sem);
  }

  // ----- One element of a suffix at a time -----

  lemma NoLiterals<V>(invars: seq<Atom<V>>, newId: nat -> Id, n: nat)
    requires invars == []
    ensures LiteralDecoders(invars, newId, n) == []
  {
  }

  lemma LiteralsFirst<V>(a: Atom<V>, rest: seq<Atom<V>>, newId: nat -> Id, n: nat)
    ensures LiteralDecoders([a] + rest, newId, n) ==
      if a.Literal? then [Constant(a.val, newId(n))] + LiteralDecoders(rest, newId, n + 1)
      else LiteralDecoders(rest, newId, n)
  {
    assert ([a] + rest)[1..] == rest;
  }

  lemma {:induction false} LiteralsAppend<V>(invars: seq<Atom<V>>, a: Atom<V>, newId: nat -> Id, n: nat)
    ensures var ds := LiteralDecoders(invars, newId, n);
      LiteralDecoders(invars + [a], newId, n) ==
        if a.Literal? then ds + [Constant(a.val, newId(n + |ds|))] else ds
  {
    hide LiteralDecoders;
    if invars == [] {
      assert invars + [a] == [a] + [];
      LiteralsFirst(a, [], newId, n);
      NoLiterals<V>([], newId, n);
      NoLiterals<V>([], newId, n + 1);
      NoLiterals(invars, newId, n);
    } else {
      var b, rest := invars[0], invars[1..];
      assert invars == [b] + rest && invars + [a] == [b] + (rest + [a]);
      LiteralsFirst(b, rest, newId, n);
      LiteralsFirst(b, rest + [a], newId, n);
      LiteralsAppend(rest, a, newId, if b.Literal? then n + 1 else n);
    }
  }

  lemma LiteralsUpTo<V>(invars: seq<Atom<V>>, i: nat, newId: nat -> Id, n: nat)
    requires i < |invars|
    ensures var ds := LiteralDecoders(invars[..i], newId, n);
      LiteralDecoders(invars[..i + 1], newId, n) ==
        if invars[i].Literal? then ds + [Constant(invars[i].val, newId(n + |ds|))] else ds
  {
    hide LiteralDecoders;
    assert invars[..i + 1] == invars[..i] + [invars[i]];
    LiteralsAppend(invars[..i], invars[i], newId, n);
  }

  lemma InputsFrom<V>(invars: seq<Atom<V>>, i: nat, ids: seq<Id>, k: nat)
    requires i <= |invars| && k <= |ids| && |ids| - k >= Literals(invars[i..])
    ensures i < |invars| && invars[i].Literal? ==> k < |ids| && |ids| - (k + 1) >= Literals(invars[i + 1..])
    ensures i < |invars| && invars[i].Var? ==> |ids| - k >= Literals(invars[i + 1..])
    ensures InputIds(invars[i..], ids[k..]) ==
      if i == |invars| then []
      else if invars[i].Literal? then [ids[k]] + InputIds(invars[i + 1..], ids[k + 1..])
      else [invars[i].id] + InputIds(invars[i + 1..], ids[k..])
  {
    if i < |invars| {
      assert invars[i..][1..] == invars[i + 1..];
      if invars[i].Literal? { assert ids[k..][1..] == ids[k + 1..]; }
    }
  }

  lemma EqnsFrom<V>(eqns: seq<Eqn<V>>, k: nat, newId: nat -> Id, n: nat)
    requires k < |eqns|
    ensures var literals := LiteralDecoders(eqns[k].invars, newId, n);
            && VisitEqns(eqns[k..], newId, n) ==
                 literals + [Equation(eqns[k], literals)] + VisitEqns(eqns[k + 1..], newId, n + |literals|)
            && KeptEqns(eqns[k..], newId, n) ==
                 [Equation(eqns[k], literals)] + KeptEqns(eqns[k + 1..], newId, n + |literals|)
  {
    assert eqns[k..][1..] == eqns[k + 1..];
  }

  lemma Shift<X>(a: seq<X>, b: seq<X>, c: seq<X>)
    ensures a + (b + c) == (a + b) + c
  {
  }

  // ----- The decoder object -----

  // The decoders of a visit that the root keeps alive itself: all but those of
  // literals, which their equation keeps.
  function KeptEqns<V>(eqns: seq<Eqn<V>>, newId: nat -> Id, n: nat): seq<Decoder<V>> {
    if eqns == [] then []
    else
      var literals := LiteralDecoders(eqns[0].invars, newId, n);
      [Equation(eqns[0], literals)] + KeptEqns(eqns[1..], newId, n + |literals|)
  }

  function Equations<V>(ds: seq<Decoder<V>>): seq<Decoder<V>> {
    if ds == [] then [] else (if ds[0].Equation? then [ds[0]] else []) + Equations(ds[1..])
  }

  lemma {:induction false} EquationsBehind<V>(literals: seq<Decoder<V>>, ds: seq<Decoder<V>>)
    requires forall i | 0 <= i < |literals| :: literals[i].Constant?
    ensures Equations(literals + ds) == Equations(ds)
  {
    if literals == [] {
      assert literals + ds == ds;
    } else {
      assert (literals + ds)[1..] == literals[1..] + ds;
      EquationsBehind(literals[1..], ds);
    }
  }

  // Of the visited decoders the root keeps the equations: one for each equation of the
  // jaxpr, in order.
  lemma {:induction false} KeptExactly<V>(eqns: seq<Eqn<V>>, newId: nat -> Id, n: nat)
    ensures var kept := KeptEqns(eqns, newId, n);
      && kept == Equations(VisitEqns(eqns, newId, n)) && |kept| == |eqns|
      && forall k | 0 <= k < |eqns| :: kept[k].Equation? && kept[k].eqn == eqns[k]
    decreases |eqns|
  {
    hide LiteralDecoders;
    if eqns != [] {
      var literals := LiteralDecoders(eqns[0].invars, newId, n);
      var first, rest := Equation(eqns[0], literals), VisitEqns(eqns[1..], newId, n + |literals|);
      FirstVisit(eqns, newId, n);
      KeptExactly(eqns[1..], newId, n + |literals|);
      EquationsBehind(literals, [first] + rest);
      assert ([first] + rest)[1..] == rest;
    }
  }

  class RootDecoder<V> {
    const jaxpr: Jaxpr<V>
    var mDecoders: seq<Decoder<V>>

    constructor (jaxpr: Jaxpr<V>)
      ensures this.jaxpr == jaxpr && mDecoders == []
    {
      this.jaxpr := jaxpr;
      mDecoders := [];
    }

    // visit_subgraph; `visited` is what node_visitor is called with, in order.
    method VisitSubgraph(newId: nat -> Id) returns (visited: seq<Decoder<V>>)
      requires |jaxpr.constvars| == |jaxpr.consts|
      modifies this
      ensures visited == Visit(jaxpr, newId)
      ensures mDecoders == old(mDecoders) + VisitConsts(jaxpr.constvars, jaxpr.consts) + KeptEqns(jaxpr.eqns, newId, 0)
    {
      var consts := VisitConstvars();
      var eqns := VisitEquations(newId);
      visited := consts + eqns;
    }

    method VisitConstvars() returns (visited: seq<Decoder<V>>)
      requires |jaxpr.constvars| == |jaxpr.consts|
      modifies this
      ensures visited == VisitConsts(jaxpr.constvars, jaxpr.consts)
      ensures mDecoders == old(mDecoders) + visited
    {
      visited := [];
      var idx := 0;
      while idx < |jaxpr.constvars|
        invariant idx <= |jaxpr.constvars|
        invariant visited == VisitConsts(jaxpr.constvars[..idx], jaxpr.consts[..idx])
        invariant mDecoders == old(mDecoders) + visited
      {
        var decoder := Constant(jaxpr.consts[idx], jaxpr.constvars[idx]);
        mDecoders := mDecoders + [decoder];
        visited := visited + [decoder];
        idx := idx + 1;
      }
      assert jaxpr.constvars[..idx] == jaxpr.constvars && jaxpr.consts[..idx] == jaxpr.consts;
    }

    method VisitEquations(newId: nat -> Id) returns (visited: seq<Decoder<V>>)
      modifies this
      ensures visited == VisitEqns(jaxpr.eqns, newId, 0)
      ensures mDecoders == old(mDecoders) + KeptEqns(jaxpr.eqns, newId, 0)
    {
      hide VisitEqns, KeptEqns, LiteralDecoders;
      visited := [];
      ghost var kept: seq<Decoder<V>> := [];
      var n: nat, k := 0, 0;
      assert jaxpr.eqns[0..] == jaxpr.eqns;
      while k < |jaxpr.eqns|
        invariant k <= |jaxpr.eqns|
        invariant visited + VisitEqns(jaxpr.eqns[k..], newId, n) == VisitEqns(jaxpr.eqns, newId, 0)
        invariant kept + KeptEqns(jaxpr.eqns[k..], newId, n) == KeptEqns(jaxpr.eqns, newId, 0)
        invariant mDecoders == old(mDecoders) + kept
      {
        EqnsFrom(jaxpr.eqns, k, newId, n);
        var literals := VisitLiterals(jaxpr.eqns[k], newId, n);
        var decoder := Equation(jaxpr.eqns[k], literals);
        Shift(visited, literals + [decoder], VisitEqns(jaxpr.eqns[k + 1..], newId, n + |literals|));
        Shift(kept, [decoder], KeptEqns(jaxpr.eqns[k + 1..], newId, n + |literals|));
        mDecoders := mDecoders + [decoder];
        kept := kept + [decoder];
        visited := visited + (literals + [decoder]);
        n := n + |literals|;
        k := k + 1;
      }
      NoEqns(jaxpr.eqns[k..], newId, n);
    }
  }

  lemma NoEqns<V>(eqns: seq<Eqn<V>>, newId: nat -> Id, n: nat)
    requires eqns == []
    ensures VisitEqns(eqns, newId, n) == [] && KeptEqns(eqns, newId, n) == []
  {
  }

  // The inner loop over the inputs of one equation.
  method VisitLiterals<V>(eqn: Eqn<V>, newId: nat -> Id, n: nat) returns (literals: seq<Decoder<V>>)
    ensures literals == LiteralDecoders(eqn.invars, newId, n)
  {
    hide LiteralDecoders;
    literals := [];
    var i := 0;
    NoLiterals(eqn.invars[..0], newId, n);
    while i < |eqn.invars|
      invariant i <= |eqn.invars|
      invariant literals == LiteralDecoders(eqn.invars[..i], newId, n)
    {
      LiteralsUpTo(eqn.invars, i, newId, n);
      if eqn.invars[i].Literal? {
        literals := literals + [Constant(eqn.invars[i].val, newId(n + |literals|))];
      }
      i := i + 1;
    }
    assert eqn.invars[..i] == eqn.invars;
  }

  // inputs() of an equation decoder.
  method EquationInputs<V>(eqn: Eqn<V>, literals: seq<Decoder<V>>) returns (res: seq<Id>)
    requires forall i | 0 <= i < |literals| :: literals[i].Constant?
    requires |literals| >= Literals(eqn.invars)
    ensures res == InputIds(eqn.invars, OutputIdsOf(literals))
  {
    hide InputIds, Literals;
    ghost var ids := OutputIdsOf(literals);
    res := [];
    var idx, i := 0, 0;
    assert eqn.invars[0..] == eqn.invars && ids[0..] == ids;
    while i < |eqn.invars|
      invariant i <= |eqn.invars| && idx <= |literals|
      invariant |ids| - idx >= Literals(eqn.invars[i..])
      invariant res + InputIds(eqn.invars[i..], ids[idx..]) == InputIds(eqn.invars, ids)
    {
      InputsFrom(eqn.invars, i, ids, idx);
      if eqn.invars[i].Literal? {
        Shift(res, [ids[idx]], InputIds(eqn.invars[i + 1..], ids[idx + 1..]));
        res := res + [literals[idx].outputId];
        idx := idx + 1;
      } else {
        Shift(res, [eqn.invars[i].id], InputIds(eqn.invars[i + 1..], ids[idx..]));
        res := res + [eqn.invars[i].id];
      }
      i := i + 1;
    }
    InputsFrom(eqn.invars, i, ids, idx);
  }
}
