// Patching GPTQ modules for tracing and undoing it again, patch_model and
// unpatch_model of openvino/python/openvino/frontend/pytorch/gptq.py.
module GptqPatching {
  import opened Wrappers
  import opened Indexing
  import Gptq

  datatype DType = UInt8 | Int32 | Int64

  function ItemSize(d: DType): nat {
    match d case UInt8 => 1 case Int32 => 4 case Int64 => 8
  }

  // An integer tensor: its memory, and how the memory is read.
  datatype Words = Words(dtype: DType, shape: seq<nat>, memory: seq<bv8>)

  // view(dtype=d): the memory stays, the last dimension is rescaled.
  function View(t: Words, d: DType): Option<Words> {
    if t.shape == [] then None
    else
      var last := |t.shape| - 1;
      var bytes := t.shape[last] * ItemSize(t.dtype);
      if bytes % ItemSize(d) != 0 then None
      else Some(Words(d, t.shape[..last] + [bytes / ItemSize(d)], t.memory))
  }

  datatype Floats = Floats(single: bool, shape: seq<nat>, entries: seq<real>)

  // view(-1, 1, width)
  function ViewGroups(t: Floats, width: nat): Option<Floats> {
    if width == 0 || |t.entries| % width != 0 then None
    else Some(t.(shape := [|t.entries| / width, 1, width]))
  }

  datatype Forward = Own(id: nat) | Patched | PatchedSym

  datatype Error = UnsupportedQuantType | UnsupportedBits | BadShape | WrongGroupSize | ScalesNotDivisible

  // The attributes the two functions read and write; a missing attribute is None.
  datatype Attrs = Attrs(
    quantType: Option<string>, bits: int, groupSize: nat, isQuantized: Option<bool>,
    forward: Forward, qweight: Words, qzeros: Words, scales: Floats, width: Option<nat>,
    origForward: Option<Forward>, origQweightType: Option<DType>, origQzerosType: Option<DType>,
    origScaleShape: Option<seq<nat>>, keptQweight: Option<Words>, keptQzeros: Option<seq<bv8>>)

  const SUPPORTED: seq<string> := ["triton", "exllama", "exllamav2", "cuda-old"]

  // ----- One module -----

  // What patch_model does first to every module it has not patched yet.
  function Prepared(a: Attrs): Attrs {
    a.(isQuantized := if a.isQuantized.Some? then Some(false) else None, scales := a.scales.(single := true))
  }

  function Plus17(bytes: seq<bv8>): seq<bv8> {
    seq(|bytes|, i requires 0 <= i < |bytes| => bytes[i] + 17)
  }

  function PatchOne(a: Attrs, sym: bool): (Attrs, Option<Error>) {
    if a.origForward.Some? then (a, None)
    else
      var a := Prepared(a);
      if a.quantType.None? then (a, None)
      else if a.quantType.value !in SUPPORTED then (a, Some(UnsupportedQuantType))
      else if a.bits != 4 then (a, Some(UnsupportedBits))
      else if a.qzeros.shape == [] || |a.qweight.shape| < 2 then (a, Some(BadShape))
      else
        var groups, width := a.qzeros.shape[0], a.qweight.shape[1];
        var a := a.(width := Some(width));
        if groups == 0 then (a, Some(BadShape))
        else if a.groupSize != a.qweight.shape[0] * 8 / groups then (a, Some(WrongGroupSize))
        else
          var qweight, qzeros := View(a.qweight, UInt8), View(a.qzeros, UInt8);
          assert qweight.Some? && qzeros.Some?;
          var b := a.(forward := if sym then PatchedSym else Patched,
                      origForward := Some(a.forward),
                      origQweightType := Some(a.qweight.dtype),
                      origQzerosType := Some(a.qzeros.dtype),
                      origScaleShape := Some(a.scales.shape),
                      qweight := qweight.value,
                      qzeros := qzeros.value,
                      keptQweight := Some(qweight.value),
                      keptQzeros := Some(Plus17(qzeros.value.memory)));
          match ViewGroups(a.scales, width)
          case Some(scales) => (b.(scales := scales), None)
          case None => (b, Some(ScalesNotDivisible))
  }

  // unpatch_model on one module: each line may raise, and then the rest is skipped.
  function UnpatchOne(a: Attrs): Attrs {
    if a.origForward.None? then a
    else
      var a := a.(forward := a.origForward.value, origForward := None);
      var qweight := if a.origQweightType.Some? then View(a.qweight, a.origQweightType.value) else None;
      if qweight.None? then a
      else
        var a := a.(qweight := qweight.value, origQweightType := None);
        var qzeros := if a.origQzerosType.Some? then View(a.qzeros, a.origQzerosType.value) else None;
        if qzeros.None? then a
        else
          var a := a.(qzeros := qzeros.value, origQzerosType := None);
          if a.origScaleShape.None? || Numel(a.origScaleShape.value) != |a.scales.entries| then a
          else
            var a := a.(scales := a.scales.(shape := a.origScaleShape.value), origScaleShape := None);
            if a.keptQweight.None? then a
            else a.(keptQweight := None, keptQzeros := None)
  }

  function Numel(shape: seq<nat>): nat {
    if shape == [] then 1 else shape[0] * Numel(shape[1..])
  }

  // No trace of an earlier patch, and a scales tensor whose shape fits its entries.
  predicate Pristine(a: Attrs) {
    && a.origForward.None? && a.origQweightType.None? && a.origQzerosType.None?
    && a.origScaleShape.None? && a.keptQweight.None? && a.keptQzeros.None?
    && Numel(a.scales.shape) == |a.scales.entries|
  }

  // a and b agree on the layer proper. Three attributes may differ: `isQuantized`,
  // `width` and the precision of the scales, see Residue.
  predicate SameLayer(a: Attrs, b: Attrs) {
    && a.forward == b.forward && a.qweight == b.qweight && a.qzeros == b.qzeros
    && a.scales.shape == b.scales.shape && a.scales.entries == b.scales.entries
    && a.quantType == b.quantType && a.bits == b.bits && a.groupSize == b.groupSize
  }

  // ----- Which modules can be patched -----

  // A quantised module that gets as far as having its width measured.
  predicate Measured(a: Attrs) {
    && a.quantType.Some? && a.quantType.value in SUPPORTED && a.bits == 4
    && a.qzeros.shape != [] && |a.qweight.shape| >= 2
  }

  predicate GroupsFit(a: Attrs)
    requires Measured(a)
  {
    a.qzeros.shape[0] != 0 && a.groupSize == a.qweight.shape[0] * 8 / a.qzeros.shape[0]
  }

  predicate ScalesFit(a: Attrs)
    requires Measured(a)
  {
    a.qweight.shape[1] != 0 && |a.scales.entries| % a.qweight.shape[1] == 0
  }

  // All is well but for the number of scales.
  predicate Indivisible(a: Attrs) {
    Measured(a) && GroupsFit(a) && !ScalesFit(a)
  }

  // A quantised module that cannot be patched.
  predicate Blocked(a: Attrs) {
    a.quantType.Some? && !(Measured(a) && GroupsFit(a) && ScalesFit(a))
  }

  // The error is raised exactly for such modules, and the one about the scales exactly
  // for those with everything else in order.
  lemma BlockedExactly(a: Attrs, sym: bool)
    requires a.origForward.None?
    ensures PatchOne(a, sym).1.Some? <==> Blocked(a)
    ensures PatchOne(a, sym).1 == Some(ScalesNotDivisible) <==> Indivisible(a)
  {
    hide View, Plus17;
    ViewBytes(a.qweight);
    ViewBytes(a.qzeros);
  }

  // Which error is raised, the first that applies.
  lemma ErrorExactly(a: Attrs, sym: bool)
    requires a.origForward.None?
    ensures PatchOne(a, sym).1 ==
      if a.quantType.None? then None
      else if a.quantType.value != "triton" && a.quantType.value != "exllama"
              && a.quantType.value != "exllamav2" && a.quantType.value != "cuda-old" then Some(UnsupportedQuantType)
      else if a.bits != 4 then Some(UnsupportedBits)
      else if a.qzeros.shape == [] || |a.qweight.shape| < 2 || a.qzeros.shape[0] == 0 then Some(BadShape)
      else if a.groupSize != 8 * a.qweight.shape[0] / a.qzeros.shape[0] then Some(WrongGroupSize)
      else if a.qweight.shape[1] == 0 || |a.scales.entries| % a.qweight.shape[1] != 0 then Some(ScalesNotDivisible)
      else None
  {
    hide View, Plus17;
    ViewBytes(a.qweight);
    ViewBytes(a.qzeros);
    assert SUPPORTED == ["triton", "exllama", "exllamav2", "cuda-old"];
  }

  // What patching and unpatching leave of a module: it is no longer marked as
  // quantised, its width is recorded and its scales have single precision.
  function Residue(a: Attrs): Attrs {
    a.(isQuantized := if a.isQuantized.Some? then Some(false) else None,
       width := if Measured(a) then Some(a.qweight.shape[1]) else a.width,
       scales := a.scales.(single := true))
  }

  // A view is possible exactly when the last dimension has whole elements of the new type.
  lemma ViewExactly(t: Words, d: DType)
    ensures View(t, d).Some? <==>
      t.shape != [] && t.shape[|t.shape| - 1] * ItemSize(t.dtype) % ItemSize(d) == 0
    ensures View(t, d).Some? ==> View(t, d).value.memory == t.memory && View(t, d).value.dtype == d
  {
  }

  lemma ViewBack(t: Words, d: DType)
    requires View(t, d).Some? && ItemSize(d) == 1
    ensures View(View(t, d).value, t.dtype) == Some(t)
  {
    var u := View(t, d).value;
    var last := |t.shape| - 1;
    assert u.shape[..last] == t.shape[..last];
    assert t.shape == t.shape[..last] + [t.shape[last]];
    match t.dtype case UInt8 => case Int32 => case Int64 =>
  }

  // Patching leaves a module as its residue, or moves what else it changes into the markers.
  lemma MarkersSet(a: Attrs, sym: bool)
    requires Pristine(a)
    ensures var p := PatchOne(a, sym).0;
      if p.origForward.None? then p == Residue(a)
      else
        && View(a.qweight, UInt8) == Some(p.qweight) && View(a.qzeros, UInt8) == Some(p.qzeros)
        && p.scales.entries == a.scales.entries && p.scales.single
        && p == Residue(a).(
             forward := p.forward, qweight := p.qweight, qzeros := p.qzeros, scales := p.scales,
             origForward := Some(a.forward), origQweightType := Some(a.qweight.dtype),
             origQzerosType := Some(a.qzeros.dtype), origScaleShape := Some(a.scales.shape),
             keptQweight := p.keptQweight, keptQzeros := p.keptQzeros)
        && p.keptQweight.Some?
  {
    hide Numel, View, ViewGroups, Plus17;
    ViewBytes(a.qweight);
    ViewBytes(a.qzeros);
    if |a.qweight.shape| >= 2 { ViewGroupsKeeps(a.scales.(single := true), a.qweight.shape[1]); }
  }

  // A tensor of 32-bit or 64-bit integers has four or eight bytes for each of them.
  lemma ViewBytes(t: Words)
    ensures t.shape != [] ==> View(t, UInt8).Some?
    ensures t.shape != [] ==>
      var u, last := View(t, UInt8).value, |t.shape| - 1;
      && u.memory == t.memory && u.dtype == UInt8 && |u.shape| == |t.shape| && u.shape[..last] == t.shape[..last]
      && u.shape[last] == t.shape[last] * if t.dtype.UInt8? then 1 else if t.dtype.Int32? then 4 else 8
  {
  }

  lemma ViewGroupsKeeps(t: Floats, width: nat)
    ensures ViewGroups(t, width).Some? ==>
      ViewGroups(t, width).value.entries == t.entries && ViewGroups(t, width).value.single == t.single
  {
  }

  // Wherever patching a module stopped, unpatching restores it up to its residue and
  // leaves no marker.
  lemma UnpatchRestores(a: Attrs, sym: bool)
    requires Pristine(a)
    ensures var b := UnpatchOne(PatchOne(a, sym).0);
      b == Residue(a) && SameLayer(a, b) && Pristine(b)
  {
    hide PatchOne, View, Numel, Measured;
    MarkersSet(a, sym);
    if PatchOne(a, sym).0.origForward.Some? {
      ViewBack(a.qweight, UInt8);
      ViewBack(a.qzeros, UInt8);
    }
  }

  // What a patched module keeps for its forward pass is what the dequantisation reads:
  // the bytes of qweight as they are, and the bytes of qzeros with 17 added.
  lemma ForwardReadsKept(a: Attrs, sym: bool, l: Gptq.Layer)
    requires a.origForward.None? && l.WellShaped()
    requires a.qweight.memory == Gptq.ViewBytes(l.qweight) && a.qzeros.memory == Gptq.ViewBytes(l.qzeros)
    ensures var p := PatchOne(a, sym).0; p.origForward.Some? ==>
      && p.keptQweight.Some? && p.keptQzeros.Some?
      && p.keptQweight.value.memory == a.qweight.memory
      && |p.keptQweight.value.memory| == 4 * |l.qweight| && 8 * |l.qweight| == l.height * l.width * 8
      && Gptq.UnpackedWeights(l)
           == Gptq.Transpose(Gptq.DecompressionPattern(p.keptQweight.value.memory), l.height, l.width, 8)
      && Gptq.UnpackedZeros(l) == Gptq.DecompressionPattern(p.keptQzeros.value)
      && p.forward == if sym then PatchedSym else Patched
  {
    hide Gptq.Transpose, Gptq.DecompressionPattern, ViewGroups, Numel;
    ViewBytes(a.qweight);
    ViewBytes(a.qzeros);
    assert Plus17(a.qzeros.memory) ==
      seq(|a.qzeros.memory|, i requires 0 <= i < |a.qzeros.memory| => a.qzeros.memory[i] + 17);
  }

  // ----- What a patched module multiplies with -----

  lemma Regrouped(size: nat, a: nat, b: nat)
    requires a * b != 0 && size % (a * b) == 0
    ensures a * (size / (a * b)) * b == size && size / (a * b) * a * b == size
  {
    var k := size / (a * b);
    assert k * (a * b) == size;
    assert k * (a * b) == k * a * b == a * k * b;
  }

  // The kept bytes of qweight as [height][-1][8], transposed.
  function ForwardNibbles(p: Attrs): Option<seq<bv8>> {
    if p.keptQweight.None? || p.qweight.shape == [] then None
    else
      var w, height := Gptq.DecompressionPattern(p.keptQweight.value.memory), p.qweight.shape[0];
      if height * 8 == 0 || |w| % (height * 8) != 0 then None
      else
        Regrouped(|w|, height, 8);
        Some(Gptq.Transpose(w, height, |w| / (height * 8), 8))
  }

  // The kept bytes of qzeros as [groups][1][width], or 8 throughout on the symmetric path.
  function ForwardZeros(p: Attrs, groups: nat, width: nat): Option<seq<nat>> {
    if p.forward.PatchedSym? then Some(seq(groups * width, _ => 8))
    else if p.keptQzeros.None? || p.qzeros.shape == [] || p.qzeros.shape[0] != groups then None
    else
      var z := Gptq.DecompressionPattern(p.keptQzeros.value);
      if |z| != groups * width then None else Some(seq(|z|, i requires 0 <= i < |z| => Gptq.Int(z[i])))
  }

  // The cell of [groups][1][width] that broadcasting pairs with cell i of
  // [groups][size][width].
  function Cell(i: nat, groups: nat, size: nat, width: nat): (k: nat)
    requires i < groups * size * width
    ensures k < groups * width
  {
    GroupCell(i, groups, size, width);
    Gptq.Broadcast(i, size, width)
  }

  function Multiply(w: seq<bv8>, z: seq<nat>, scales: seq<real>, groups: nat, size: nat, width: nat): seq<real>
    requires |w| == groups * size * width && |z| == |scales| == groups * width
  {
    seq(|w|, i requires 0 <= i < |w| =>
      var k := Cell(i, groups, size, width); Gptq.Scaled(Gptq.Int(w[i]), z[k], scales[k]))
  }

  // What the forward of a patched module multiplies its input with, from the attributes it
  // reads; None where their shapes do not match.
  function ForwardWeights(p: Attrs): Option<seq<real>> {
    var w := ForwardNibbles(p);
    if p.forward.Own? || p.width.None? || w.None? then None
    else
      var width, size := p.width.value, p.groupSize;
      if size * width == 0 || |w.value| % (size * width) != 0 then None
      else
        var groups := |w.value| / (size * width);
        var z := ForwardZeros(p, groups, width);
        if z.None? || p.scales.shape != [groups, 1, width] || |p.scales.entries| != groups * width then None
        else
          Regrouped(|w.value|, size, width);
          Some(Multiply(w.value, z.value, p.scales.entries, groups, size, width))
  }

  predicate MultipliesWith(p: Attrs, w: seq<real>) {
    ForwardWeights(p) == Some(w)
  }

  // A module, not patched yet, with the tensors of a layer that is not empty.
  ghost predicate Holds(a: Attrs, l: Gptq.Layer) {
    && l.WellShaped() && l.height > 0 && l.width > 0
    && a.quantType.Some? && a.quantType.value in SUPPORTED && a.bits == 4 && a.groupSize == l.groupSize
    && a.qweight.shape == [l.height, l.width] && a.qweight.memory == Gptq.ViewBytes(l.qweight)
    && a.qzeros.shape == [l.groups, l.zeroCols] && a.qzeros.memory == Gptq.ViewBytes(l.qzeros)
    && a.scales.entries == l.scales && a.origForward.None?
  }

  // Such a module can be patched.
  lemma HeldFits(a: Attrs, l: Gptq.Layer, sym: bool)
    requires Holds(a, l)
    ensures l.groups > 0 && l.groupSize > 0
    ensures PatchOne(a, sym).1 == None
  {
    hide PatchOne, View;
    assert l.groups > 0 && l.groupSize > 0 by { assert l.groups * l.groupSize == 8 * l.height; }
    DivMod(l.groupSize, l.groups, 0);
    DivMod(l.groups, l.width, 0);
    BlockedExactly(a, sym);
  }

  // It then has what the forward of its path reads.
  lemma HeldRead(a: Attrs, l: Gptq.Layer, sym: bool)
    requires Holds(a, l)
    ensures var p := PatchOne(a, sym).0;
      && p.origForward.Some? && p.groupSize == l.groupSize && p.width == Some(l.width)
      && p.qweight.shape != [] && p.qweight.shape[0] == l.height
      && p.qzeros.shape != [] && p.qzeros.shape[0] == l.groups
      && p.scales.entries == l.scales && p.scales.shape == [l.groups, 1, l.width]
  {
    HeldFits(a, l, sym);
    DivMod(l.groups, l.width, 0);
  }

  lemma LayerSizes(l: Gptq.Layer)
    requires l.WellShaped() && l.height > 0 && l.width > 0 && l.groupSize > 0
    ensures var n := 8 * |l.qweight|;
      && l.height * 8 > 0 && n % (l.height * 8) == 0 && n / (l.height * 8) == l.width
      && l.groupSize * l.width > 0 && n % (l.groupSize * l.width) == 0
      && n / (l.groupSize * l.width) == l.groups && n == l.groups * l.groupSize * l.width
      && |l.scales| == l.groups * l.width
  {
    Gptq.Sizes(l);
    assert 8 * |l.qweight| == l.width * (l.height * 8);
    assert 8 * |l.qweight| == l.groups * (l.groupSize * l.width);
    assert l.groupSize * l.width > 0;
    DivMod(l.width, l.height * 8, 0);
    DivMod(l.groups, l.groupSize * l.width, 0);
  }

  lemma HeldNibbles(p: Attrs, l: Gptq.Layer)
    requires l.WellShaped() && l.height > 0 && l.width > 0 && l.groupSize > 0
    requires p.qweight.shape != [] && p.qweight.shape[0] == l.height
    requires p.keptQweight.Some? && p.keptQweight.value.memory == Gptq.ViewBytes(l.qweight)
    ensures ForwardNibbles(p) == Some(Gptq.UnpackedWeights(l))
  {
    hide Gptq.Layer.WellShaped, Gptq.Transpose;
    LayerSizes(l);
    assert |Gptq.DecompressionPattern(p.keptQweight.value.memory)| == 8 * |l.qweight|;
  }

  function Weights(l: Gptq.Layer, sym: bool): (w: seq<real>)
    requires l.WellShaped()
    ensures |w| == 8 * |l.qweight|
  {
    if sym then Gptq.DequantisedSym(l) else Gptq.Dequantised(l)
  }

  // Patching a module succeeds, and its new forward multiplies with the layer's
  // dequantised weights.
  lemma PatchedForward(a: Attrs, l: Gptq.Layer, sym: bool)
    requires Holds(a, l)
    ensures PatchOne(a, sym).1 == None
    ensures MultipliesWith(PatchOne(a, sym).0, Weights(l, sym))
  {
    hide PatchOne, Gptq.Layer.WellShaped, ForwardWeights, Weights, Gptq.UnpackedWeights, Gptq.UnpackedZeros;
    hide Gptq.Transpose, Gptq.DecompressionPattern;
    HeldFits(a, l, sym);
    HeldRead(a, l, sym);
    ForwardReadsKept(a, sym, l);
    HeldNibbles(PatchOne(a, sym).0, l);
    HeldZeros(PatchOne(a, sym).0, l, sym);
    ReadMultiplies(PatchOne(a, sym).0, l, sym);
  }

  function Zeros(l: Gptq.Layer, sym: bool): (z: seq<nat>)
    requires l.WellShaped()
    ensures |z| == l.groups * l.width
  {
    if sym then seq(l.groups * l.width, _ => 8)
    else
      var z := Gptq.UnpackedZeros(l); seq(|z|, i requires 0 <= i < |z| => Gptq.Int(z[i]))
  }

  lemma HeldZeros(p: Attrs, l: Gptq.Layer, sym: bool)
    requires l.WellShaped()
    requires p.qzeros.shape != [] && p.qzeros.shape[0] == l.groups
    requires p.keptQzeros.Some? && p.forward == if sym then PatchedSym else Patched
    ensures Gptq.DecompressionPattern(p.keptQzeros.value) == Gptq.UnpackedZeros(l) ==>
      ForwardZeros(p, l.groups, l.width) == Some(Zeros(l, sym))
  {
    hide Gptq.UnpackedZeros, Gptq.DecompressionPattern, Gptq.Int;
  }

  lemma Multiplied(l: Gptq.Layer, sym: bool)
    requires l.WellShaped()
    ensures 8 * |l.qweight| == l.groups * l.groupSize * l.width
    ensures Multiply(Gptq.UnpackedWeights(l), Zeros(l, sym), l.scales, l.groups, l.groupSize, l.width)
      == Weights(l, sym)
  {
    hide Gptq.Layer.WellShaped, Gptq.UnpackedWeights, Gptq.UnpackedZeros, Gptq.Scaled, Gptq.Int, Gptq.Broadcast;
    hide Multiply;
    Gptq.Sizes(l);
    var w := Weights(l, sym);
    var m := Multiply(Gptq.UnpackedWeights(l), Zeros(l, sym), l.scales, l.groups, l.groupSize, l.width);
    MultiplyAt(Gptq.UnpackedWeights(l), Zeros(l, sym), l.scales, l.groups, l.groupSize, l.width);
    forall i: nat | i < |w| ensures m[i] == w[i] {
      SameCell(l, i);
    }
  }

  lemma SameCell(l: Gptq.Layer, i: nat)
    requires l.WellShaped() && i < 8 * |l.qweight|
    ensures 8 * |l.qweight| == l.groups * l.groupSize * l.width
    ensures Cell(i, l.groups, l.groupSize, l.width) == Gptq.GroupIndex(l, i)
  {
    hide Gptq.Layer.WellShaped, Gptq.Broadcast;
    Gptq.Sizes(l);
  }

  lemma MultiplyAt(w: seq<bv8>, z: seq<nat>, scales: seq<real>, groups: nat, size: nat, width: nat)
    requires |w| == groups * size * width && |z| == |scales| == groups * width
    ensures var m := Multiply(w, z, scales, groups, size, width);
      |m| == |w| && forall i: nat | i < |w| ::
        var k := Cell(i, groups, size, width); m[i] == Gptq.Scaled(Gptq.Int(w[i]), z[k], scales[k])
  {
    hide Cell;
  }

  // The forward computes them from the attributes.
  lemma ReadMultiplies(p: Attrs, l: Gptq.Layer, sym: bool)
    requires l.WellShaped() && l.height > 0 && l.width > 0 && l.groupSize > 0
    requires p.groupSize == l.groupSize && p.width == Some(l.width)
    requires p.scales.entries == l.scales && p.scales.shape == [l.groups, 1, l.width] && !p.forward.Own?
    ensures
      (ForwardNibbles(p) == Some(Gptq.UnpackedWeights(l)) && ForwardZeros(p, l.groups, l.width) == Some(Zeros(l, sym)))
      ==> MultipliesWith(p, Weights(l, sym))
  {
    hide Gptq.Layer.WellShaped, Gptq.UnpackedWeights, ForwardNibbles, ForwardZeros, Zeros, Weights, Multiply;
    LayerSizes(l);
    Multiplied(l, sym);
  }

  // Where the chosen path is right.
  predicate Exact(l: Gptq.Layer, sym: bool, g: nat, c: nat)
    requires l.WellShaped() && g < l.groups && c < l.width
  {
    || Gptq.Scale(l, g, c) == 0.0
    || if sym then Gptq.Int(Gptq.ZeroNibble(l, g, c)) == 7 else Gptq.NoCarry(l, g, c)
  }

  // Row r, column c of the weights.
  function Entry(l: Gptq.Layer, w: seq<real>, r: nat, c: nat): real
    requires l.WellShaped() && |w| == 8 * |l.qweight| && r < 8 * l.height && c < l.width
  {
    Gptq.EntryInside(l, r, c);
    w[r * l.width + c]
  }

  // The weights are AutoGPTQ's in the exact places and in no other.
  ghost predicate ReferenceWhereExact(l: Gptq.Layer, sym: bool, w: seq<real>)
    requires l.WellShaped()
  {
    && |w| == 8 * |l.qweight|
    && forall r: nat, c: nat | r < 8 * l.height && c < l.width ::
         Entry(l, w, r, c) == Gptq.Reference(l, r, c) <==> Exact(l, sym, Gptq.GroupOf(l, r), c)
  }

  lemma DequantisedWhereExact(l: Gptq.Layer, sym: bool)
    requires l.WellShaped()
    ensures ReferenceWhereExact(l, sym, Weights(l, sym))
  {
    hide Gptq.Layer.WellShaped, Gptq.Dequantised, Gptq.DequantisedSym, Gptq.Reference;
    hide Gptq.Scale, Gptq.NoCarry, Gptq.ZeroNibble, Gptq.GroupOf, Gptq.Int;
    forall r: nat, c: nat | r < 8 * l.height && c < l.width
      ensures Entry(l, Weights(l, sym), r, c) == Gptq.Reference(l, r, c) <==> Exact(l, sym, Gptq.GroupOf(l, r), c)
    {
      Gptq.EntryInside(l, r, c);
      if sym { Gptq.DequantisedSymIsReference(l, r, c); } else { Gptq.DequantisedIsReference(l, r, c); }
    }
  }

  // An entry of what a patched module multiplies with is AutoGPTQ's value exactly when the
  // scale is zero, or no 15 overflows in the byte of its zero point; on the symmetric path,
  // or that point is 7.
  lemma PatchedIsReference(a: Attrs, l: Gptq.Layer, sym: bool, w: seq<real>)
    requires Holds(a, l)
    ensures MultipliesWith(PatchOne(a, sym).0, w) ==> ReferenceWhereExact(l, sym, w)
  {
    hide PatchOne, Gptq.Layer.WellShaped, Weights, ReferenceWhereExact;
    PatchedForward(a, l, sym);
    DequantisedWhereExact(l, sym);
  }

  // The numbers: the stored weight less its zero point, or less 8 on the symmetric path,
  // times the scale of its group of rows.
  ghost predicate ValuedAt(l: Gptq.Layer, sym: bool, w: seq<real>, r: nat, c: nat)
    requires l.WellShaped() && |w| == 8 * |l.qweight| && r < 8 * l.height && c < l.width
  {
    var q, g := Gptq.WeightNibble(l, r, c) as int, Gptq.GroupOf(l, r);
    if sym then Entry(l, w, r, c) == (q - 8) as real * Gptq.Scale(l, g, c)
    else Entry(l, w, r, c) == (q - Gptq.ZeroPoint(l, g, c)) as real * Gptq.Scale(l, g, c)
  }

  ghost predicate Valued(l: Gptq.Layer, sym: bool, w: seq<real>)
    requires l.WellShaped()
  {
    |w| == 8 * |l.qweight| && forall r: nat, c: nat | r < 8 * l.height && c < l.width :: ValuedAt(l, sym, w, r, c)
  }

  lemma EntryOfWeights(l: Gptq.Layer, sym: bool, r: nat, c: nat)
    requires l.WellShaped() && r < 8 * l.height && c < l.width
    ensures Entry(l, Weights(l, sym), r, c) == if sym then Gptq.WeightSym(l, r, c) else Gptq.Weight(l, r, c)
  {
    hide Gptq.Layer.WellShaped, Gptq.Dequantised, Gptq.DequantisedSym;
  }

  lemma DequantisedValued(l: Gptq.Layer, sym: bool, r: nat, c: nat)
    requires l.WellShaped() && r < 8 * l.height && c < l.width
    ensures ValuedAt(l, sym, Weights(l, sym), r, c)
  {
    hide Gptq.Layer.WellShaped, Weights, Entry, Gptq.Weight, Gptq.WeightSym;
    hide Gptq.Scale, Gptq.ZeroPoint, Gptq.GroupOf, Gptq.WeightNibble;
    EntryOfWeights(l, sym, r, c);
    if sym { Gptq.WeightSymValue(l, r, c); } else { Gptq.WeightValue(l, r, c); }
  }

  // The module of a layer has scales of shape [groups][width], and no marker; it can be
  // patched, and unpatching restores it.
  lemma HeldRestored(a: Attrs, l: Gptq.Layer, sym: bool)
    requires Holds(a, l) && a.scales.shape == [l.groups, l.width]
    requires a.origQweightType.None? && a.origQzerosType.None? && a.origScaleShape.None?
    requires a.keptQweight.None? && a.keptQzeros.None?
    ensures PatchOne(a, sym).1 == None && UnpatchOne(PatchOne(a, sym).0) == Residue(a)
  {
    hide PatchOne, UnpatchOne, Residue, Numel;
    HeldFits(a, l, sym);
    MatrixNumel(l.groups, l.width);
    assert Pristine(a);
    hide Holds, Pristine;
    UnpatchRestores(a, sym);
  }

  lemma MatrixNumel(rows: nat, cols: nat)
    ensures Numel([rows, cols]) == rows * cols
  {
    assert [rows, cols][1..] == [cols] && [cols][1..] == [];
    assert Numel([cols]) == cols * Numel([]);
  }

  // A patched module multiplies with these numbers, and where no 15 overflows the zero point
  // is the stored one plus one.
  lemma PatchedValues(a: Attrs, l: Gptq.Layer, sym: bool, w: seq<real>)
    requires Holds(a, l)
    ensures MultipliesWith(PatchOne(a, sym).0, w) ==> Valued(l, sym, w)
    ensures forall g: nat, c: nat | g < l.groups && c < l.width ::
      Gptq.ZeroPoint(l, g, c) == Gptq.ZeroNibble(l, g, c) as int + 1 <==> Gptq.NoCarry(l, g, c)
  {
    hide PatchOne, Gptq.Layer.WellShaped, Weights, ValuedAt, Gptq.ZeroPoint, Gptq.NoCarry, Gptq.ZeroNibble;
    PatchedForward(a, l, sym);
    forall r: nat, c: nat | r < 8 * l.height && c < l.width ensures ValuedAt(l, sym, Weights(l, sym), r, c) {
      DequantisedValued(l, sym, r, c);
    }
    forall g: nat, c: nat | g < l.groups && c < l.width
      ensures Gptq.ZeroPoint(l, g, c) == Gptq.ZeroNibble(l, g, c) as int + 1 <==> Gptq.NoCarry(l, g, c)
    {
      Gptq.CarryFree(l, g, c);
    }
  }

  // ----- A whole model -----

  // patch_model stops at the first module it cannot handle.
  function PatchAll(ms: seq<Attrs>, sym: bool): (r: (seq<Attrs>, Option<Error>))
    ensures |r.0| == |ms|
  {
    if ms == [] then ([], None)
    else
      var (first, error) := PatchOne(ms[0], sym);
      if error.Some? then ([first] + ms[1..], error)
      else
        var (rest, error) := PatchAll(ms[1..], sym);
        ([first] + rest, error)
  }

  function UnpatchAll(ms: seq<Attrs>): seq<Attrs> {
    seq(|ms|, i requires 0 <= i < |ms| => UnpatchOne(ms[i]))
  }

  lemma NothingToUnpatch(a: Attrs)
    requires Pristine(a)
    ensures UnpatchOne(a) == a && SameLayer(a, a)
  {
  }

  // patch_model gets to module i when it can patch all before it.
  predicate Reached(ms: seq<Attrs>, i: nat) {
    forall j | 0 <= j < i && j < |ms| :: !Blocked(ms[j])
  }

  // After patching, even when it stopped partway, unpatching restores every module, and
  // those it never got to are as they were.
  lemma UnpatchAllRestores(ms: seq<Attrs>, sym: bool)
    requires forall m | m in ms :: Pristine(m)
    ensures var back := UnpatchAll(PatchAll(ms, sym).0);
      forall i: nat | i < |ms| ::
        && back[i] == (if Reached(ms, i) then Residue(ms[i]) else ms[i])
        && SameLayer(ms[i], back[i]) && Pristine(back[i])
  {
    hide UnpatchOne, PatchAll, Pristine, SameLayer, Residue, Reached;
    forall i: nat | i < |ms|
      ensures var b := UnpatchOne(PatchAll(ms, sym).0[i]);
        b == (if Reached(ms, i) then Residue(ms[i]) else ms[i]) && SameLayer(ms[i], b) && Pristine(b)
    {
      RestoredAt(ms, sym, i);
    }
  }

  lemma {:induction false} RestoredAt(ms: seq<Attrs>, sym: bool, i: nat)
    requires (forall m | m in ms :: Pristine(m)) && i < |ms|
    ensures var b := UnpatchOne(PatchAll(ms, sym).0[i]);
      b == (if Reached(ms, i) then Residue(ms[i]) else ms[i]) && SameLayer(ms[i], b) && Pristine(b)
  {
    hide PatchOne, UnpatchOne, Pristine, SameLayer, Residue, Blocked, Reached;
    assert ms[0] in ms && ms[i] in ms;
    MarkerFree(ms[0]);
    BlockedExactly(ms[0], sym);
    ReachedLater(ms, i);
    if i == 0 {
      UnpatchRestores(ms[0], sym);
    } else {
      assert ms[1..][i - 1] == ms[i];
      NothingToUnpatch(ms[i]);
      if PatchOne(ms[0], sym).1.None? {
        RestoredAt(ms[1..], sym, i - 1);
      }
    }
  }

  lemma MarkerFree(a: Attrs)
    requires Pristine(a)
    ensures a.origForward.None?
  {
  }

  lemma ReachedLater(ms: seq<Attrs>, i: nat)
    requires i < |ms|
    ensures Reached(ms, i) <==> i == 0 || (!Blocked(ms[0]) && Reached(ms[1..], i - 1))
  {
    hide Blocked;
    forall j | 1 <= j < |ms| ensures ms[1..][j - 1] == ms[j] {}
    if Reached(ms, i) {
      forall j | 0 <= j < i - 1 ensures !Blocked(ms[1..][j]) { assert !Blocked(ms[j + 1]); }
    }
  }

  // Patching a module again changes nothing. It reports the same error again,
  // unless the first attempt got as far as setting the marker.
  lemma PatchOneTwice(a: Attrs, sym: bool)
    requires Pristine(a)
    ensures var (p, error) := PatchOne(a, sym);
            PatchOne(p, sym) == (p, if error == Some(ScalesNotDivisible) then None else error)
  {
  }

  // What a second run does, by the error of the first.
  lemma {:induction false} TwiceByError(ms: seq<Attrs>, sym: bool)
    requires forall m | m in ms :: Pristine(m)
    ensures var (once, error) := PatchAll(ms, sym);
            PatchAll(once, sym) ==
              if error != Some(ScalesNotDivisible) then (once, error)
              else
                var k := Stop(ms, sym);
                var (rest, error') := PatchAll(ms[k + 1..], sym); (once[..k + 1] + rest, error')
  {
    hide PatchOne, PatchAll, Pristine, Stop;
    if ms == [] {
      PatchNone(ms, sym);
    } else {
      var (p, failure) := PatchOne(ms[0], sym);
      PatchOneTwice(ms[0], sym);
      assert ms == [ms[0]] + ms[1..];
      PatchCons(ms[0], ms[1..], sym);
      if failure.Some? {
        PatchCons(p, ms[1..], sym);
        assert ([p] + ms[1..])[..1] == [p];
        FirstStops(ms, sym);
      } else {
        var (rest, error) := PatchAll(ms[1..], sym);
        PatchCons(p, rest, sym);
        TwiceByError(ms[1..], sym);
        if error == Some(ScalesNotDivisible) {
          var k := Stop(ms[1..], sym);
          LaterStops(ms, sym);
          assert ms[k + 2..] == ms[1..][k + 1..];
          TakeCons(p, rest, k + 1, PatchAll(ms[k + 2..], sym).0);
        }
      }
    }
  }

  lemma PatchNone(ms: seq<Attrs>, sym: bool)
    requires ms == []
    ensures PatchAll(ms, sym) == ([], None)
  {
  }

  lemma PatchCons(a: Attrs, ms: seq<Attrs>, sym: bool)
    ensures PatchAll([a] + ms, sym) ==
      var (p, failure) := PatchOne(a, sym);
      var (rest, error) := if failure.Some? then (ms, failure) else PatchAll(ms, sym);
      ([p] + rest, error)
  {
    hide PatchOne;
    assert ([a] + ms)[0] == a && ([a] + ms)[1..] == ms;
  }

  lemma TakeCons(a: Attrs, ms: seq<Attrs>, k: nat, tail: seq<Attrs>)
    requires k <= |ms|
    ensures ([a] + ms)[..k + 1] + tail == [a] + (ms[..k] + tail)
  {
  }

  lemma FirstStops(ms: seq<Attrs>, sym: bool)
    requires ms != [] && PatchOne(ms[0], sym).1.Some?
    ensures PatchAll(ms, sym).1.Some? && Stop(ms, sym) == 0
  {
    hide PatchOne;
  }

  lemma LaterStops(ms: seq<Attrs>, sym: bool)
    requires ms != [] && PatchOne(ms[0], sym).1.None? && PatchAll(ms[1..], sym).1.Some?
    ensures PatchAll(ms, sym).1.Some? && Stop(ms, sym) == 1 + Stop(ms[1..], sym)
  {
    hide PatchOne;
  }

  // The module at which patch_model raises.
  function Stop(ms: seq<Attrs>, sym: bool): (k: nat)
    requires PatchAll(ms, sym).1.Some?
    ensures k < |ms| && PatchOne(ms[k], sym) == (PatchAll(ms, sym).0[k], PatchAll(ms, sym).1)
  {
    if PatchOne(ms[0], sym).1.Some? then 0 else 1 + Stop(ms[1..], sym)
  }

  // After an error about the scales the second run differs: it stops at a later module,
  // which it changes, or not at all.
  lemma DiffersAfterError(ms: seq<Attrs>, sym: bool)
    requires forall m | m in ms :: Pristine(m)
    requires PatchAll(ms, sym).1 == Some(ScalesNotDivisible)
    ensures PatchAll(PatchAll(ms, sym).0, sym) != PatchAll(ms, sym)
  {
    hide PatchOne, PatchAll, Pristine;
    TwiceByError(ms, sym);
    var once, k := PatchAll(ms, sym).0, Stop(ms, sym);
    var later := ms[k + 1..];
    var (rest, error) := PatchAll(later, sym);
    UntouchedBehind(ms, sym);
    assert (once[..k + 1] + rest)[k + 1..] == rest;
    if error == Some(ScalesNotDivisible) {
      var j := Stop(later, sym);
      assert later[j] == ms[k + 1 + j] && later[j] in ms;
      MarkedWhenStopped(later[j], sym);
      assert rest[j] != later[j];
    }
  }

  lemma MarkedWhenStopped(a: Attrs, sym: bool)
    requires Pristine(a) && PatchOne(a, sym).1 == Some(ScalesNotDivisible)
    ensures PatchOne(a, sym).0 != a
  {
  }

  lemma {:induction false} UntouchedBehind(ms: seq<Attrs>, sym: bool)
    requires PatchAll(ms, sym).1.Some?
    ensures PatchAll(ms, sym).0[Stop(ms, sym) + 1..] == ms[Stop(ms, sym) + 1..]
  {
    hide PatchOne;
    if PatchOne(ms[0], sym).1.Some? {
      assert PatchAll(ms, sym).0[1..] == ms[1..];
    } else {
      UntouchedBehind(ms[1..], sym);
      var k := Stop(ms[1..], sym);
      var rest := PatchAll(ms[1..], sym).0;
      assert PatchAll(ms, sym).0[k + 2..] == rest[k + 1..];
      assert ms[k + 2..] == ms[1..][k + 1..];
    }
  }

  // The first module that cannot be patched, or the number of modules.
  function FirstBlocked(ms: seq<Attrs>): (k: nat)
    ensures k <= |ms| && Reached(ms, k) && (k < |ms| ==> Blocked(ms[k]))
  {
    if ms == [] || Blocked(ms[0]) then 0
    else
      assert forall j | 1 <= j < |ms| :: ms[1..][j - 1] == ms[j];
      1 + FirstBlocked(ms[1..])
  }

  predicate StopsAtScales(ms: seq<Attrs>) {
    FirstBlocked(ms) < |ms| && Indivisible(ms[FirstBlocked(ms)])
  }

  lemma {:induction false} StopIsFirstBlocked(ms: seq<Attrs>, sym: bool)
    requires forall m | m in ms :: Pristine(m)
    ensures PatchAll(ms, sym).1.Some? <==> FirstBlocked(ms) < |ms|
    ensures PatchAll(ms, sym).1.Some? ==> Stop(ms, sym) == FirstBlocked(ms)
    ensures PatchAll(ms, sym).1 == Some(ScalesNotDivisible) <==> StopsAtScales(ms)
  {
    hide PatchOne, Pristine, Blocked, Indivisible;
    if ms != [] {
      assert ms[0] in ms;
      MarkerFree(ms[0]);
      BlockedExactly(ms[0], sym);
      StopIsFirstBlocked(ms[1..], sym);
    }
  }

  // Patching twice equals patching once unless the first module that cannot be patched
  // fails for its scales only. Then the second run takes that module for patched and
  // goes on behind it.
  lemma PatchAllTwice(ms: seq<Attrs>, sym: bool)
    requires forall m | m in ms :: Pristine(m)
    ensures var (once, error) := PatchAll(ms, sym); var k := FirstBlocked(ms);
      PatchAll(once, sym) ==
        if !StopsAtScales(ms) then (once, error)
        else var (rest, error') := PatchAll(ms[k + 1..], sym); (once[..k + 1] + rest, error')
  {
    hide PatchAll, Pristine, FirstBlocked, Stop, StopsAtScales;
    StopIsFirstBlocked(ms, sym);
    TwiceByError(ms, sym);
  }

  // And in that case it always makes a difference.
  lemma SecondRunDiffers(ms: seq<Attrs>, sym: bool)
    requires forall m | m in ms :: Pristine(m)
    ensures PatchAll(PatchAll(ms, sym).0, sym) != PatchAll(ms, sym) <==> StopsAtScales(ms)
  {
    hide PatchAll, Pristine, FirstBlocked, Stop, StopsAtScales;
    StopIsFirstBlocked(ms, sym);
    PatchAllTwice(ms, sym);
    if StopsAtScales(ms) {
      DiffersAfterError(ms, sym);
    }
  }

  // Such a module exists: one scale for two columns.
  lemma IndivisibleExists(sym: bool) returns (a: Attrs)
    ensures Pristine(a) && Indivisible(a)
    ensures PatchAll(PatchAll([a], sym).0, sym) != PatchAll([a], sym)
  {
    a := Attrs(Some("triton"), 4, 8, None, Own(0), Words(Int32, [1, 2], seq(8, _ => 0)),
               Words(Int32, [1, 1], seq(4, _ => 0)), Floats(false, [1], [1.0]), None,
               None, None, None, None, None, None);
    assert Numel([1]) == 1 by { assert [1][1..] == []; }
    assert "triton" == SUPPORTED[0];
    assert FirstBlocked([a]) == 0;
    SecondRunDiffers([a], sym);
  }

  // ----- The modules as objects -----

  // A Python module object; `attrs` stands for its attribute dictionary.
  class GptqModule {
    var attrs: Attrs

    constructor (attrs: Attrs)
      ensures this.attrs == attrs
    {
      this.attrs := attrs;
    }

    // The body of patch_model's loop.
    method Patch(sym: bool) returns (error: Option<Error>)
      modifies this
      ensures (attrs, error) == PatchOne(old(attrs), sym)
    {
      if attrs.origForward.Some? { return None; }
      if attrs.isQuantized.Some? { attrs := attrs.(isQuantized := Some(false)); }
      attrs := attrs.(scales := attrs.scales.(single := true));
      if attrs.quantType.None? { return None; }
      if attrs.quantType.value !in SUPPORTED { return Some(UnsupportedQuantType); }
      if attrs.bits != 4 { return Some(UnsupportedBits); }
      if attrs.qzeros.shape == [] || |attrs.qweight.shape| < 2 { return Some(BadShape); }
      var groups := attrs.qzeros.shape[0];
      var width := attrs.qweight.shape[1];
      attrs := attrs.(width := Some(width));
      if groups == 0 { return Some(BadShape); }
      if attrs.groupSize != attrs.qweight.shape[0] * 8 / groups { return Some(WrongGroupSize); }
      attrs := attrs.(origForward := Some(attrs.forward));
      attrs := attrs.(forward := if sym then PatchedSym else Patched);
      attrs := attrs.(origQweightType := Some(attrs.qweight.dtype), origQzerosType := Some(attrs.qzeros.dtype));
      attrs := attrs.(origScaleShape := Some(attrs.scales.shape));
      attrs := attrs.(qweight := View(attrs.qweight, UInt8).value);
      attrs := attrs.(qzeros := View(attrs.qzeros, UInt8).value);
      attrs := attrs.(keptQweight := Some(attrs.qweight), keptQzeros := Some(Plus17(attrs.qzeros.memory)));
      var scales := ViewGroups(attrs.scales, width);
      if scales.None? { return Some(ScalesNotDivisible); }
      attrs := attrs.(scales := scales.value);
      return None;
    }

    // The body of unpatch_model's loop; a `return` in mid-way is a raised exception.
    method Unpatch()
      modifies this
      ensures attrs == UnpatchOne(old(attrs))
    {
      if attrs.origForward.None? { return; }
      attrs := attrs.(forward := attrs.origForward.value);
      attrs := attrs.(origForward := None);
      if attrs.origQweightType.None? { return; }
      var qweight := View(attrs.qweight, attrs.origQweightType.value);
      if qweight.None? { return; }
      attrs := attrs.(qweight := qweight.value, origQweightType := None);
      if attrs.origQzerosType.None? { return; }
      var qzeros := View(attrs.qzeros, attrs.origQzerosType.value);
      if qzeros.None? { return; }
      attrs := attrs.(qzeros := qzeros.value, origQzerosType := None);
      if attrs.origScaleShape.None? || Numel(attrs.origScaleShape.value) != |attrs.scales.entries| { return; }
      attrs := attrs.(scales := attrs.scales.(shape := attrs.origScaleShape.value), origScaleShape := None);
      if attrs.keptQweight.None? { return; }
      attrs := attrs.(keptQweight := None);
      attrs := attrs.(keptQzeros := None);
    }
  }

  function Snapshot(ms: seq<GptqModule>): seq<Attrs>
    reads ms
  {
    seq(|ms|, i requires 0 <= i < |ms| reads ms => ms[i].attrs)
  }

  method PatchModel(ms: seq<GptqModule>, sym: bool) returns (error: Option<Error>)
    requires forall i, j | 0 <= i < j < |ms| :: ms[i] != ms[j]
    modifies ms
    ensures (Snapshot(ms), error) == PatchAll(old(Snapshot(ms)), sym)
  {
    hide PatchOne, PatchAll;
    error := None;
    var i := 0;
    while i < |ms|
      invariant i <= |ms| && error == None
      invariant forall k | 0 <= k < i :: PatchOne(old(ms[k].attrs), sym) == (ms[k].attrs, None)
      invariant forall k | i <= k < |ms| :: ms[k].attrs == old(ms[k].attrs)
    {
      error := ms[i].Patch(sym);
      if error.Some? {
        break;
      }
      i := i + 1;
    }
    PatchedUntil(old(Snapshot(ms)), Snapshot(ms), i, error, sym);
  }

  // What patching does, module by module.
  lemma {:induction false} PatchedUntil(before: seq<Attrs>, after: seq<Attrs>, i: nat, error: Option<Error>, sym: bool)
    requires i <= |before| == |after|
    requires forall k | 0 <= k < i :: PatchOne(before[k], sym) == (after[k], None)
    requires if i == |before| then error == None else error.Some? && PatchOne(before[i], sym) == (after[i], error)
    requires forall k | i < k < |before| :: after[k] == before[k]
    ensures PatchAll(before, sym) == (after, error)
  {
    hide PatchOne;
    if before != [] {
      assert after == [after[0]] + after[1..];
      if i == 0 {
        assert after[1..] == before[1..];
      } else {
        PatchedUntil(before[1..], after[1..], i - 1, error, sym);
      }
    }
  }

  method UnpatchModel(ms: seq<GptqModule>)
    requires forall i, j | 0 <= i < j < |ms| :: ms[i] != ms[j]
    modifies ms
    ensures Snapshot(ms) == UnpatchAll(old(Snapshot(ms)))
  {
    var i := 0;
    while i < |ms|
      invariant i <= |ms|
      invariant forall k | 0 <= k < |ms| ::
        ms[k].attrs == if k < i then UnpatchOne(old(ms[k].attrs)) else old(ms[k].attrs)
    {
      ms[i].Unpatch();
      i := i + 1;
    }
  }
}
