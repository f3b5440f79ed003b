// Dequantisation of 4-bit GPTQ layers, openvino/python/openvino/frontend/pytorch/gptq.py.
// Tensors are row-major sequences next to their shapes; `contiguous().view(...)`
// therefore leaves the sequence alone and only the shape in the comment changes.
module Gptq {
  import opened Indexing

  // ----- Bits -----

  // Byte b of a 32-bit word in little-endian order.
  function Byte(x: bv32, b: nat): bv8
    requires b < 4
  {
    if b == 0 then (x & 0xFF) as bv8
    else if b == 1 then ((x >> 8) & 0xFF) as bv8
    else if b == 2 then ((x >> 16) & 0xFF) as bv8
    else ((x >> 24) & 0xFF) as bv8
  }

  // Nibble k of a 32-bit word, counted from the least significant bits.
  function Nibble(x: bv32, k: nat): bv8
    requires k < 8
  {
    if k == 0 then (x & 0xF) as bv8
    else if k == 1 then ((x >> 4) & 0xF) as bv8
    else if k == 2 then ((x >> 8) & 0xF) as bv8
    else if k == 3 then ((x >> 12) & 0xF) as bv8
    else if k == 4 then ((x >> 16) & 0xF) as bv8
    else if k == 5 then ((x >> 20) & 0xF) as bv8
    else if k == 6 then ((x >> 24) & 0xF) as bv8
    else ((x >> 28) & 0xF) as bv8
  }

  // One of the two values the decompression pattern makes of a byte.
  function Half(w: bv8, high: bool): bv8 {
    if high then w >> 4 else w & 15
  }

  lemma HalfIsNibble(x: bv32, k: nat)
    requires k < 8
    ensures Half(Byte(x, k / 2), k % 2 == 1) == Nibble(x, k)
  {
    if k == 0 {} else if k == 1 {} else if k == 2 {} else if k == 3 {}
    else if k == 4 {} else if k == 5 {} else if k == 6 {} else {}
  }

  // Adding 17 to a byte adds 1 to the low half unless it is 15, and 1 to the high
  // half unless either half is 15.
  lemma Plus17(w: bv8)
    ensures (Half(w + 17, false) as int == Half(w, false) as int + 1) <==> Half(w, false) != 15
    ensures (Half(w + 17, true) as int == Half(w, true) as int + 1) <==> Half(w, true) != 15 && Half(w, false) != 15
  {
    HalfStep(Half(w, false), Half(w + 17, false));
    HalfStep(Half(w, true), Half(w + 17, true));
  }

  lemma HalfStep(a: bv8, b: bv8)
    requires a <= 15
    ensures (b as int == a as int + 1) <==> b == a + 1
  {
  }

  // ----- Tensors -----

  // view(dtype=torch.uint8)
  function ViewBytes(q: seq<bv32>): seq<bv8> {
    seq(4 * |q|, i requires 0 <= i < 4 * |q| => Byte(q[i / 4], i % 4))
  }

  // stack((w & 15, w >> 4), dim=-1)
  function DecompressionPattern(w: seq<bv8>): seq<bv8> {
    seq(2 * |w|, i requires 0 <= i < 2 * |w| => Half(w[i / 2], i % 2 == 1))
  }

  // Where element i of a transposed [a][c][b] tensor comes from in the [a][b][c] one.
  function Source(i: nat, a: nat, b: nat, c: nat): (k: nat)
    requires i < a * c * b
    ensures k < a * b * c
  {
    Split(i, a * c, b);
    Split(i / b, a, c);
    Inside(i / b / c, a, i % b, b);
    Inside(i / b / c * b + i % b, a * b, i / b % c, c);
    (i / b / c * b + i % b) * c + i / b % c
  }

  // transpose(1, 2)
  function Transpose(x: seq<bv8>, a: nat, b: nat, c: nat): seq<bv8>
    requires |x| == a * b * c
  {
    seq(a * c * b, i requires 0 <= i < a * c * b => x[Source(i, a, b, c)])
  }

  // An AutoGPTQ layer: qweight is [height][width], qzeros [groups][zeroCols] and
  // scales [groups][width].
  datatype Layer = Layer(height: nat, width: nat, groups: nat, groupSize: nat, zeroCols: nat,
                         qweight: seq<bv32>, qzeros: seq<bv32>, scales: seq<real>)
  {
    ghost predicate WellShaped() {
      && groups * groupSize == 8 * height
      && width == 8 * zeroCols
      && |qweight| == height * width
      && |qzeros| == groups * zeroCols
      && |scales| == groups * width
    }
  }

  // [height][8][width], seen as [groups][groupSize][width] or [8 * height][width]
  function UnpackedWeights(l: Layer): (r: seq<bv8>)
    requires l.WellShaped()
    ensures |r| == 8 * |l.qweight|
  {
    Transpose(DecompressionPattern(ViewBytes(l.qweight)), l.height, l.width, 8)
  }

  // [groups][1][width]
  function UnpackedZeros(l: Layer): (r: seq<bv8>)
    requires l.WellShaped()
    ensures |r| == |l.scales|
  {
    var bytes := ViewBytes(l.qzeros);
    DecompressionPattern(seq(|bytes|, i requires 0 <= i < |bytes| => bytes[i] + 17))
  }

  lemma Sizes(l: Layer)
    requires l.WellShaped()
    ensures 8 * |l.qweight| == 8 * l.height * l.width == l.height * 8 * l.width == l.groups * l.groupSize * l.width
    ensures |l.scales| == l.groups * l.width
  {
    assert 8 * (l.height * l.width) == 8 * l.height * l.width;
  }

  // The cell of [groups][1][width] that broadcasting pairs with cell i of
  // [groups][size][width].
  function Broadcast(i: nat, size: nat, width: nat): nat {
    if width * size == 0 then 0 else i / (width * size) * width + i % width
  }

  lemma BroadcastInside(l: Layer, i: nat)
    requires l.WellShaped() && i < 8 * |l.qweight|
    ensures Broadcast(i, l.groupSize, l.width) < |l.scales|
  {
    hide Layer.WellShaped;
    Sizes(l);
    GroupCell(i, l.groups, l.groupSize, l.width);
  }

  function GroupIndex(l: Layer, i: nat): (k: nat)
    requires l.WellShaped() && i < 8 * |l.qweight|
    ensures k < |l.scales|
  {
    BroadcastInside(l, i);
    Broadcast(i, l.groupSize, l.width)
  }

  function Scaled(w: int, z: int, scale: real): real {
    (w - z) as real * scale
  }

  function Int(w: bv8): nat {
    w as int
  }

  // The weights patched_forward multiplies with.
  function Dequantised(l: Layer): (r: seq<real>)
    requires l.WellShaped()
    ensures |r| == 8 * |l.qweight|
  {
    var w, z := UnpackedWeights(l), UnpackedZeros(l);
    seq(|w|, i requires 0 <= i < |w| => Scaled(Int(w[i]), Int(z[GroupIndex(l, i)]), l.scales[GroupIndex(l, i)]))
  }

  // The weights patched_forward_sym multiplies with.
  function DequantisedSym(l: Layer): (r: seq<real>)
    requires l.WellShaped()
    ensures |r| == 8 * |l.qweight|
  {
    var w := UnpackedWeights(l);
    seq(|w|, i requires 0 <= i < |w| => Scaled(Int(w[i]), 8, l.scales[GroupIndex(l, i)]))
  }

  // ----- What the numbers mean -----

  // The word of qweight that holds weight (r, c): eight rows share a word.
  function WeightWord(l: Layer, r: nat, c: nat): (k: nat)
    requires l.WellShaped() && r < 8 * l.height && c < l.width
    ensures k < |l.qweight|
  {
    Inside(r / 8, l.height, c, l.width);
    r / 8 * l.width + c
  }

  function WeightNibble(l: Layer, r: nat, c: nat): bv8
    requires l.WellShaped() && r < 8 * l.height && c < l.width
  {
    Nibble(l.qweight[WeightWord(l, r, c)], r % 8)
  }

  // The word of qzeros that holds zero point (g, c): eight columns share a word.
  function ZeroWord(l: Layer, g: nat, c: nat): (k: nat)
    requires l.WellShaped() && g < l.groups && c < l.width
    ensures k < |l.qzeros|
  {
    Inside(g, l.groups, c / 8, l.zeroCols);
    g * l.zeroCols + c / 8
  }

  function ZeroNibble(l: Layer, g: nat, c: nat): bv8
    requires l.WellShaped() && g < l.groups && c < l.width
  {
    Nibble(l.qzeros[ZeroWord(l, g, c)], c % 8)
  }

  function Scale(l: Layer, g: nat, c: nat): real
    requires l.WellShaped() && g < l.groups && c < l.width
  {
    Inside(g, l.groups, c, l.width);
    l.scales[g * l.width + c]
  }

  function GroupOf(l: Layer, r: nat): (g: nat)
    requires l.WellShaped() && r < 8 * l.height
    ensures g < l.groups
  {
    Split(r, l.groups, l.groupSize);
    r / l.groupSize
  }

  // AutoGPTQ's own reading of the packed layer.
  function Reference(l: Layer, r: nat, c: nat): real
    requires l.WellShaped() && r < 8 * l.height && c < l.width
  {
    var g := GroupOf(l, r);
    Scaled(Int(WeightNibble(l, r, c)), Int(ZeroNibble(l, g, c)) + 1, Scale(l, g, c))
  }

  lemma Cancel(w: int, x: int, y: int, s: real)
    ensures Scaled(w, x, s) == Scaled(w, y, s) <==> s == 0.0 || x == y
  {
    assert (w - x) as real * s - (w - y) as real * s == (y - x) as real * s;
  }

  // Nibble m of word `word` sits in byte m / 2 of that word.
  lemma NibblePosition(word: nat, m: nat)
    requires m < 8
    ensures var k := 8 * word + m; k / 2 / 4 == word && k / 2 % 4 == m / 2 && k % 2 == m % 2
  {
  }

  lemma SourceAt(l: Layer, r: nat, c: nat)
    requires l.WellShaped() && r < 8 * l.height && c < l.width
    ensures r * l.width + c < 8 * |l.qweight| == l.height * 8 * l.width
    ensures Source(r * l.width + c, l.height, l.width, 8) == 8 * WeightWord(l, r, c) + r % 8
  {
    hide Layer.WellShaped;
    Sizes(l);
    Inside(r, 8 * l.height, c, l.width);
    DivMod(r, l.width, c);
  }

  lemma UnpackedWeight(l: Layer, i: nat, k: nat)
    requires l.WellShaped() && i < 8 * |l.qweight| == l.height * 8 * l.width
    requires k == Source(i, l.height, l.width, 8) && k < 8 * |l.qweight|
    ensures UnpackedWeights(l)[i] == Half(Byte(l.qweight[k / 2 / 4], k / 2 % 4), k % 2 == 1)
  {
    hide Layer.WellShaped, Byte, Half, Source;
  }

  // Entry (r, c) of the unpacked weights is the right nibble.
  lemma WeightAt(l: Layer, r: nat, c: nat)
    requires l.WellShaped() && r < 8 * l.height && c < l.width
    ensures r * l.width + c < 8 * |l.qweight|
    ensures UnpackedWeights(l)[r * l.width + c] == WeightNibble(l, r, c)
  {
    hide Byte, Half, Nibble, Source, UnpackedWeights, Layer.WellShaped, WeightWord;
    SourceAt(l, r, c);
    var word := WeightWord(l, r, c);
    UnpackedWeight(l, r * l.width + c, 8 * word + r % 8);
    NibblePosition(word, r % 8);
    HalfIsNibble(l.qweight[word], r % 8);
  }

  lemma GroupIndexAt(l: Layer, r: nat, c: nat)
    requires l.WellShaped() && r < 8 * l.height && c < l.width
    ensures r * l.width + c < 8 * |l.qweight|
    ensures GroupIndex(l, r * l.width + c) == GroupOf(l, r) * l.width + c < |l.scales|
    ensures Scale(l, GroupOf(l, r), c) == l.scales[GroupIndex(l, r * l.width + c)]
  {
    hide Layer.WellShaped;
    Sizes(l);
    Inside(r, 8 * l.height, c, l.width);
    DivMod(r, l.width, c);
    GroupCell(r * l.width + c, l.groups, l.groupSize, l.width);
  }

  // Element (g, c) of the unpacked zeros.
  function ZeroEntry(l: Layer, g: nat, c: nat): bv8
    requires l.WellShaped() && g < l.groups && c < l.width
  {
    Inside(g, l.groups, c, l.width);
    UnpackedZeros(l)[g * l.width + c]
  }

  // It comes from one half of one byte of qzeros.
  lemma ZeroByte(l: Layer, g: nat, c: nat) returns (byte: bv8)
    requires l.WellShaped() && g < l.groups && c < l.width
    ensures ZeroEntry(l, g, c) == Half(byte + 17, c % 2 == 1)
    ensures Half(byte, c % 2 == 1) == ZeroNibble(l, g, c)
    ensures c % 2 == 1 ==> Half(byte, false) == ZeroNibble(l, g, c - 1)
  {
    hide Layer.WellShaped, Byte, Half, Nibble, UnpackedZeros, ViewBytes, DecompressionPattern, ZeroWord;
    var word := ZeroWord(l, g, c);
    ZeroIndices(l, g, c);
    byte := Byte(l.qzeros[word], c % 8 / 2);
    UnpackedZero(l, g * l.width + c);
    NibblePosition(word, c % 8);
    Parity(c);
    HalfIsNibble(l.qzeros[word], c % 8);
    if c % 2 == 1 {
      Neighbour(c);
      HalfIsNibble(l.qzeros[word], c % 8 - 1);
    }
  }

  lemma Parity(c: nat)
    ensures c % 8 % 2 == c % 2
  {
    var q, h := c / 8, c % 8 / 2;
    DivMod(4 * q + h, 2, c % 8 % 2);
  }

  // Columns 2 j and 2 j + 1 live in the same byte of the same word.
  lemma Neighbour(c: nat)
    requires c % 2 == 1
    ensures c % 8 >= 1 && (c - 1) / 8 == c / 8 && (c - 1) % 8 == c % 8 - 1
    ensures (c % 8 - 1) / 2 == c % 8 / 2 && (c % 8 - 1) % 2 == 0
  {
    Parity(c);
    Even(c % 8);
    DivMod(c / 8, 8, c % 8 - 1);
  }

  lemma Even(r: nat)
    requires r % 2 == 1
    ensures (r - 1) / 2 == r / 2 && (r - 1) % 2 == 0
  {
  }

  lemma UnpackedZero(l: Layer, k: nat)
    requires l.WellShaped() && k < |l.scales| == 8 * |l.qzeros|
    ensures UnpackedZeros(l)[k] == Half(Byte(l.qzeros[k / 2 / 4], k / 2 % 4) + 17, k % 2 == 1)
  {
    hide Layer.WellShaped, Byte, Half;
  }

  lemma ZeroIndices(l: Layer, g: nat, c: nat)
    requires l.WellShaped() && g < l.groups && c < l.width
    ensures g * l.width + c == 8 * ZeroWord(l, g, c) + c % 8 < |l.scales| == 8 * |l.qzeros|
    ensures c % 2 == 1 ==> ZeroWord(l, g, c - 1) == ZeroWord(l, g, c)
  {
    Inside(g, l.groups, c, l.width);
    assert g * (8 * l.zeroCols) == 8 * (g * l.zeroCols);
    assert l.groups * (8 * l.zeroCols) == 8 * (l.groups * l.zeroCols);
    if c % 2 == 1 { Neighbour(c); }
  }

  // Neither the stored zero point nor the one below it in its byte overflows.
  predicate NoCarry(l: Layer, g: nat, c: nat)
    requires l.WellShaped() && g < l.groups && c < l.width
  {
    ZeroNibble(l, g, c) != 15 && (c % 2 == 1 ==> ZeroNibble(l, g, c - 1) != 15)
  }

  // The unpacked zero point is the stored one plus one unless a 15 in the same byte
  // overflows.
  lemma ZeroAt(l: Layer, g: nat, c: nat)
    requires l.WellShaped() && g < l.groups && c < l.width
    ensures Int(ZeroEntry(l, g, c)) == Int(ZeroNibble(l, g, c)) + 1 <==> NoCarry(l, g, c)
  {
    hide Layer.WellShaped, ZeroEntry, ZeroNibble, Half;
    var byte := ZeroByte(l, g, c);
    Plus17(byte);
  }

  lemma EntryInside(l: Layer, r: nat, c: nat)
    requires l.WellShaped() && r < 8 * l.height && c < l.width
    ensures r * l.width + c < 8 * |l.qweight|
  {
    Sizes(l);
    Inside(r, 8 * l.height, c, l.width);
  }

  // Row r, column c of the weights patched_forward multiplies with.
  function Weight(l: Layer, r: nat, c: nat): real
    requires l.WellShaped() && r < 8 * l.height && c < l.width
  {
    EntryInside(l, r, c);
    Dequantised(l)[r * l.width + c]
  }

  function WeightSym(l: Layer, r: nat, c: nat): real
    requires l.WellShaped() && r < 8 * l.height && c < l.width
  {
    EntryInside(l, r, c);
    DequantisedSym(l)[r * l.width + c]
  }

  // Every entry of the dequantised weights is AutoGPTQ's value exactly when its
  // scale is zero or the zero points that share its byte up to it are not 15.
  lemma DequantisedIsReference(l: Layer, r: nat, c: nat)
    requires l.WellShaped() && r < 8 * l.height && c < l.width
    ensures Weight(l, r, c) == Reference(l, r, c) <==>
      Scale(l, GroupOf(l, r), c) == 0.0 || NoCarry(l, GroupOf(l, r), c)
  {
    hide Layer.WellShaped, UnpackedWeights, UnpackedZeros, GroupIndex, WeightNibble, ZeroNibble, Scale, GroupOf;
    hide Scaled, Int, NoCarry;
    WeightAt(l, r, c);
    GroupIndexAt(l, r, c);
    var g := GroupOf(l, r);
    ZeroAt(l, g, c);
    Cancel(Int(WeightNibble(l, r, c)), Int(ZeroEntry(l, g, c)), Int(ZeroNibble(l, g, c)) + 1, Scale(l, g, c));
  }

  // The symmetric path gives the same value exactly when the zero point is 7 or
  // the scale is zero.
  lemma DequantisedSymIsReference(l: Layer, r: nat, c: nat)
    requires l.WellShaped() && r < 8 * l.height && c < l.width
    ensures WeightSym(l, r, c) == Reference(l, r, c) <==>
      Scale(l, GroupOf(l, r), c) == 0.0 || Int(ZeroNibble(l, GroupOf(l, r), c)) == 7
  {
    hide Layer.WellShaped, UnpackedWeights, GroupIndex, WeightNibble, ZeroNibble, Scale, GroupOf, Scaled, Int;
    WeightAt(l, r, c);
    GroupIndexAt(l, r, c);
    var g := GroupOf(l, r);
    Cancel(Int(WeightNibble(l, r, c)), 8, Int(ZeroNibble(l, g, c)) + 1, Scale(l, g, c));
  }

  // ----- The numbers themselves -----

  lemma NibbleShift(x: bv32, k: nat)
    requires k < 8
    ensures Nibble(x, k) == ((x >> (4 * k)) & 0xF) as bv8 <= 15
  {
    if k == 0 {} else if k == 1 {} else if k == 2 {} else if k == 3 {}
    else if k == 4 {} else if k == 5 {} else if k == 6 {} else {}
  }

  // 1 where a 15 in the low half of the byte overflows into the zero point above it.
  function CarryIn(l: Layer, g: nat, c: nat): int
    requires l.WellShaped() && g < l.groups && c < l.width
  {
    if c % 2 == 1 && ZeroNibble(l, g, c - 1) == 15 then 1 else 0
  }

  // The zero point that a weight is relative to.
  function ZeroPoint(l: Layer, g: nat, c: nat): int
    requires l.WellShaped() && g < l.groups && c < l.width
  {
    (ZeroNibble(l, g, c) as int + 1 + CarryIn(l, g, c)) % 16
  }

  lemma HalfPlus17(w: bv8)
    ensures Half(w + 17, false) as int == (Half(w, false) as int + 1) % 16
    ensures Half(w + 17, true) as int == (Half(w, true) as int + 1 + (if Half(w, false) == 15 then 1 else 0)) % 16
  {
    var a, b := Half(w, false), Half(w, true);
    assert Half(w + 17, false) == if a == 15 then 0 else a + 1;
    assert Half(w + 17, true) == if a == 15 then (if b >= 14 then b - 14 else b + 2) else if b == 15 then 0 else b + 1;
    assert a <= 15 && b <= 15;
    Small(a);
    Small(b);
    SmallSum(b);
  }

  lemma Small(a: bv8)
    requires a <= 15
    ensures (if a == 15 then 0 as bv8 else a + 1) as int == (a as int + 1) % 16
  {
  }

  lemma SmallSum(b: bv8)
    requires b <= 15
    ensures (if b >= 14 then b - 14 else b + 2) as int == (b as int + 2) % 16
  {
  }

  // The zero point that is subtracted, carry or not.
  lemma ZeroValue(l: Layer, g: nat, c: nat)
    requires l.WellShaped() && g < l.groups && c < l.width
    ensures Int(ZeroEntry(l, g, c)) == ZeroPoint(l, g, c)
  {
    hide Layer.WellShaped, ZeroEntry, ZeroNibble, Half;
    var byte := ZeroByte(l, g, c);
    HalfPlus17(byte);
  }

  lemma ScaledValue(w: int, z: int, scale: real)
    ensures Scaled(w, z, scale) == (w - z) as real * scale
  {
  }

  lemma WeightFromEntries(l: Layer, r: nat, c: nat)
    requires l.WellShaped() && r < 8 * l.height && c < l.width
    ensures var g := GroupOf(l, r); var w := WeightNibble(l, r, c) as int;
      && Weight(l, r, c) == Scaled(w, Int(ZeroEntry(l, g, c)), Scale(l, g, c))
      && WeightSym(l, r, c) == Scaled(w, 8, Scale(l, g, c))
  {
    hide Layer.WellShaped, UnpackedWeights, UnpackedZeros, GroupIndex, WeightNibble, ZeroNibble, Scale, GroupOf, Scaled;
    WeightAt(l, r, c);
    GroupIndexAt(l, r, c);
  }

  // The carry leaves the zero point alone exactly when there is none and nothing wraps.
  lemma CarryFree(l: Layer, g: nat, c: nat)
    requires l.WellShaped() && g < l.groups && c < l.width
    ensures ZeroPoint(l, g, c) == ZeroNibble(l, g, c) as int + 1 <==> NoCarry(l, g, c)
  {
    hide Layer.WellShaped, ZeroEntry, ZeroNibble;
    ZeroValue(l, g, c);
    ZeroAt(l, g, c);
  }

  // Every entry of the weights is the stored number less the zero point plus one, taken in
  // four bits with the carry from its neighbour, times the scale of its group.
  lemma WeightValue(l: Layer, r: nat, c: nat)
    requires l.WellShaped() && r < 8 * l.height && c < l.width
    ensures var g := GroupOf(l, r);
      Weight(l, r, c) == (WeightNibble(l, r, c) as int - ZeroPoint(l, g, c)) as real * Scale(l, g, c)
  {
    hide Layer.WellShaped, WeightNibble, ZeroNibble, Scale, GroupOf, Weight, WeightSym, Scaled, ZeroEntry, ZeroPoint;
    hide Int;
    var g := GroupOf(l, r);
    WeightFromEntries(l, r, c);
    ZeroValue(l, g, c);
    ScaledValue(WeightNibble(l, r, c) as int, ZeroPoint(l, g, c), Scale(l, g, c));
  }

  lemma WeightSymValue(l: Layer, r: nat, c: nat)
    requires l.WellShaped() && r < 8 * l.height && c < l.width
    ensures WeightSym(l, r, c) == (WeightNibble(l, r, c) as int - 8) as real * Scale(l, GroupOf(l, r), c)
  {
    hide Layer.WellShaped, WeightNibble, ZeroNibble, Scale, GroupOf, Weight, WeightSym, Scaled, ZeroEntry;
    WeightFromEntries(l, r, c);
    ScaledValue(WeightNibble(l, r, c) as int, 8, Scale(l, GroupOf(l, r), c));
  }

  lemma GroupNumber(l: Layer, r: nat)
    requires l.WellShaped() && r < 8 * l.height
    ensures l.groupSize > 0 && GroupOf(l, r) == r / l.groupSize
  {
    Split(r, l.groups, l.groupSize);
  }
}
