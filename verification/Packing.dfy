// Packing 1-bit and 4-bit values into bytes and back,
// openvino/python/openvino/helpers/packing.py.
module Packing {
  import opened Wrappers

  // U4 stands for nf4 and f4e2m1 as well, which the code treats alike.
  datatype ElementType = U1 | U4 | I4

  function BitWidth(t: ElementType): nat {
    if t.U1? then 1 else 4
  }

  type Bit = b: nat | b < 2
  type Byte = b: nat | b < 256

  // ----- Bits and numbers -----

  // The lowest n bits of v in two's complement, highest first.
  function ValueBits(v: int, n: nat): (bits: seq<Bit>)
    ensures |bits| == n
    decreases n
  {
    if n == 0 then [] else ValueBits(v / 2, n - 1) + [v % 2]
  }

  // The number whose bits, highest first, are given.
  function FromBits(bits: seq<Bit>): nat {
    if bits == [] then 0 else 2 * FromBits(bits[..|bits| - 1]) + bits[|bits| - 1]
  }

  function Pow2(n: nat): (p: nat)
    ensures p > 0
  {
    if n == 0 then 1 else 2 * Pow2(n - 1)
  }

  lemma Multiple(d: int, n: nat)
    requires d != 0
    ensures d * n >= n || d * n + n <= 0
  {
    if d > 0 {
      assert (d - 1) * n >= 0;
    } else {
      assert (-d - 1) * n >= 0;
    }
  }

  lemma Modulo(v: int, q: int, n: nat, r: nat)
    requires r < n && v == q * n + r
    ensures v % n == r
  {
    var d := v / n - q;
    assert d * n == r - v % n;
    if d != 0 { Multiple(d, n); }
  }

  lemma Halve(v: int, p: nat)
    requires p > 0
    ensures 2 * (v / 2 % p) + v % 2 == v % (2 * p)
  {
    var q := v / 2 / p;
    assert v / 2 == q * p + v / 2 % p;
    assert q * (2 * p) == 2 * (q * p);
    Modulo(v, q, 2 * p, 2 * (v / 2 % p) + v % 2);
  }

  lemma {:induction false} FromValueBits(v: int, n: nat)
    ensures FromBits(ValueBits(v, n)) == v % Pow2(n)
    decreases n
  {
    if n > 0 {
      FromValueBits(v / 2, n - 1);
      assert ValueBits(v, n)[..n - 1] == ValueBits(v / 2, n - 1);
      Halve(v, Pow2(n - 1));
    }
  }

  lemma {:induction false} BitsFromBits(bits: seq<Bit>)
    ensures ValueBits(FromBits(bits), |bits|) == bits
  {
    if bits != [] {
      var m := |bits| - 1;
      BitsFromBits(bits[..m]);
      assert bits == bits[..m] + [bits[m]];
    }
  }

  lemma {:induction false} FromBitsBound(bits: seq<Bit>)
    ensures FromBits(bits) < Pow2(|bits|)
  {
    if bits != [] { FromBitsBound(bits[..|bits| - 1]); }
  }

  lemma {:induction false} Join(a: seq<Bit>, b: seq<Bit>)
    ensures FromBits(a + b) == FromBits(a) * Pow2(|b|) + FromBits(b)
  {
    if b == [] {
      assert a + b == a;
    } else {
      var m := |b| - 1;
      Join(a, b[..m]);
      assert (a + b)[..|a + b| - 1] == a + b[..m];
      assert (a + b)[|a + b| - 1] == b[m];
      assert Pow2(|b|) == 2 * Pow2(m);
      assert FromBits(a) * Pow2(|b|) == 2 * (FromBits(a) * Pow2(m));
    }
  }

  lemma Powers()
    ensures Pow2(0) == 1 && Pow2(1) == 2 && Pow2(4) == 16 && Pow2(8) == 256
  {
    assert Pow2(2) == 4;
    assert Pow2(6) == 64;
  }

  function Repeated(b: Bit, n: nat): (bits: seq<Bit>)
    ensures |bits| == n
  {
    seq(n, i => b)
  }

  lemma {:induction false} Leading(b: Bit, n: nat)
    ensures FromBits(Repeated(b, n)) == b * (Pow2(n) - 1)
  {
    if n > 0 {
      Leading(b, n - 1);
      assert Repeated(b, n)[..n - 1] == Repeated(b, n - 1);
      assert b * (Pow2(n) - 1) == 2 * (b * (Pow2(n - 1) - 1)) + b;
    }
  }

  // ----- The numpy calls -----

  // Every value's bits one after the other.
  function ToBits(values: seq<int>, n: nat): (bits: seq<Bit>)
    ensures |bits| == n * |values|
  {
    if values == [] then [] else ValueBits(values[0], n) + ToBits(values[1..], n)
  }

  // np.packbits: eight bits a byte, highest first, zeros filling up the last byte.
  function PackBits(bits: seq<Bit>): (bytes: seq<Byte>)
    ensures |bytes| == (|bits| + 7) / 8
  {
    if bits == [] then []
    else if |bits| < 8 then [PackOne(bits + Repeated(0, 8 - |bits|))]
    else [PackOne(bits[..8])] + PackBits(bits[8..])
  }

  function PackOne(bits: seq<Bit>): Byte
    requires |bits| == 8
  {
    FromBitsBound(bits);
    Powers();
    FromBits(bits)
  }

  // np.unpackbits
  function UnpackBits(bytes: seq<Byte>): (bits: seq<Bit>)
    ensures |bits| == 8 * |bytes|
  {
    ToBits(bytes, 8)
  }

  // reshape(-1, n), for count rows
  function Rows(bits: seq<Bit>, count: nat, n: nat): (rows: seq<seq<Bit>>)
    requires |bits| == count * n
    ensures |rows| == count
    ensures forall row | row in rows :: |row| == n
  {
    if count == 0 then [] else
      assert count * n == (count - 1) * n + n;
      [bits[..n]] + Rows(bits[n..], count - 1, n)
  }

  // np.resize: the elements over and over, or zeros when there are none
  function Resize(a: seq<int>, size: nat): (r: seq<int>)
    ensures |r| == size
  {
    seq(size, i requires 0 <= i < size => if a == [] then 0 else a[i % |a|])
  }

  // ----- pack_data -----

  // What casting to uint8 (int8 for i4) leaves alone.
  predicate Representable(v: int, t: ElementType) {
    if t.I4? then -128 <= v < 128 else 0 <= v < 256
  }

  datatype PackError = ConversionRounds

  // (-size) % (8 / bits)
  function Pad(size: nat, t: ElementType): nat {
    (-(size as int)) % (8 / BitWidth(t))
  }

  function Zeros(n: nat): (z: seq<int>)
    ensures |z| == n
  {
    seq(n, i => 0)
  }

  function PackData(input: seq<int>, t: ElementType): Result<seq<Byte>, PackError> {
    if exists i | 0 <= i < |input| :: !Representable(input[i], t) then Failure(ConversionRounds)
    else Success(PackBits(ToBits(input + Zeros(Pad(|input|, t)), BitWidth(t))))
  }

  // ----- unpack_data -----

  // The bits put in front of a value: its sign for i4.
  function Padding(row: seq<Bit>, t: ElementType): (bits: seq<Bit>)
    requires |row| == BitWidth(t)
    ensures |bits| == 8 - |row|
  {
    Repeated(if t.I4? then row[0] else 0, 8 - |row|)
  }

  // astype(np.int8) for i4
  function Cast(b: Byte, t: ElementType): int {
    if t.I4? && b >= 128 then b - 256 else b
  }

  function Decode(row: seq<Bit>, t: ElementType): int
    requires |row| == BitWidth(t)
  {
    Cast(PackOne(Padding(row, t) + row), t)
  }

  function DecodeAll(rows: seq<seq<Bit>>, t: ElementType): (values: seq<int>)
    requires forall row | row in rows :: |row| == BitWidth(t)
    ensures |values| == |rows|
  {
    seq(|rows|, i requires 0 <= i < |rows| => Decode(rows[i], t))
  }

  // Every value the bytes hold, the ones made of pad bits included. The code
  // takes the bits themselves for u1.
  function Values(bytes: seq<Byte>, t: ElementType): (values: seq<int>)
    ensures |values| == if t.U1? then 8 * |bytes| else 2 * |bytes|
  {
    if t.U1? then UnpackBits(bytes) else DecodeAll(Rows(UnpackBits(bytes), 2 * |bytes|, 4), t)
  }

  lemma Ones(row: seq<Bit>)
    requires |row| == 4
    ensures Padding(row, U4) == [0, 0, 0, 0]
    ensures Padding(row, I4) == if row[0] == 1 then [1, 1, 1, 1] else [0, 0, 0, 0]
  {
  }

  lemma ResizeRepeats(a: seq<int>, size: nat)
    ensures forall i | 0 <= i < size :: Resize(a, size)[i] == if a == [] then 0 else a[i % |a|]
  {
  }

  method UnpackData(bytes: seq<Byte>, t: ElementType, size: nat) returns (r: seq<int>)
    ensures r == Resize(Values(bytes, t), size)
    ensures bytes != [] ==> forall i | 0 <= i < size :: r[i] == Values(bytes, t)[i % |Values(bytes, t)|]
    ensures bytes == [] ==> forall i | 0 <= i < size :: r[i] == 0
  {
    ResizeRepeats(Values(bytes, t), size);
    hide UnpackBits, Rows, Repeated, PackOne, PackBits, Resize;
    var unpacked := UnpackBits(bytes);
    if t.U1? {
      return Resize(unpacked, size);
    }
    var rows := Rows(unpacked, 2 * |bytes|, 4);
    var padding := new seq<Bit>[|rows|];
    if t.I4? {
      for axis := 0 to |rows|
        invariant forall i | 0 <= i < axis :: padding[i] == Padding(rows[i], t)
      {
        Ones(rows[axis]);
        if rows[axis][0] == 1 {
          padding[axis] := [1, 1, 1, 1];
        } else {
          padding[axis] := [0, 0, 0, 0];
        }
      }
    } else {
      padding := new seq<Bit>[|rows|](i => [0, 0, 0, 0]);
      forall i | 0 <= i < |rows| ensures padding[i] == Padding(rows[i], t) { Ones(rows[i]); }
    }
    var packed: seq<int> :=
      seq(|rows|, i requires 0 <= i < |rows| && |padding[i] + rows[i]| == 8 reads padding =>
            PackOne(padding[i] + rows[i]));
    var values := seq(|rows|, i requires 0 <= i < |rows| && 0 <= packed[i] < 256 => Cast(packed[i], t));
    assert values == Values(bytes, t);
    return Resize(values, size);
  }

  // ----- Round trips -----

  // The value i4, u4 or u1 can hold instead of v: its low bits, with their sign for i4.
  function Truncated(v: int, t: ElementType): (r: int)
    ensures if t.I4? then -8 <= r < 8 else 0 <= r < Pow2(BitWidth(t))
  {
    Powers();
    if t.U1? then v % 2 else if t.I4? && v % 16 >= 8 then v % 16 - 16 else v % 16
  }

  lemma DecodeValue(v: int, t: ElementType)
    ensures Decode(ValueBits(v, BitWidth(t)), t) == Truncated(v, t)
  {
    var row := ValueBits(v, BitWidth(t));
    var pad := Padding(row, t);
    FromValueBits(v, |row|);
    Powers();
    Join(pad, row);
    Leading(pad[0], |pad|);
    if t.I4? { TopBit(row); }
  }

  // The first of four bits is set from 8 on.
  lemma TopBit(row: seq<Bit>)
    requires |row| == 4
    ensures row[0] == 1 <==> FromBits(row) >= 8
  {
    FromBitsBound(row[1..]);
    Join(row[..1], row[1..]);
    assert row == row[..1] + row[1..];
    assert FromBits(row[..1]) == row[0];
    assert Pow2(3) == 8;
  }

  lemma {:induction false} UnpackPacked(bits: seq<Bit>)
    requires |bits| % 8 == 0
    ensures UnpackBits(PackBits(bits)) == bits
  {
    if bits != [] {
      UnpackPacked(bits[8..]);
      BitsFromBits(bits[..8]);
      var bytes := PackBits(bits);
      assert bytes[1..] == PackBits(bits[8..]);
      assert bits == bits[..8] + bits[8..];
    }
  }

  lemma {:induction false} PackUnpacked(bytes: seq<Byte>)
    ensures PackBits(UnpackBits(bytes)) == bytes
  {
    hide ValueBits, PackOne;
    if bytes != [] {
      var bits := UnpackBits(bytes);
      PackUnpacked(bytes[1..]);
      ByteBack(bytes[0]);
      FirstValue(bytes, 8);
      assert bytes == [bytes[0]] + bytes[1..];
    }
  }

  lemma ByteBack(b: Byte)
    ensures PackOne(ValueBits(b, 8)) == b
  {
    FromValueBits(b, 8);
    Powers();
  }

  // The bits of the first value and those of the others.
  lemma FirstValue(values: seq<int>, n: nat)
    requires values != []
    ensures var bits := ToBits(values, n);
      n <= |bits| && bits[..n] == ValueBits(values[0], n) && bits[n..] == ToBits(values[1..], n)
  {
    hide ValueBits;
    var bits, rest := ToBits(values, n), ToBits(values[1..], n);
    assert bits == ValueBits(values[0], n) + rest;
  }

  // The first row and the others.
  lemma FirstRow(bits: seq<Bit>, count: nat, n: nat)
    requires |bits| == count * n && count > 0
    ensures n <= |bits| && |bits[n..]| == (count - 1) * n
    ensures Rows(bits, count, n) == [bits[..n]] + Rows(bits[n..], count - 1, n)
  {
    assert count * n == (count - 1) * n + n;
    assert (count - 1) * n >= 0;
  }

  lemma {:induction false} RowOf(values: seq<int>, n: nat, i: nat)
    requires i < |values|
    ensures |ToBits(values, n)| == |values| * n
    ensures Rows(ToBits(values, n), |values|, n)[i] == ValueBits(values[i], n)
  {
    hide Rows, ToBits, ValueBits;
    FirstValue(values, n);
    FirstRow(ToBits(values, n), |values|, n);
    if i > 0 {
      assert values[1..][i - 1] == values[i];
      RowOf(values[1..], n, i - 1);
    }
  }

  lemma {:induction false} BitsOfRows(bits: seq<Bit>, count: nat, values: seq<int>)
    requires |bits| == count * 4 && |values| == count
    requires forall i | 0 <= i < count :: ValueBits(values[i], 4) == Rows(bits, count, 4)[i]
    ensures ToBits(values, 4) == bits
  {
    if count > 0 {
      hide Rows, ToBits, ValueBits;
      FirstRow(bits, count, 4);
      FirstValue(values, 4);
      var rows, rest := Rows(bits, count, 4), Rows(bits[4..], count - 1, 4);
      forall i | 0 <= i < count - 1 ensures ValueBits(values[1..][i], 4) == rest[i] {
        assert values[1..][i] == values[i + 1] && rest[i] == rows[i + 1];
      }
      BitsOfRows(bits[4..], count - 1, values[1..]);
      Halves(ToBits(values, 4), bits, 4);
    }
  }

  lemma Halves(a: seq<Bit>, b: seq<Bit>, n: nat)
    requires n <= |a| && n <= |b| && a[..n] == b[..n] && a[n..] == b[n..]
    ensures a == b
  {
    assert a == a[..n] + a[n..] && b == b[..n] + b[n..];
  }

  // The packed values, padding included, come back truncated.
  lemma ValuesOfPacked(values: seq<int>, t: ElementType)
    requires |values| % (8 / BitWidth(t)) == 0
    ensures var r := Values(PackBits(ToBits(values, BitWidth(t))), t);
      |r| == |values| && forall i | 0 <= i < |r| :: r[i] == Truncated(values[i], t)
  {
    if t.U1? {
      BitsOfPacked(values);
    } else {
      NibblesOfPacked(values, t);
    }
  }

  lemma BitsOfPacked(values: seq<int>)
    requires |values| % 8 == 0
    ensures var r := Values(PackBits(ToBits(values, 1)), U1);
      |r| == |values| && forall i | 0 <= i < |r| :: r[i] == Truncated(values[i], U1)
  {
    hide PackBits, ToBits, UnpackBits, Truncated;
    UnpackPacked(ToBits(values, 1));
    forall i | 0 <= i < |values| ensures ToBits(values, 1)[i] == Truncated(values[i], U1) {
      SingleBit(values, i);
    }
  }

  lemma NibblesOfPacked(values: seq<int>, t: ElementType)
    requires !t.U1? && |values| % 2 == 0
    ensures var r := Values(PackBits(ToBits(values, 4)), t);
      |r| == |values| && forall i | 0 <= i < |r| :: r[i] == Truncated(values[i], t)
  {
    hide PackBits, ToBits, UnpackBits, Rows, Decode, Truncated;
    UnpackPacked(ToBits(values, 4));
    forall i | 0 <= i < |values|
      ensures Decode(Rows(ToBits(values, 4), |values|, 4)[i], t) == Truncated(values[i], t)
    {
      RowOf(values, 4, i);
      DecodeValue(values[i], t);
    }
  }

  lemma {:induction false} SingleBit(values: seq<int>, i: nat)
    requires i < |values|
    ensures ToBits(values, 1)[i] == Truncated(values[i], U1)
  {
    assert ValueBits(values[0], 1) == [values[0] % 2];
    if i > 0 {
      SingleBit(values[1..], i - 1);
    }
  }

  // The rounding check lets through what 8 bits can hold, not what the type can.
  lemma RefusedExactly(input: seq<int>, t: ElementType)
    ensures PackData(input, t).Failure? <==>
      exists v | v in input :: if t.I4? then v < -128 || 127 < v else v < 0 || 255 < v
  {
    if v :| v in input && !Representable(v, t) {
      var i :| 0 <= i < |input| && input[i] == v;
      assert !Representable(input[i], t);
    }
  }

  // unpack_data(pack_data(a, t), t, shape of a), for every length: each value comes
  // back as its low bits, so the input comes back exactly when its values fit.
  lemma RoundTrip(input: seq<int>, t: ElementType)
    requires forall i | 0 <= i < |input| :: Representable(input[i], t)
    ensures PackData(input, t).Success?
    ensures var p := PackData(input, t).value; var r := Resize(Values(p, t), |input|);
      && |p| == (|input| * BitWidth(t) + 7) / 8
      && (forall i | 0 <= i < |input| :: r[i] == Truncated(input[i], t))
      && (r == input <==> forall i | 0 <= i < |input| :: Truncated(input[i], t) == input[i])
  {
    hide Values, PackBits, ToBits, Truncated, Resize, Pad, BitWidth, Zeros;
    var padded := input + Zeros(Pad(|input|, t));
    PaddedSize(|input|, t);
    ValuesOfPacked(padded, t);
    Prefix(Values(PackBits(ToBits(padded, BitWidth(t))), t), |input|);
  }

  lemma Prefix(a: seq<int>, size: nat)
    requires size <= |a|
    ensures Resize(a, size) == a[..size]
  {
  }

  lemma PaddedSize(size: nat, t: ElementType)
    ensures var n := size + Pad(size, t);
      && n % (8 / BitWidth(t)) == 0
      && (BitWidth(t) * n + 7) / 8 == (size * BitWidth(t) + 7) / 8
  {
    if t.U1? {
      PadTo(size, 8);
      Bytes(size, size / 8, size % 8);
    } else {
      PadTo(size, 2);
      Bytes(4 * size, size / 2, 4 * (size % 2));
      Bytes(4 * (size + Pad(size, t)), size / 2 + size % 2, 0);
    }
  }

  // Padding up to a multiple of k.
  lemma PadTo(size: nat, k: nat)
    requires k > 0
    ensures var p, up := (-(size as int)) % k, if size % k == 0 then 0 else 1;
      && p == up * k - size % k
      && size + p == (size / k + up) * k && (size + p) % k == 0
  {
    var q, r := size / k, size % k;
    var up := if r == 0 then 0 else 1;
    assert size == q * k + r && (q + up) * k == q * k + up * k;
    assert (-q - up) * k == -((q + up) * k);
    Modulo(-(size as int), -q - up, k, up * k - r);
    Modulo((q + up) * k, q + up, k, 0);
  }

  lemma Bytes(bits: nat, q: nat, r: nat)
    requires bits == 8 * q + r && r < 8
    ensures (bits + 7) / 8 == if r == 0 then q else q + 1
  {
  }

  // The values a type can hold.
  predicate Fits(v: int, t: ElementType) {
    if t.I4? then -8 <= v < 8 else 0 <= v < Pow2(BitWidth(t))
  }

  lemma FitsExactly(v: int, t: ElementType)
    ensures Truncated(v, t) == v <==> Fits(v, t)
    ensures Fits(v, t) ==> Representable(v, t)
  {
    Powers();
  }

  // The other way around: packing all the values of some bytes gives the bytes.
  lemma RoundTripBytes(bytes: seq<Byte>, t: ElementType)
    ensures PackData(Values(bytes, t), t) == Success(bytes)
  {
    hide PackBits, ToBits, UnpackBits, Values, PackData, Representable;
    BitsOfValues(bytes, t);
    PackWhole(Values(bytes, t), t);
    PackUnpacked(bytes);
  }

  // Without padding.
  lemma PackWhole(values: seq<int>, t: ElementType)
    requires |values| % (8 / BitWidth(t)) == 0
    requires forall i | 0 <= i < |values| :: Representable(values[i], t)
    ensures PackData(values, t) == Success(PackBits(ToBits(values, BitWidth(t))))
  {
    hide PackBits, ToBits, Representable, Pad;
    NoPad(|values|, t);
    assert values + Zeros(0) == values;
  }

  lemma NoPad(size: nat, t: ElementType)
    requires size % (8 / BitWidth(t)) == 0
    ensures Pad(size, t) == 0
  {
    PadTo(size, 8 / BitWidth(t));
  }

  lemma BitsOfValues(bytes: seq<Byte>, t: ElementType)
    ensures ToBits(Values(bytes, t), BitWidth(t)) == UnpackBits(bytes)
    ensures forall i | 0 <= i < |Values(bytes, t)| :: Representable(Values(bytes, t)[i], t)
  {
    hide ToBits, UnpackBits, Rows, Decode, ValueBits;
    var bits := UnpackBits(bytes);
    if t.U1? {
      BitsOfSingles(bits);
    } else {
      var rows := Rows(bits, 2 * |bytes|, 4);
      var values := DecodeAll(rows, t);
      forall i | 0 <= i < |values| ensures Representable(values[i], t) && ValueBits(values[i], 4) == rows[i] {
        assert rows[i] in rows;
        EncodeRow(rows[i], t);
      }
      BitsOfRows(bits, 2 * |bytes|, values);
    }
  }

  lemma {:induction false} BitsOfSingles(bits: seq<Bit>)
    ensures ToBits(bits, 1) == bits
  {
    if bits != [] {
      BitsOfSingles(bits[1..]);
      assert ValueBits(bits[0], 1) == [bits[0]];
      assert bits == [bits[0]] + bits[1..];
    }
  }

  lemma EncodeRow(row: seq<Bit>, t: ElementType)
    requires |row| == 4 && !t.U1?
    ensures ValueBits(Decode(row, t), 4) == row
    ensures Fits(Decode(row, t), t) && Representable(Decode(row, t), t)
  {
    hide Decode, ValueBits, FromBits, Truncated;
    BitsFromBits(row);
    var v := FromBits(row);
    DecodeValue(v, t);
    TruncatedLow(v, t);
    LowFour(v, Truncated(v, t));
  }

  lemma TruncatedLow(v: int, t: ElementType)
    requires !t.U1?
    ensures v % 16 == Truncated(v, t) % 16
    ensures Fits(Truncated(v, t), t) && Representable(Truncated(v, t), t)
  {
    Powers();
  }

  // The low four bits do not see multiples of 16.
  lemma LowFour(v: int, w: int)
    requires v % 16 == w % 16
    ensures ValueBits(v, 4) == ValueBits(w, 4)
  {
    FromValueBits(v, 4);
    FromValueBits(w, 4);
    Powers();
    BitsFromBits(ValueBits(v, 4));
    BitsFromBits(ValueBits(w, 4));
  }

  // The general path, which the code leaves out for u1, gives the same.
  lemma ShortcutAgrees(bytes: seq<Byte>)
    ensures DecodeAll(Rows(UnpackBits(bytes), 8 * |bytes|, 1), U1) == Values(bytes, U1)
  {
    hide UnpackBits, Rows, DecodeAll, ToBits;
    DecodeSingles(UnpackBits(bytes));
  }

  lemma DecodeSingles(bits: seq<Bit>)
    ensures DecodeAll(Rows(bits, |bits|, 1), U1) == bits
  {
    hide Rows, Decode, ToBits;
    BitsOfSingles(bits);
    var rows := Rows(bits, |bits|, 1);
    forall i | 0 <= i < |bits| ensures DecodeAll(rows, U1)[i] == bits[i] {
      RowOf(bits, 1, i);
      DecodeValue(bits[i], U1);
    }
  }

  // Byte k holds value 2k in its high half and value 2k + 1, or a pad, in its low half.
  lemma {:induction false} NibbleLayout(input: seq<int>, t: ElementType, k: nat)
    requires !t.U1? && PackData(input, t).Success? && 2 * k < |input|
    ensures var p := PackData(input, t).value;
      k < |p| && p[k] == 16 * (input[2 * k] % 16) + (if 2 * k + 1 < |input| then input[2 * k + 1] % 16 else 0)
  {
    hide PackBits, ToBits;
    var padded := input + Zeros(Pad(|input|, t));
    PackedPair(padded, k);
  }

  lemma FirstPair(values: seq<int>)
    requires |values| >= 2
    ensures var bits := ToBits(values, 4);
      && |bits| >= 8 && bits[..8] == ValueBits(values[0], 4) + ValueBits(values[1], 4)
      && bits[8..] == ToBits(values[2..], 4)
  {
    hide ToBits, ValueBits;
    var rest := values[1..];
    assert rest[0] == values[1] && rest[1..] == values[2..];
    FirstValue(values, 4);
    FirstValue(rest, 4);
    Quarters(ToBits(values, 4));
  }

  lemma Quarters(bits: seq<Bit>)
    requires |bits| >= 8
    ensures bits[..8] == bits[..4] + bits[4..][..4] && bits[8..] == bits[4..][4..]
  {
  }

  lemma PairByte(high: int, low: int)
    ensures PackOne(ValueBits(high, 4) + ValueBits(low, 4)) == 16 * (high % 16) + low % 16
  {
    Join(ValueBits(high, 4), ValueBits(low, 4));
    FromValueBits(high, 4);
    FromValueBits(low, 4);
    Powers();
  }

  lemma FirstByte(bits: seq<Bit>)
    requires |bits| >= 8
    ensures PackBits(bits) == [PackOne(bits[..8])] + PackBits(bits[8..])
  {
  }

  lemma {:induction false} PackedPair(values: seq<int>, k: nat)
    requires 2 * k + 1 < |values|
    ensures k < |PackBits(ToBits(values, 4))|
    ensures PackBits(ToBits(values, 4))[k] == 16 * (values[2 * k] % 16) + values[2 * k + 1] % 16
  {
    hide ToBits, ValueBits, PackBits, PackOne;
    FirstPair(values);
    FirstByte(ToBits(values, 4));
    if k == 0 {
      PairByte(values[0], values[1]);
    } else {
      PackedPair(values[2..], k - 1);
    }
  }
}
