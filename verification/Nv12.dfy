// Converting NV12 frames to RGB, src/compute/lo_engine.cc, after section 2.5 of
// ITU-R BT.601-7. Coefficients are exact thousandths.
module Nv12 {
  import opened Indexing

  type Byte = b: int | 0 <= b < 256

  // ----- One pixel -----

  // A conversion to int drops the fraction, of negative numbers too.
  function Truncate(thousandths: int): int {
    if thousandths >= 0 then thousandths / 1000 else -(-thousandths / 1000)
  }

  function Clamp(v: int): Byte {
    if v < 0 then 0 else if v > 255 then 255 else v
  }

  // Red, green and blue of a pixel, in thousandths.
  function Thousandths(luma: Byte, u: Byte, v: Byte, channel: nat): int
    requires channel < 3
  {
    var y: int := luma - 16;
    var cb: int := u - 128;
    var cr: int := v - 128;
    if channel == 0 then 1164 * y + 1596 * cr
    else if channel == 1 then 1164 * y - 813 * cr - 391 * cb
    else 1164 * y + 2018 * cb
  }

  function Channel(luma: Byte, u: Byte, v: Byte, channel: nat): Byte
    requires channel < 3
  {
    Clamp(Truncate(Thousandths(luma, u, v, channel)))
  }

  // The byte nearest from below to the formula's value, wherever that is a byte at all.
  lemma ChannelIsFloor(luma: Byte, u: Byte, v: Byte, channel: nat)
    requires channel < 3
    ensures var t, c := Thousandths(luma, u, v, channel), Channel(luma, u, v, channel);
      && (t < 1000 <==> c == 0)
      && (t >= 255000 <==> c == 255)
      && (0 <= t < 256000 ==> 1000 * c <= t < 1000 * c + 1000)
  {
  }

  // ----- The frame -----

  // Where the code finds a pixel's U; its V follows.
  function ChromaIndex(x: nat, y: nat, width: nat): nat {
    width * (y / 2) + (x - x % 2)
  }

  // The bytes read from the chroma plane.
  function ChromaSize(width: nat, height: nat): nat {
    if width == 0 || height == 0 then 0 else width * ((height + 1) / 2) + width % 2
  }

  lemma ChromaInside(x: nat, y: nat, width: nat, height: nat)
    requires x < width && y < height
    ensures ChromaIndex(x, y, width) + 1 < ChromaSize(width, height)
  {
    RowInside(y / 2, (height + 1) / 2, width, x - x % 2 + 1, width % 2);
  }

  lemma RowInside(row: nat, rows: nat, width: nat, k: nat, extra: nat)
    requires row < rows && k < width + extra
    ensures width * row + k < width * rows + extra
  {
    Scale(row + 1, rows, width);
    assert (row + 1) * width == width * row + width;
  }

  // The size is tight: the last pixel's pair ends the bytes read.
  lemma ChromaTight(width: nat, height: nat)
    requires width > 0 && height > 0
    ensures ChromaIndex(width - 1, height - 1, width) + 2 == ChromaSize(width, height)
  {
    var rows := (height + 1) / 2;
    assert (height - 1) / 2 == rows - 1;
    assert width * (rows - 1) == width * rows - width;
    LastEven(width);
  }

  lemma LastEven(width: nat)
    requires width > 0
    ensures width - 1 - (width - 1) % 2 + 2 == width + width % 2
  {
  }

  // The bytes of both planes that are read are within the 3 * w * h / 2 of a frame, and then
  // are all of them, exactly when width and height are even or there is no pixel.
  lemma FrameSize(width: nat, height: nat)
    ensures var read, frame := width * height + ChromaSize(width, height), 3 * (width * height) / 2;
      && (read <= frame <==> (width % 2 == 0 && height % 2 == 0) || width == 0 || height == 0)
      && (read <= frame <==> read == frame)
  {
    TwiceChroma(width, height);
    Halved(width * height, ChromaSize(width, height));
  }

  // Twice the bytes read of the chroma plane are those of the luma plane, or more.
  lemma TwiceChroma(width: nat, height: nat)
    ensures 2 * ChromaSize(width, height) >= width * height
    ensures 2 * ChromaSize(width, height) == width * height <==>
      (width % 2 == 0 && height % 2 == 0) || width == 0 || height == 0
  {
    if width != 0 && height != 0 {
      var rows := (height + 1) / 2;
      if height % 2 == 0 {
        assert width * (2 * rows) == 2 * (width * rows);
      } else {
        assert width * (2 * rows - 1) == 2 * (width * rows) - width;
      }
    }
  }

  lemma Halved(pixels: nat, chroma: nat)
    requires 2 * chroma >= pixels
    ensures pixels + chroma <= 3 * pixels / 2 <==> 2 * chroma == pixels
    ensures 2 * chroma == pixels ==> pixels + chroma == 3 * pixels / 2
  {
    var q := 3 * pixels / 2;
    assert 2 * q <= 3 * pixels < 2 * q + 2;
  }

  // For an even width the chroma plane is a [height / 2][width / 2] matrix of pairs and a
  // pixel's pair is that of its 2x2 block, which it shares with the block's other pixels only.
  lemma ChromaOfBlock(x: nat, y: nat, width: nat)
    requires width % 2 == 0
    ensures ChromaIndex(x, y, width) == 2 * (y / 2 * (width / 2) + x / 2)
  {
    var half := width / 2;
    assert width * (y / 2) == 2 * (y / 2 * half) by { assert width == 2 * half; }
  }

  lemma BlockSharesChroma(x: nat, y: nat, x': nat, y': nat, width: nat)
    requires width % 2 == 0 && x < width && x' < width
    ensures ChromaIndex(x, y, width) == ChromaIndex(x', y', width) <==> x / 2 == x' / 2 && y / 2 == y' / 2
  {
    var half := width / 2;
    ChromaOfBlock(x, y, width);
    ChromaOfBlock(x', y', width);
    DivMod(y / 2, half, x / 2);
    DivMod(y' / 2, half, x' / 2);
  }

  // Byte k of a frame; nothing is read outside of it.
  function At(nv12: seq<Byte>, k: nat): Byte {
    if k < |nv12| then nv12[k] else 0
  }

  // The byte of the output for a channel of pixel (x, y).
  function PixelByte(nv12: seq<Byte>, width: nat, height: nat, x: nat, y: nat, channel: nat): Byte
    requires channel < 3
  {
    var uv := width * height + ChromaIndex(x, y, width);
    Channel(At(nv12, y * width + x), At(nv12, uv), At(nv12, uv + 1), channel)
  }

  // Byte o of the output, which holds three bytes per pixel, row after row.
  function RgbByte(nv12: seq<Byte>, width: nat, height: nat, o: nat): Byte {
    if width == 0 then 0 else PixelByte(nv12, width, height, o / 3 % width, o / 3 / width, o % 3)
  }

  // A pixel's three samples lie in the frame, and no pixel of the frame is left out.
  lemma PixelInside(x: nat, y: nat, width: nat, height: nat)
    requires x < width && y < height
    ensures y * width + x < width * height
    ensures width * height + ChromaIndex(x, y, width) + 1 < width * height + ChromaSize(width, height)
  {
    hide ChromaIndex, ChromaSize;
    Inside(y, height, x, width);
    ChromaInside(x, y, width, height);
    assert width * height == height * width;
  }

  lemma RgbOfPixel(nv12: seq<Byte>, width: nat, height: nat, x: nat, y: nat, channel: nat)
    requires x < width && y < height && channel < 3
    ensures 3 * (y * width + x) + channel < 3 * (width * height)
    ensures RgbByte(nv12, width, height, 3 * (y * width + x) + channel) == PixelByte(nv12, width, height, x, y, channel)
  {
    hide PixelByte;
    PixelInside(x, y, width, height);
    DivMod(y, width, x);
    assert (3 * (y * width + x) + channel) / 3 == y * width + x;
  }

  // Conversely every output byte is a channel of a pixel of the frame.
  lemma PixelOfByte(nv12: seq<Byte>, width: nat, height: nat, o: nat)
    requires o < 3 * (width * height)
    ensures width > 0
    ensures var x, y, channel := o / 3 % width, o / 3 / width, o % 3;
      && x < width && y < height && o == 3 * (y * width + x) + channel
      && RgbByte(nv12, width, height, o) == PixelByte(nv12, width, height, x, y, channel)
  {
    hide PixelByte;
    assert width * height == height * width;
    Split(o / 3, height, width);
  }

  // The byte for a value in thousandths: rounded down, 0 below 1 and 255 from 255 on.
  predicate IsByteOf(c: Byte, t: int) {
    if t < 1000 then c == 0 else if t >= 255000 then c == 255 else 1000 * c <= t < 1000 * c + 1000
  }

  // Red, green and blue of pixel number k, in this order, from its luma and from its block's
  // U and V, in this order.
  lemma PixelByFormula(nv12: seq<Byte>, width: nat, height: nat, x: nat, y: nat, k: nat, uv: nat)
    requires x < width && y < height && |nv12| >= width * height + ChromaSize(width, height)
    requires k == y * width + x && uv == width * height + width * (y / 2) + (x - x % 2)
    ensures k < |nv12| && uv + 1 < |nv12|
    ensures IsByteOf(RgbByte(nv12, width, height, 3 * k),
                     1164 * (nv12[k] as int - 16) + 1596 * (nv12[uv + 1] as int - 128))
    ensures IsByteOf(RgbByte(nv12, width, height, 3 * k + 1),
                     1164 * (nv12[k] as int - 16) - 813 * (nv12[uv + 1] as int - 128) - 391 * (nv12[uv] as int - 128))
    ensures IsByteOf(RgbByte(nv12, width, height, 3 * k + 2),
                     1164 * (nv12[k] as int - 16) + 2018 * (nv12[uv] as int - 128))
  {
    hide ChromaSize, RgbByte, Channel;
    PixelInside(x, y, width, height);
    RgbOfPixel(nv12, width, height, x, y, 0);
    RgbOfPixel(nv12, width, height, x, y, 1);
    RgbOfPixel(nv12, width, height, x, y, 2);
    ChannelIsFloor(nv12[k], nv12[uv], nv12[uv + 1], 0);
    ChannelIsFloor(nv12[k], nv12[uv], nv12[uv + 1], 1);
    ChannelIsFloor(nv12[k], nv12[uv], nv12[uv + 1], 2);
  }

  method ManualNV12ToRGB(nv12: array<Byte>, rgb: array<Byte>, width: nat, height: nat)
    requires nv12 != rgb && rgb.Length >= 3 * (width * height)
    requires nv12.Length >= width * height + ChromaSize(width, height)
    modifies rgb
    ensures forall o | 0 <= o < rgb.Length ::
      rgb[o] == if o < 3 * (width * height) then RgbByte(nv12[..], width, height, o) else old(rgb[o])
  {
    hide Converted, ChromaIndex, ChromaSize, Truncate, Clamp, Channel, RgbByte;
    ghost var frame, before := nv12[..], rgb[..];
    NothingConverted(before, frame, width, height);
    var y := 0;
    while y < height
      invariant y <= height && nv12[..] == frame
      invariant Converted(rgb[..], before, frame, width, height, y * width)
    {
      var x := 0;
      while x < width
        invariant x <= width && nv12[..] == frame
        invariant Converted(rgb[..], before, frame, width, height, y * width + x)
      {
        PixelInside(x, y, width, height);
        var yIdx := y * width + x;
        var uvIdx := ChromaIndex(x, y, width);
        var luma := nv12[yIdx] as int - 16;
        var u := nv12[width * height + uvIdx] as int - 128;
        var v := nv12[width * height + uvIdx + 1] as int - 128;
        var r := Truncate(1164 * luma + 1596 * v);
        var g := Truncate(1164 * luma - 813 * v - 391 * u);
        var b := Truncate(1164 * luma + 2018 * u);
        FormulaOf(nv12[yIdx], nv12[width * height + uvIdx], nv12[width * height + uvIdx + 1]);
        ghost var was := rgb[..];
        rgb[yIdx * 3 + 0] := Clamp(r);
        rgb[yIdx * 3 + 1] := Clamp(g);
        rgb[yIdx * 3 + 2] := Clamp(b);
        ConvertPixel(was, rgb[..], before, frame, width, height, x, y);
        x := x + 1;
      }
      assert (y + 1) * width == y * width + width;
      y := y + 1;
    }
    assert height * width == width * height;
    AllConverted(rgb[..], before, frame, width, height);
  }

  lemma FormulaOf(luma: Byte, u: Byte, v: Byte)
    ensures Channel(luma, u, v, 0) == Clamp(Truncate(1164 * (luma - 16) + 1596 * (v - 128)))
    ensures Channel(luma, u, v, 1) == Clamp(Truncate(1164 * (luma - 16) - 813 * (v - 128) - 391 * (u - 128)))
    ensures Channel(luma, u, v, 2) == Clamp(Truncate(1164 * (luma - 16) + 2018 * (u - 128)))
  {
  }

  // The first n pixels are converted and the others untouched.
  ghost predicate Converted(rgb: seq<Byte>, before: seq<Byte>, nv12: seq<Byte>, width: nat, height: nat, n: nat)
  {
    && |rgb| == |before| && n <= width * height
    && forall o | 0 <= o < |rgb| :: rgb[o] == if o < 3 * n then RgbByte(nv12, width, height, o) else before[o]
  }

  lemma NothingConverted(before: seq<Byte>, nv12: seq<Byte>, width: nat, height: nat)
    ensures Converted(before, before, nv12, width, height, 0)
  {
    hide RgbByte;
  }

  lemma AllConverted(rgb: seq<Byte>, before: seq<Byte>, nv12: seq<Byte>, width: nat, height: nat)
    requires Converted(rgb, before, nv12, width, height, width * height)
    ensures |rgb| == |before|
    ensures forall o | 0 <= o < |rgb| ::
      rgb[o] == if o < 3 * (width * height) then RgbByte(nv12, width, height, o) else before[o]
  {
    hide RgbByte;
  }

  lemma ConvertPixel(was: seq<Byte>, rgb: seq<Byte>, before: seq<Byte>, nv12: seq<Byte>, width: nat, height: nat,
                     x: nat, y: nat)
    requires x < width && y < height
    requires Converted(was, before, nv12, width, height, y * width + x)
    requires |rgb| == |was| >= 3 * (width * height)
    requires forall o | 0 <= o < |rgb| :: rgb[o] == if 0 <= o - 3 * (y * width + x) < 3
      then PixelByte(nv12, width, height, x, y, o - 3 * (y * width + x)) else was[o]
    ensures Converted(rgb, before, nv12, width, height, y * width + x + 1)
  {
    hide RgbByte, PixelByte;
    var p := y * width + x;
    RgbOfPixel(nv12, width, height, x, y, 0);
    RgbOfPixel(nv12, width, height, x, y, 1);
    RgbOfPixel(nv12, width, height, x, y, 2);
    PixelInside(x, y, width, height);
  }
}
