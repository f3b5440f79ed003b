// Filling input tensors from images, raw files and random draws,
// openvino/samples/cpp/benchmark_app/inputs_filling.cpp.
module InputsFilling {
  import opened Wrappers
  import opened Indexing

  // ----- Positions in a four-dimensional tensor -----

  datatype Digits = Digits(a: nat, b: nat, c: nat, d: nat)

  // The row-major index of an element when the three inner dimensions are given.
  function Index(x: Digits, nb: nat, nc: nat, nd: nat): nat {
    ((x.a * nb + x.b) * nc + x.c) * nd + x.d
  }

  function DigitsOf(o: nat, nb: nat, nc: nat, nd: nat): Digits
    requires nb > 0 && nc > 0 && nd > 0
  {
    Digits(o / nd / nc / nb, o / nd / nc % nb, o / nd % nc, o % nd)
  }

  ghost predicate Within(x: Digits, na: nat, nb: nat, nc: nat, nd: nat) {
    x.a < na && x.b < nb && x.c < nc && x.d < nd
  }

  // Every index below the size belongs to exactly one position, and the other way around.
  lemma IndexOfDigits(x: Digits, na: nat, nb: nat, nc: nat, nd: nat)
    requires Within(x, na, nb, nc, nd)
    ensures Index(x, nb, nc, nd) < na * nb * nc * nd
    ensures DigitsOf(Index(x, nb, nc, nd), nb, nc, nd) == x
  {
    var p := x.a * nb + x.b;
    var q := p * nc + x.c;
    Inside(x.a, na, x.b, nb);
    Inside(p, na * nb, x.c, nc);
    Inside(q, na * nb * nc, x.d, nd);
    DivMod(x.a, nb, x.b);
    DivMod(p, nc, x.c);
    DivMod(q, nd, x.d);
  }

  lemma DigitsOfIndex(o: nat, na: nat, nb: nat, nc: nat, nd: nat)
    requires o < na * nb * nc * nd
    ensures nb > 0 && nc > 0 && nd > 0
    ensures Within(DigitsOf(o, nb, nc, nd), na, nb, nc, nd)
    ensures Index(DigitsOf(o, nb, nc, nd), nb, nc, nd) == o
  {
    Split(o, na * nb * nc, nd);
    Split(o / nd, na * nb, nc);
    Split(o / nd / nc, na, nb);
  }

  // ----- Images -----

  datatype Dims = Dims(channels: nat, height: nat, width: nat)

  datatype Pixel = Pixel(b: nat, w: nat, h: nat, ch: nat)

  function Planar(layout: string): bool {
    layout == "NCHW" || layout == "CHW"
  }

  function Cells(batch: nat, n: Dims): nat {
    batch * n.channels * n.height * n.width
  }

  // Where the code writes a pixel and where it reads it from.
  function Source(p: Pixel, n: Dims): nat {
    p.h * n.width * n.channels + p.w * n.channels + p.ch
  }

  function Offset(p: Pixel, n: Dims, planar: bool): nat {
    p.b * n.channels * n.width * n.height +
    (if planar then p.ch * n.width * n.height + p.h * n.width + p.w else Source(p, n))
  }

  // The pixel whose value cell o of the tensor holds.
  function PixelAt(o: nat, n: Dims, planar: bool): Pixel {
    if n.channels == 0 || n.height == 0 || n.width == 0 then
      Pixel(0, 0, 0, 0)
    else if planar then
      var x := DigitsOf(o, n.channels, n.height, n.width);
      Pixel(x.a, x.d, x.c, x.b)
    else
      var x := DigitsOf(o, n.height, n.width, n.channels);
      Pixel(x.a, x.c, x.b, x.d)
  }

  ghost predicate InImages(p: Pixel, batch: nat, n: Dims) {
    p.b < batch && p.w < n.width && p.h < n.height && p.ch < n.channels
  }

  lemma Expand(a: nat, b: nat, c: nat, d: nat, nb: nat, nc: nat, nd: nat)
    ensures Index(Digits(a, b, c, d), nb, nc, nd) == a * nb * nc * nd + b * nc * nd + c * nd + d
  {
    assert (a * nb + b) * nc == a * nb * nc + b * nc;
    assert (a * nb * nc + b * nc + c) * nd == a * nb * nc * nd + b * nc * nd + c * nd;
  }

  lemma Swap(a: nat, x: nat, y: nat, z: nat)
    ensures a * x * y * z == a * x * z * y == a * z * y * x
  {
    assert a * x * y * z == a * x * (y * z);
    assert y * z == z * y;
    assert a * x * (z * y) == a * (z * y) * x;
  }

  lemma OffsetIsIndex(p: Pixel, n: Dims)
    ensures Offset(p, n, true) == Index(Digits(p.b, p.ch, p.h, p.w), n.channels, n.height, n.width)
    ensures Offset(p, n, false) == Index(Digits(p.b, p.h, p.w, p.ch), n.height, n.width, n.channels)
  {
    Expand(p.b, p.ch, p.h, p.w, n.channels, n.height, n.width);
    Expand(p.b, p.h, p.w, p.ch, n.height, n.width, n.channels);
    Swap(p.b, n.channels, n.width, n.height);
    assert p.ch * n.width * n.height == p.ch * n.height * n.width by { Swap(1, p.ch, n.width, n.height); }
  }

  // Each cell holds one pixel and each pixel has one cell.
  lemma CellOfPixel(p: Pixel, batch: nat, n: Dims, planar: bool)
    requires InImages(p, batch, n)
    ensures Offset(p, n, planar) < Cells(batch, n)
    ensures PixelAt(Offset(p, n, planar), n, planar) == p
  {
    hide Offset, Index, DigitsOf;
    OffsetIsIndex(p, n);
    if planar {
      IndexOfDigits(Digits(p.b, p.ch, p.h, p.w), batch, n.channels, n.height, n.width);
    } else {
      Swap(batch, n.channels, n.height, n.width);
      IndexOfDigits(Digits(p.b, p.h, p.w, p.ch), batch, n.height, n.width, n.channels);
      Swap(batch, n.height, n.width, n.channels);
    }
  }

  lemma PixelOfCell(o: nat, batch: nat, n: Dims, planar: bool)
    requires o < Cells(batch, n)
    ensures n.channels > 0 && n.height > 0 && n.width > 0
    ensures InImages(PixelAt(o, n, planar), batch, n)
    ensures Offset(PixelAt(o, n, planar), n, planar) == o
  {
    hide Offset, Index, DigitsOf;
    if planar {
      DigitsOfIndex(o, batch, n.channels, n.height, n.width);
    } else {
      Swap(batch, n.channels, n.height, n.width);
      Swap(batch, n.height, n.width, n.channels);
      DigitsOfIndex(o, batch, n.height, n.width, n.channels);
    }
    OffsetIsIndex(PixelAt(o, n, planar), n);
  }

  // The byte of a pixel, and 0 outside of the images, which are never read there.
  function Read(images: seq<seq<bv8>>, p: Pixel, n: Dims): bv8 {
    if p.b < |images| && Source(p, n) < |images[p.b]| then images[p.b][Source(p, n)] else 0
  }

  // The tensor the images make, as the loops leave it.
  function Reordered<T>(images: seq<seq<bv8>>, batch: nat, n: Dims, planar: bool, cast: bv8 -> T): (t: seq<T>)
    ensures |t| == Cells(batch, n)
    ensures forall o | 0 <= o < |t| :: t[o] == cast(Read(images, PixelAt(o, n, planar), n))
  {
    seq(Cells(batch, n), o requires 0 <= o => cast(Read(images, PixelAt(o, n, planar), n)))
  }

  ghost predicate WholeImages(images: seq<seq<bv8>>, n: Dims) {
    forall i | 0 <= i < |images| :: |images[i]| == n.height * n.width * n.channels
  }

  lemma SourceInside(p: Pixel, n: Dims)
    requires p.w < n.width && p.h < n.height && p.ch < n.channels
    ensures Source(p, n) < n.height * n.width * n.channels
  {
    Inside(p.h, n.height, p.w, n.width);
    Inside(p.h * n.width + p.w, n.height * n.width, p.ch, n.channels);
    assert (p.h * n.width + p.w) * n.channels == p.h * n.width * n.channels + p.w * n.channels;
  }

  lemma ReorderedPixel<T>(images: seq<seq<bv8>>, batch: nat, n: Dims, planar: bool, cast: bv8 -> T, p: Pixel)
    requires WholeImages(images, n) && InImages(p, batch, n) && p.b < |images|
    ensures Source(p, n) < |images[p.b]| && Offset(p, n, planar) < Cells(batch, n)
    ensures Reordered(images, batch, n, planar, cast)[Offset(p, n, planar)] == cast(images[p.b][Source(p, n)])
  {
    hide Offset, Source, PixelAt, Reordered;
    SourceInside(p, n);
    CellOfPixel(p, batch, n, planar);
  }

  // In row-major terms: element (b, ch, h, w) of an NCHW tensor, or element (b, h, w, ch)
  // of any other, is element (h, w, ch) of image b.
  lemma ReorderedElement<T>(images: seq<seq<bv8>>, batch: nat, n: Dims, planar: bool, cast: bv8 -> T, p: Pixel)
    requires WholeImages(images, n) && InImages(p, batch, n) && p.b < |images|
    ensures var to := if planar then Index(Digits(p.b, p.ch, p.h, p.w), n.channels, n.height, n.width)
                      else Index(Digits(p.b, p.h, p.w, p.ch), n.height, n.width, n.channels);
      var from := Index(Digits(0, p.h, p.w, p.ch), n.height, n.width, n.channels);
      && to < Cells(batch, n) && from < |images[p.b]|
      && Reordered(images, batch, n, planar, cast)[to] == cast(images[p.b][from])
  {
    hide Index, Offset, Source, Cells, Reordered;
    ReorderedPixel(images, batch, n, planar, cast, p);
    OffsetIsIndex(p, n);
    SourceIsIndex(p, n);
  }

  // The size of an axis, the position of a pixel on it, and the row-major index of the pixel
  // in a tensor whose axes have these names.
  function Extent(axis: char, batch: nat, n: Dims): nat {
    match axis case 'C' => n.channels case 'H' => n.height case 'W' => n.width case _ => batch
  }

  function Coordinate(axis: char, p: Pixel): nat {
    match axis case 'C' => p.ch case 'H' => p.h case 'W' => p.w case _ => p.b
  }

  function RowMajor(layout: string, p: Pixel, batch: nat, n: Dims): nat {
    if layout == "" then 0
    else
      var last := |layout| - 1;
      RowMajor(layout[..last], p, batch, n) * Extent(layout[last], batch, n) + Coordinate(layout[last], p)
  }

  lemma RowMajorOf(a: char, b: char, c: char, d: char, p: Pixel, batch: nat, n: Dims)
    ensures RowMajor([a, b, c], p, batch, n) ==
      (Coordinate(a, p) * Extent(b, batch, n) + Coordinate(b, p)) * Extent(c, batch, n) + Coordinate(c, p)
    ensures RowMajor([a, b, c, d], p, batch, n) ==
      RowMajor([a, b, c], p, batch, n) * Extent(d, batch, n) + Coordinate(d, p)
  {
    hide Coordinate, Extent;
    assert [a, b, c, d][..3] == [a, b, c] && [a, b, c][..2] == [a, b] && [a, b][..1] == [a] && [a][..0] == [];
    assert RowMajor([], p, batch, n) == 0;
    assert RowMajor([a], p, batch, n) == Coordinate(a, p);
  }

  // The layouts with a channel, a row and a column axis are filled as their letters say.
  lemma LayoutElement<T>(images: seq<seq<bv8>>, batch: nat, n: Dims, layout: string, cast: bv8 -> T, p: Pixel)
    requires layout == "NCHW" || layout == "NHWC" || (batch == 1 && (layout == "CHW" || layout == "HWC"))
    requires WholeImages(images, n) && InImages(p, batch, n) && p.b < |images|
    ensures var to, from := RowMajor(layout, p, batch, n), RowMajor("HWC", p, batch, n);
      && to < Cells(batch, n) && from < |images[p.b]|
      && Reordered(images, batch, n, Planar(layout), cast)[to] == cast(images[p.b][from])
  {
    hide Cells, Reordered, WholeImages, RowMajor, Index;
    ReorderedElement(images, batch, n, Planar(layout), cast, p);
    RowMajorByLetters(layout, p, batch, n);
    RowMajorByLetters("HWC", p.(b := 0), 1, n);
    assert RowMajor("HWC", p, batch, n) == RowMajor("HWC", p.(b := 0), 1, n) by { ImageIsNoAxis(p, batch, n); }
  }

  lemma ImageIsNoAxis(p: Pixel, batch: nat, n: Dims)
    ensures RowMajor("HWC", p, batch, n) == RowMajor("HWC", p.(b := 0), 1, n)
  {
    RowMajorOf('H', 'W', 'C', 'N', p, batch, n);
    RowMajorOf('H', 'W', 'C', 'N', p.(b := 0), 1, n);
  }

  lemma RowMajorByLetters(layout: string, p: Pixel, batch: nat, n: Dims)
    requires layout == "NCHW" || layout == "NHWC" || (p.b == 0 && (layout == "CHW" || layout == "HWC"))
    ensures RowMajor(layout, p, batch, n) ==
      if Planar(layout) then Index(Digits(p.b, p.ch, p.h, p.w), n.channels, n.height, n.width)
      else Index(Digits(p.b, p.h, p.w, p.ch), n.height, n.width, n.channels)
  {
    hide RowMajor;
    RowMajorOf('N', 'C', 'H', 'W', p, batch, n);
    RowMajorOf('N', 'H', 'W', 'C', p, batch, n);
    RowMajorOf('C', 'H', 'W', 'N', p, batch, n);
    RowMajorOf('H', 'W', 'C', 'N', p, batch, n);
  }

  lemma SourceIsIndex(p: Pixel, n: Dims)
    ensures Source(p, n) == Index(Digits(0, p.h, p.w, p.ch), n.height, n.width, n.channels)
  {
    hide Index;
    Expand(0, p.h, p.w, p.ch, n.height, n.width, n.channels);
  }

  // Without the reordering the images simply follow one another.
  lemma Unreordered<T>(images: seq<seq<bv8>>, batch: nat, n: Dims, cast: bv8 -> T, o: nat)
    requires WholeImages(images, n) && batch <= |images| && o < Cells(batch, n)
    ensures var size := n.height * n.width * n.channels;
      && size > 0 && o / size < batch && o % size < |images[o / size]|
      && Reordered(images, batch, n, false, cast)[o] == cast(images[o / size][o % size])
  {
    hide PixelAt, Reordered, Source;
    var p := PixelAt(o, n, false);
    PixelOfCell(o, batch, n, false);
    SourceInside(p, n);
    Unplanar(p, n);
    DivMod(p.b, n.height * n.width * n.channels, Source(p, n));
  }

  lemma Unplanar(p: Pixel, n: Dims)
    ensures Offset(p, n, false) == p.b * (n.height * n.width * n.channels) + Source(p, n)
  {
    Swap(p.b, n.channels, n.width, n.height);
    Swap(p.b, n.height, n.width, n.channels);
    assert p.b * n.height * n.width == p.b * (n.height * n.width);
    assert p.b * (n.height * n.width) * n.channels == p.b * (n.height * n.width * n.channels);
  }

  // ----- The loops over images -----

  // The order in which the loops come across pixels.
  predicate Before(p: Pixel, q: Pixel) {
    p.b < q.b || (p.b == q.b && (p.w < q.w || (p.w == q.w && (p.h < q.h || (p.h == q.h && p.ch < q.ch)))))
  }

  // The cells of the pixels before `cur` are filled and the others untouched.
  ghost predicate Progress<T>(data: seq<T>, before: seq<T>, final: seq<T>, n: Dims, planar: bool, cur: Pixel) {
    && |data| == |before| == |final|
    && forall o | 0 <= o < |data| :: data[o] == if Before(PixelAt(o, n, planar), cur) then final[o] else before[o]
  }

  lemma WriteCell<T>(data: seq<T>, before: seq<T>, final: seq<T>, batch: nat, n: Dims, planar: bool, cur: Pixel)
    requires |final| == Cells(batch, n) && InImages(cur, batch, n)
    requires Progress(data, before, final, n, planar, cur)
    ensures var o := Offset(cur, n, planar);
      && o < |data| && data[o] == before[o]
      && Progress(data[o := final[o]], before, final, n, planar, cur.(ch := cur.ch + 1))
  {
    hide Offset, PixelAt, Cells;
    CellOfPixel(cur, batch, n, planar);
    forall o | 0 <= o < |data|
      ensures Before(PixelAt(o, n, planar), cur.(ch := cur.ch + 1)) <==>
        Before(PixelAt(o, n, planar), cur) || o == Offset(cur, n, planar)
    {
      PixelOfCell(o, batch, n, planar);
    }
  }

  // Going on with the next row, column or image.
  lemma Carry<T>(data: seq<T>, before: seq<T>, final: seq<T>, batch: nat, n: Dims, planar: bool, cur: Pixel,
        next: Pixel)
    requires |final| == Cells(batch, n) && Progress(data, before, final, n, planar, cur)
    requires
      || (cur.ch >= n.channels && next == Pixel(cur.b, cur.w, cur.h + 1, 0))
      || (cur.h >= n.height && cur.ch == 0 && next == Pixel(cur.b, cur.w + 1, 0, 0))
      || (cur.w >= n.width && cur.h == cur.ch == 0 && next == Pixel(cur.b + 1, 0, 0, 0))
    ensures Progress(data, before, final, n, planar, next)
  {
    hide PixelAt, Cells;
    forall o | 0 <= o < |data|
      ensures Before(PixelAt(o, n, planar), cur) <==> Before(PixelAt(o, n, planar), next)
    {
      PixelOfCell(o, batch, n, planar);
    }
  }

  lemma AllFilled<T>(data: seq<T>, before: seq<T>, final: seq<T>, batch: nat, n: Dims, planar: bool)
    requires |final| == Cells(batch, n) && Progress(data, before, final, n, planar, Pixel(batch, 0, 0, 0))
    ensures data == final
  {
    hide PixelAt, Cells;
    forall o | 0 <= o < |data| ensures data[o] == final[o] {
      PixelOfCell(o, batch, n, planar);
    }
  }

  datatype FillError = OutOfRange | CannotOpen | WrongSize(size: nat, expected: nat) | UnsupportedType

  // Reading past the images that could be read throws.
  method FillFromImages<T>(data: array<T>, images: seq<seq<bv8>>, batch: nat, n: Dims, layout: string, cast: bv8 -> T)
    returns (r: Result<array<T>, FillError>)
    requires data.Length == Cells(batch, n) && WholeImages(images, n)
    modifies data
    ensures r == if |images| < batch && n.channels > 0 && n.height > 0 && n.width > 0
                 then Failure(OutOfRange) else Success(data)
    ensures r.Success? ==> data[..] == Reordered(images, batch, n, Planar(layout), cast)
  {
    hide Offset, Cells, PixelAt, Progress, WholeImages, Reordered;
    var planar := Planar(layout);
    ghost var before, final := data[..], Reordered(images, batch, n, planar, cast);
    Untouched(before, final, n, planar);
    var b := 0;
    while b < batch
      invariant b <= batch && (b > |images| ==> n.channels == 0 || n.height == 0 || n.width == 0)
      invariant Progress(data[..], before, final, n, planar, Pixel(b, 0, 0, 0))
    {
      var w := 0;
      while w < n.width
        invariant w <= n.width && (w > 0 && b >= |images| ==> n.channels == 0 || n.height == 0)
        invariant Progress(data[..], before, final, n, planar, Pixel(b, w, 0, 0))
      {
        var h := 0;
        while h < n.height
          invariant h <= n.height && (h > 0 && b >= |images| ==> n.channels == 0)
          invariant Progress(data[..], before, final, n, planar, Pixel(b, w, h, 0))
        {
          var ch := 0;
          while ch < n.channels
            invariant ch <= n.channels && (ch > 0 ==> b < |images|)
            invariant Progress(data[..], before, final, n, planar, Pixel(b, w, h, ch))
          {
            var p := Pixel(b, w, h, ch);
            if b >= |images| {
              return Failure(OutOfRange);
            }
            WriteCell(data[..], before, final, batch, n, planar, p);
            ReorderedPixel(images, batch, n, planar, cast, p);
            SourceInside(p, n);
            WholeImage(images, n, b);
            label W: data[Offset(p, n, planar)] := cast(images[b][Source(p, n)]);
            assert data[..] == old@W(data[..])[Offset(p, n, planar) := final[Offset(p, n, planar)]];
            ch := ch + 1;
          }
          Carry(data[..], before, final, batch, n, planar, Pixel(b, w, h, ch), Pixel(b, w, h + 1, 0));
          h := h + 1;
        }
        Carry(data[..], before, final, batch, n, planar, Pixel(b, w, h, 0), Pixel(b, w + 1, 0, 0));
        w := w + 1;
      }
      Carry(data[..], before, final, batch, n, planar, Pixel(b, w, 0, 0), Pixel(b + 1, 0, 0, 0));
      b := b + 1;
    }
    AllFilled(data[..], before, final, batch, n, planar);
    return Success(data);
  }

  lemma Untouched<T>(before: seq<T>, final: seq<T>, n: Dims, planar: bool)
    requires |before| == |final|
    ensures Progress(before, before, final, n, planar, Pixel(0, 0, 0, 0))
  {
  }

  lemma WholeImage(images: seq<seq<bv8>>, n: Dims, b: nat)
    requires WholeImages(images, n) && b < |images|
    ensures |images[b]| == n.height * n.width * n.channels
  {
  }

  // ----- Collecting the images -----

  // The images among the first k files, cyclically from `inputId` on. One that cannot be
  // read is left out, so that later ones move up.
  function Collected(files: seq<Option<seq<bv8>>>, inputId: nat, k: nat): (images: seq<seq<bv8>>)
    requires |files| > 0
    ensures |images| <= k
    ensures forall image | image in images :: Some(image) in files
  {
    if k == 0 then []
    else
      Collected(files, inputId, k - 1) +
      match files[(inputId + k - 1) % |files|] case Some(image) => [image] case None => []
  }

  // Nothing moves when every file can be read.
  lemma {:induction false} AllReadable(files: seq<Option<seq<bv8>>>, inputId: nat, k: nat)
    requires |files| > 0 && None !in files
    ensures |Collected(files, inputId, k)| == k
    ensures forall b | 0 <= b < k :: Some(Collected(files, inputId, k)[b]) == files[(inputId + b) % |files|]
  {
    if k > 0 {
      AllReadable(files, inputId, k - 1);
      assert files[(inputId + k - 1) % |files|] in files;
    }
  }

  // One image too few is enough to fail.
  lemma {:induction false} SomeUnreadable(files: seq<Option<seq<bv8>>>, inputId: nat, k: nat, b: nat)
    requires |files| > 0 && b < k && files[(inputId + b) % |files|] == None
    ensures |Collected(files, inputId, k)| < k
  {
    if b < k - 1 {
      SomeUnreadable(files, inputId, k - 1, b);
    }
  }

  method CreateFromImages<T(0)>(files: seq<Option<seq<bv8>>>, inputId: nat, batchSize: nat, hasBatch: bool,
                                n: Dims, layout: string, cast: bv8 -> T)
    returns (r: Result<array<T>, FillError>)
    requires |files| > 0
    requires forall f | f in files && f.Some? :: |f.value| == n.height * n.width * n.channels
    ensures var batch := if hasBatch then batchSize else 1;
      var images := Collected(files, inputId, batch);
      && (r.Failure? <==> |images| < batch && n.channels > 0 && n.height > 0 && n.width > 0)
      && (r.Success? ==> fresh(r.value) && r.value[..] == Reordered(images, batch, n, Planar(layout), cast))
  {
    hide Reordered;
    var batch := if hasBatch then batchSize else 1;
    var data := new T[Cells(batch, n)];
    var vreader := [];
    for b := 0 to batch
      invariant vreader == Collected(files, inputId, b)
    {
      var inputIndex := (inputId + b) % |files|;
      match files[inputIndex]
      case None =>
      case Some(image) => vreader := vreader + [image];
    }
    forall i | 0 <= i < |vreader| ensures |vreader[i]| == n.height * n.width * n.channels {
      assert Some(vreader[i]) in files;
    }
    r := FillFromImages(data, vreader, batch, n, layout, cast);
  }

  // ----- Raw files -----

  datatype File = Unopenable | Opened(extension: string, content: seq<bv8>)

  // Why a file is refused.
  function Refused(f: File, expected: nat): Option<FillError> {
    if f.Unopenable? then Some(CannotOpen)
    else if f.extension != "bin" then Some(UnsupportedType)
    else if |f.content| != expected then Some(WrongSize(|f.content|, expected))
    else None
  }

  // A file is used when it can be opened, is a .bin file and has the expected size; otherwise
  // the first of these that fails is reported.
  lemma RefusedExactly(f: File, expected: nat)
    ensures Refused(f, expected) == None <==> f.Opened? && f.extension == "bin" && |f.content| == expected
    ensures f.Unopenable? ==> Refused(f, expected) == Some(CannotOpen)
    ensures f.Opened? && f.extension != "bin" ==> Refused(f, expected) == Some(UnsupportedType)
    ensures f.Opened? && f.extension == "bin" && |f.content| != expected ==>
      Refused(f, expected) == Some(WrongSize(|f.content|, expected))
  {
  }

  function FileOf(files: seq<File>, inputId: nat, b: nat): File
    requires |files| > 0
  {
    files[(inputId + b) % |files|]
  }

  function InputByteSize(tensorSize: nat, batch: nat, bitwidth: nat): (size: nat)
    ensures batch == 0 ==> size == 0
  {
    if batch == 0 then 0 else tensorSize / batch * bitwidth / 8
  }

  method Copy(data: array<bv8>, at: nat, bytes: seq<bv8>)
    requires at + |bytes| <= data.Length
    modifies data
    ensures forall o | 0 <= o < data.Length ::
      data[o] == if at <= o < at + |bytes| then bytes[o - at] else old(data[o])
  {
    forall k | 0 <= k < |bytes| {
      data[at + k] := bytes[k];
    }
  }

  // Which file byte o of a [channels][batch] tensor of `width`-byte elements comes
  // from, and which of its elements.
  function Column(o: nat, batch: nat, width: nat): nat
    requires batch > 0 && width > 0
  {
    o / width % batch
  }

  function Row(o: nat, batch: nat, width: nat): nat
    requires batch > 0 && width > 0
  {
    o / width / batch
  }

  // Where element (i, b) lies.
  function ElementOffset(i: nat, b: nat, batch: nat, width: nat): nat {
    (i * batch + b) * width
  }

  lemma ElementAt(o: nat, i: nat, b: nat, batch: nat, width: nat)
    requires b < batch && width > 0
    ensures var at := ElementOffset(i, b, batch, width);
      && (Row(o, batch, width) == i && Column(o, batch, width) == b <==> at <= o < at + width)
      && (at <= o < at + width ==> o - at == o % width)
  {
    var at := ElementOffset(i, b, batch, width);
    if at <= o < at + width {
      ElementPosition(i, b, o - at, batch, width);
    }
  }

  lemma ElementPosition(i: nat, b: nat, k: nat, batch: nat, width: nat)
    requires b < batch && k < width
    ensures var o := ElementOffset(i, b, batch, width) + k;
      Row(o, batch, width) == i && Column(o, batch, width) == b && o % width == k
  {
    DivMod(i * batch + b, width, k);
    DivMod(i, batch, b);
  }

  lemma ElementFits(i: nat, b: nat, rows: nat, batch: nat, width: nat)
    requires i < rows && b < batch
    ensures ElementOffset(i, b, batch, width) + width <= rows * batch * width
  {
    Inside(i, rows, b, batch);
    Scale(i * batch + b + 1, rows * batch, width);
  }

  function ByteOf(f: File, k: nat): bv8 {
    if f.Opened? && k < |f.content| then f.content[k] else 0
  }

  // Byte o of a CN tensor: each file is a column of it.
  function CnByte(files: seq<File>, inputId: nat, o: nat, batch: nat, width: nat): bv8
    requires |files| > 0 && batch > 0 && width > 0
  {
    ByteOf(FileOf(files, inputId, Column(o, batch, width)), Row(o, batch, width) * width + o % width)
  }

  // Byte o of any other tensor: file after file.
  function WholeByte(files: seq<File>, inputId: nat, o: nat, size: nat): bv8
    requires |files| > 0 && size > 0
  {
    ByteOf(FileOf(files, inputId, o / size), o % size)
  }

  // How many elements are read of a file of m elements.
  function Rows(channels: nat, m: nat): nat {
    if channels < m then channels else m
  }

  // Byte k of element (i, b) of a CN tensor is byte k of element i of file b: the
  // tensor is the transpose of the files.
  lemma CnTransposes(files: seq<File>, inputId: nat, batch: nat, m: nat, width: nat, i: nat, b: nat, k: nat)
    requires |files| > 0 && i < m && b < batch && k < width
    requires Refused(files[(inputId + b) % |files|], m * width) == None
    ensures Row(ElementOffset(i, b, batch, width) + k, batch, width) == i && i * width + k < m * width
    ensures CnByte(files, inputId, ElementOffset(i, b, batch, width) + k, batch, width)
      == files[(inputId + b) % |files|].content[i * width + k]
  {
    hide Row, Column, ByteOf, ElementOffset;
    ElementPosition(i, b, k, batch, width);
    Inside(i, m, k, width);
    ByteInside(FileOf(files, inputId, b), m * width, i * width + k);
  }

  lemma ByteInside(f: File, size: nat, k: nat)
    requires Refused(f, size) == None && k < size
    ensures f.Opened? && k < |f.content| && ByteOf(f, k) == f.content[k]
  {
  }

  // Byte k of file b follows the files before it.
  lemma OthersFollow(files: seq<File>, inputId: nat, batch: nat, size: nat, b: nat, k: nat)
    requires |files| > 0 && b < batch && k < size
    requires Refused(files[(inputId + b) % |files|], size) == None
    ensures b * size + k < batch * size
    ensures WholeByte(files, inputId, b * size + k, size) == files[(inputId + b) % |files|].content[k]
  {
    assert FileOf(files, inputId, b) == files[(inputId + b) % |files|];
    hide FileOf;
    Inside(b, batch, k, size);
    DivMod(b, size, k);
  }

  // The files before b are in their columns, and the first i elements of file b.
  ghost predicate CnLoaded(data: seq<bv8>, before: seq<bv8>, files: seq<File>, inputId: nat, batch: nat, width: nat,
                           rows: nat, b: nat, i: nat)
    requires |files| > 0 && batch > 0 && width > 0
  {
    && |data| == |before|
    && forall o | 0 <= o < |data| :: data[o] ==
         if Row(o, batch, width) < rows &&
            (Column(o, batch, width) < b || (Column(o, batch, width) == b && Row(o, batch, width) < i))
         then CnByte(files, inputId, o, batch, width) else before[o]
  }

  // The files before b are in their places.
  ghost predicate WholeLoaded(data: seq<bv8>, before: seq<bv8>, files: seq<File>, inputId: nat, size: nat, b: nat)
    requires |files| > 0 && size > 0
  {
    && |data| == |before|
    && forall o | 0 <= o < |data| :: data[o] == if o / size < b then WholeByte(files, inputId, o, size) else before[o]
  }

  lemma LoadElement(data: seq<bv8>, before: seq<bv8>, data': seq<bv8>, files: seq<File>, inputId: nat, batch: nat,
                    m: nat, width: nat, rows: nat, b: nat, i: nat, at: nat, element: seq<bv8>)
    requires |files| > 0 && width > 0 && b < batch && i < rows <= m && at == ElementOffset(i, b, batch, width)
    requires Refused(FileOf(files, inputId, b), m * width) == None
    requires element == ElementOf(FileOf(files, inputId, b), i, m, width)
    requires CnLoaded(data, before, files, inputId, batch, width, rows, b, i)
    requires |data'| == |data|
    requires forall o | 0 <= o < |data| :: data'[o] == if at <= o < at + width then element[o - at] else data[o]
    ensures CnLoaded(data', before, files, inputId, batch, width, rows, b, i + 1)
  {
    hide FileOf, Row, Column, ByteOf, ElementOffset;
    forall o | 0 <= o < |data|
      ensures at <= o < at + width <==> Row(o, batch, width) == i && Column(o, batch, width) == b
      ensures at <= o < at + width ==> element[o - at] == CnByte(files, inputId, o, batch, width)
    {
      ElementAt(o, i, b, batch, width);
      if at <= o < at + width {
        ByteInside(FileOf(files, inputId, b), m * width, i * width + (o - at));
      }
    }
  }

  lemma LoadFile(data: seq<bv8>, before: seq<bv8>, data': seq<bv8>, files: seq<File>, inputId: nat, size: nat, b: nat)
    requires |files| > 0 && size > 0 && Refused(FileOf(files, inputId, b), size) == None
    requires WholeLoaded(data, before, files, inputId, size, b)
    requires |data'| == |data|
    requires forall o | 0 <= o < |data| ::
      data'[o] == if b * size <= o < b * size + size then FileOf(files, inputId, b).content[o - b * size] else data[o]
    ensures WholeLoaded(data', before, files, inputId, size, b + 1)
  {
    hide FileOf, ByteOf;
    forall o | 0 <= o < |data|
      ensures b * size <= o < b * size + size <==> o / size == b
      ensures o / size == b ==> o - b * size == o % size
    {
      if b * size <= o < b * size + size { DivMod(b, size, o - b * size); }
    }
    forall o | 0 <= o < |data| && o / size == b ensures data'[o] == WholeByte(files, inputId, o, size) {
      ByteInside(FileOf(files, inputId, b), size, o % size);
    }
  }

  // Done with a file of a CN tensor.
  lemma NextFile(data: seq<bv8>, before: seq<bv8>, files: seq<File>, inputId: nat, batch: nat, width: nat, rows: nat,
                 b: nat, i: nat)
    requires |files| > 0 && batch > 0 && width > 0 && i >= rows
    requires CnLoaded(data, before, files, inputId, batch, width, rows, b, i)
    ensures CnLoaded(data, before, files, inputId, batch, width, rows, b + 1, 0)
  {
    hide CnByte, Row, Column;
  }

  lemma CnDone(data: seq<bv8>, before: seq<bv8>, files: seq<File>, inputId: nat, batch: nat, width: nat, rows: nat)
    requires |files| > 0 && batch > 0 && width > 0
    requires CnLoaded(data, before, files, inputId, batch, width, rows, batch, 0)
    ensures |data| == |before|
    ensures forall o | 0 <= o < |data| ::
      data[o] == if Row(o, batch, width) < rows then CnByte(files, inputId, o, batch, width) else before[o]
  {
    hide CnByte, Row;
  }

  // The elements of a file, read one after the other into a CN tensor; past the end of
  // the file nothing is read.
  method ReadColumn(data: array<bv8>, files: seq<File>, inputId: nat, batch: nat, channels: nat, m: nat, width: nat,
                    b: nat, ghost before: seq<bv8>)
    requires |files| > 0 && batch > 0 && width > 0 && b < batch
    requires Refused(FileOf(files, inputId, b), m * width) == None
    requires Rows(channels, m) * batch * width <= data.Length
    requires CnLoaded(data[..], before, files, inputId, batch, width, Rows(channels, m), b, 0)
    modifies data
    ensures CnLoaded(data[..], before, files, inputId, batch, width, Rows(channels, m), b + 1, 0)
  {
    hide CnLoaded, FileOf, ElementOffset;
    ghost var rows := Rows(channels, m);
    var i := 0;
    while i < channels
      invariant i <= channels
      invariant CnLoaded(data[..], before, files, inputId, batch, width, rows, b, if i < rows then i else rows)
    {
      if i < m {
        ElementFits(i, b, rows, batch, width);
        ghost var was := data[..];
        var element := ElementOf(FileOf(files, inputId, b), i, m, width);
        Copy(data, ElementOffset(i, b, batch, width), element);
        LoadElement(was, before, data[..], files, inputId, batch, m, width, rows, b, i,
                    ElementOffset(i, b, batch, width), element);
      }
      i := i + 1;
    }
    NextFile(data[..], before, files, inputId, batch, width, rows, b, rows);
  }

  // The bytes of element i of a file of m elements.
  function ElementOf(f: File, i: nat, m: nat, width: nat): (bytes: seq<bv8>)
    requires i < m && Refused(f, m * width) == None
    ensures |bytes| == width && i * width + width <= |f.content|
    ensures bytes == f.content[i * width..i * width + width]
  {
    Scale(i + 1, m, width);
    assert (i + 1) * width == i * width + width;
    f.content[i * width..i * width + width]
  }

  method ReadWhole(data: array<bv8>, files: seq<File>, inputId: nat, batch: nat, size: nat, b: nat,
                   ghost before: seq<bv8>)
    requires |files| > 0 && size > 0 && b < batch
    requires Refused(FileOf(files, inputId, b), size) == None
    requires batch * size <= data.Length
    requires WholeLoaded(data[..], before, files, inputId, size, b)
    modifies data
    ensures WholeLoaded(data[..], before, files, inputId, size, b + 1)
  {
    hide WholeLoaded, FileOf;
    Scale(b + 1, batch, size);
    ghost var was := data[..];
    Copy(data, b * size, FileOf(files, inputId, b).content);
    LoadFile(was, before, data[..], files, inputId, size, b);
  }

  // The first file that is refused, if any.
  ghost predicate FirstRefused(files: seq<File>, inputId: nat, batch: nat, size: nat, r: Option<FillError>)
    requires |files| > 0
  {
    && (r == None <==> forall b | 0 <= b < batch :: Refused(FileOf(files, inputId, b), size) == None)
    && (r.Some? ==> exists b ::
         && 0 <= b < batch && Refused(FileOf(files, inputId, b), size) == r
         && forall c | 0 <= c < b :: Refused(FileOf(files, inputId, c), size) == None)
  }

  // `width` is sizeof(T). A CN tensor is filled with the T's that a file holds; when its
  // elements are smaller, those are pairs of elements.
  method FillFromFiles(data: array<bv8>, files: seq<File>, inputId: nat, batch: nat, layout: string, channels: nat,
                       width: nat, tensorSize: nat, bitwidth: nat)
    returns (r: Option<FillError>)
    requires |files| > 0 && width > 0
    requires layout == "CN" ==> InputByteSize(tensorSize, batch, bitwidth) % width == 0
    requires batch * InputByteSize(tensorSize, batch, bitwidth) <= data.Length
    modifies data
    ensures FirstRefused(files, inputId, batch, InputByteSize(tensorSize, batch, bitwidth), r)
    ensures r == None && layout == "CN" && batch > 0 ==> forall o | 0 <= o < data.Length ::
      data[o] == if Row(o, batch, width) < Rows(channels, InputByteSize(tensorSize, batch, bitwidth) / width)
                 then CnByte(files, inputId, o, batch, width) else old(data[o])
    ensures var size := InputByteSize(tensorSize, batch, bitwidth);
      r == None && layout != "CN" && size > 0 ==> forall o | 0 <= o < data.Length ::
        data[o] == if o / size < batch then WholeByte(files, inputId, o, size) else old(data[o])
    ensures r == None && layout != "CN" && InputByteSize(tensorSize, batch, bitwidth) == 0 ==> data[..] == old(data[..])
  {
    hide CnLoaded, WholeLoaded, FileOf, Refused, InputByteSize, CnByte, WholeByte, Row, Column;
    var size := InputByteSize(tensorSize, batch, bitwidth);
    var m := size / width;
    ghost var before, rows := data[..], Rows(channels, m);
    NothingLoaded(before, files, inputId, batch, width, rows, size);
    if layout == "CN" {
      assert m * width == size;
      RowsFit(rows, m, batch, width);
    }
    var b := 0;
    while b < batch
      invariant b <= batch
      invariant forall c | 0 <= c < b :: Refused(FileOf(files, inputId, c), size) == None
      invariant layout == "CN" && batch > 0 ==> CnLoaded(data[..], before, files, inputId, batch, width, rows, b, 0)
      invariant layout != "CN" && size > 0 ==> WholeLoaded(data[..], before, files, inputId, size, b)
      invariant layout != "CN" && size == 0 ==> data[..] == before
    {
      var refused := Refused(FileOf(files, inputId, b), size);
      if refused.Some? {
        return refused;
      }
      if layout != "CN" {
        if size > 0 { ReadWhole(data, files, inputId, batch, size, b, before); }
      } else {
        ReadColumn(data, files, inputId, batch, channels, m, width, b, before);
      }
      b := b + 1;
    }
    if layout == "CN" && batch > 0 { CnDone(data[..], before, files, inputId, batch, width, rows); }
    if layout != "CN" && size > 0 { WholeDone(data[..], before, files, inputId, size, batch); }
    return None;
  }

  lemma NothingLoaded(before: seq<bv8>, files: seq<File>, inputId: nat, batch: nat, width: nat, rows: nat, size: nat)
    requires |files| > 0 && width > 0
    ensures batch > 0 ==> CnLoaded(before, before, files, inputId, batch, width, rows, 0, 0)
    ensures size > 0 ==> WholeLoaded(before, before, files, inputId, size, 0)
  {
    hide CnByte, WholeByte, Row, Column;
  }

  lemma WholeDone(data: seq<bv8>, before: seq<bv8>, files: seq<File>, inputId: nat, size: nat, batch: nat)
    requires |files| > 0 && size > 0 && WholeLoaded(data, before, files, inputId, size, batch)
    ensures |data| == |before|
    ensures forall o | 0 <= o < |data| ::
      data[o] == if o / size < batch then WholeByte(files, inputId, o, size) else before[o]
  {
  }

  // The types the loader is called for: T is as wide as the element type, or one byte.
  lemma SizeDivides(tensorSize: nat, batch: nat, width: nat, bitwidth: nat)
    requires width > 0 && (bitwidth == 8 * width || width == 1)
    ensures InputByteSize(tensorSize, batch, bitwidth) % width == 0
    ensures batch > 0 && bitwidth == 8 * width ==>
      InputByteSize(tensorSize, batch, bitwidth) / width == tensorSize / batch
  {
    if batch > 0 && bitwidth == 8 * width {
      Eighth(tensorSize / batch, width);
      DivMod(tensorSize / batch, width, 0);
    }
  }

  lemma Eighth(m: nat, width: nat)
    ensures m * (8 * width) / 8 == m * width
  {
    assert m * (8 * width) == 8 * (m * width);
  }

  lemma RowsFit(rows: nat, m: nat, batch: nat, width: nat)
    requires rows <= m
    ensures rows * batch * width <= batch * (m * width)
  {
    Scale(rows, m, batch);
    Scale(rows * batch, m * batch, width);
    Regroup(batch, m, 0, width, 0);
    assert m * batch == batch * m;
  }

  // ----- Random 4-bit tensors -----

  // Element i of a tensor of 4-bit elements: the low half of a byte first.
  function Nibble(data: seq<bv8>, i: nat): bv8
    requires i / 2 < |data|
  {
    Half(data[i / 2], i % 2 == 1)
  }

  function Half(byte: bv8, high: bool): bv8 {
    if high then byte >> 4 else byte & 0x0f
  }

  lemma Halves(old_: bv8, val: bv8)
    ensures ((old_ & 0x0f) | (val << 4)) >> 4 == val & 0x0f && ((old_ & 0x0f) | (val << 4)) & 0x0f == old_ & 0x0f
    ensures ((old_ & 0xf0) | (val & 0x0f)) & 0x0f == val & 0x0f && ((old_ & 0xf0) | (val & 0x0f)) >> 4 == old_ >> 4
  {
  }

  // `draws` are the numbers the generator gives, as bytes.
  method FillRandom4bit(data: array<bv8>, draws: seq<bv8>)
    requires (|draws| + 1) / 2 <= data.Length
    modifies data
    ensures forall i | 0 <= i < 2 * data.Length ::
      Nibble(data[..], i) == if i < |draws| then draws[i] & 0x0f else old(Nibble(data[..], i))
  {
    var i := 0;
    while i < |draws|
      invariant i <= |draws|
      invariant forall j | 0 <= j < 2 * data.Length ::
        Nibble(data[..], j) == if j < i then draws[j] & 0x0f else old(Nibble(data[..], j))
    {
      var val, dstIdx := draws[i], i / 2;
      Halves(data[dstIdx], val);
      label W:
      if i % 2 != 0 {
        data[dstIdx] := (data[dstIdx] & 0x0f) | (val << 4);
      } else {
        data[dstIdx] := (data[dstIdx] & 0xf0) | (val & 0x0f);
      }
      forall j | 0 <= j < 2 * data.Length
        ensures Nibble(data[..], j) == if j == i then val & 0x0f else old@W(Nibble(data[..], j))
      {
        if j / 2 == dstIdx { assert j == i || j % 2 != i % 2; }
      }
      i := i + 1;
    }
  }

  // ----- Raw files of 4-bit elements -----

  // For i4 and u4 the loader is called with a one-byte T, so it moves pairs of elements.

  function FileNibble(f: File, i: nat): bv8 {
    Half(ByteOf(f, i / 2), i % 2 == 1)
  }

  ghost predicate Accepted(files: seq<File>, inputId: nat, batch: nat, size: nat) {
    |files| > 0 && forall b | 0 <= b < batch :: Refused(FileOf(files, inputId, b), size) == None
  }

  // What is loaded of a CN tensor when each file has `size` bytes.
  function CnTensor(files: seq<File>, inputId: nat, batch: nat, size: nat): (data: seq<bv8>)
    requires |files| > 0 && batch > 0
    ensures |data| == size * batch
    ensures forall o | 0 <= o < |data| :: data[o] == ByteOf(FileOf(files, inputId, o % batch), o / batch)
  {
    seq(size * batch, o requires 0 <= o => ByteOf(FileOf(files, inputId, o % batch), o / batch))
  }

  function WholeTensor(files: seq<File>, inputId: nat, batch: nat, size: nat): (data: seq<bv8>)
    requires |files| > 0
    ensures |data| == batch * size
    ensures forall o | 0 <= o < |data| :: data[o] == if size == 0 then 0 else WholeByte(files, inputId, o, size)
  {
    seq(batch * size, o requires 0 <= o => if size == 0 then 0 else WholeByte(files, inputId, o, size))
  }

  // A file of 4-bit elements has half as many bytes, rounded down: with an odd count the
  // last element is not in the file.
  lemma FourBitSize(m: nat, batch: nat)
    requires batch > 0
    ensures InputByteSize(m * batch, batch, 4) == m / 2
  {
    DivMod(m, batch, 0);
  }

  // What FillFromFiles leaves in a 4-bit CN tensor: the pairs of elements, transposed,
  // and with an odd number of channels nothing in the last row.
  lemma FourBitCn(files: seq<File>, inputId: nat, o: nat, batch: nat, channels: nat)
    requires |files| > 0 && batch > 0
    ensures Row(o, batch, 1) < Rows(channels, channels / 2) <==> o < channels / 2 * batch
    ensures o < channels / 2 * batch ==>
      CnByte(files, inputId, o, batch, 1) == CnTensor(files, inputId, batch, channels / 2)[o]
  {
    hide FileOf, ByteOf;
    var rows := channels / 2;
    assert o / 1 == o && o % 1 == 0;
    if o < rows * batch {
      Split(o, rows, batch);
    } else if o / batch < rows {
      Inside(o / batch, rows, o % batch, batch);
    }
  }

  lemma FourBitWhole(files: seq<File>, inputId: nat, o: nat, batch: nat, size: nat)
    requires |files| > 0 && size > 0
    ensures o / size < batch <==> o < batch * size
    ensures o < batch * size ==> WholeByte(files, inputId, o, size) == WholeTensor(files, inputId, batch, size)[o]
  {
    hide FileOf, ByteOf;
    if o < batch * size {
      Split(o, batch, size);
    } else if o / size < batch {
      Inside(o / size, batch, o % size, size);
    }
  }

  // Loading a tensor of `batch` times `m` 4-bit elements.
  method LoadFourBit(data: array<bv8>, files: seq<File>, inputId: nat, batch: nat, layout: string, m: nat)
    returns (r: Option<FillError>)
    requires |files| > 0 && batch > 0 && data.Length == (batch * m + 1) / 2
    modifies data
    ensures FirstRefused(files, inputId, batch, m / 2, r)
    ensures r == None ==>
      var loaded := if layout == "CN" then CnTensor(files, inputId, batch, m / 2)
                    else WholeTensor(files, inputId, batch, m / 2);
      && |loaded| == batch * (m / 2) <= data.Length
      && data[..] == loaded + old(data[..])[batch * (m / 2)..]
  {
    hide FirstRefused, CnByte, WholeByte, Row, Rows, CnTensor, WholeTensor, InputByteSize;
    FourBitSize(m, batch);
    HalfFits(batch, m);
    ghost var before := data[..];
    r := FillFromFiles(data, files, inputId, batch, layout, m, 1, m * batch, 4);
    if r == None {
      if layout == "CN" {
        CnFilled(data[..], before, files, inputId, batch, m);
      } else {
        WholeFilled(data[..], before, files, inputId, batch, m / 2);
      }
    }
  }

  lemma CnFilled(data: seq<bv8>, before: seq<bv8>, files: seq<File>, inputId: nat, batch: nat, m: nat)
    requires |files| > 0 && batch > 0 && |data| == |before| >= batch * (m / 2)
    requires forall o | 0 <= o < |data| ::
      data[o] == if Row(o, batch, 1) < Rows(m, m / 2) then CnByte(files, inputId, o, batch, 1) else before[o]
    ensures |CnTensor(files, inputId, batch, m / 2)| == batch * (m / 2)
    ensures data == CnTensor(files, inputId, batch, m / 2) + before[batch * (m / 2)..]
  {
    hide CnByte, Row, Rows, CnTensor;
    assert m / 2 * batch == batch * (m / 2);
    forall o | 0 <= o < |data|
      ensures data[o] == if o < batch * (m / 2) then CnTensor(files, inputId, batch, m / 2)[o] else before[o]
    {
      FourBitCn(files, inputId, o, batch, m);
    }
    Prefixed(data, CnTensor(files, inputId, batch, m / 2), before);
  }

  lemma WholeFilled(data: seq<bv8>, before: seq<bv8>, files: seq<File>, inputId: nat, batch: nat, size: nat)
    requires |files| > 0 && |data| == |before| >= batch * size && (size == 0 ==> data == before)
    requires size > 0 ==> forall o | 0 <= o < |data| ::
      data[o] == if o / size < batch then WholeByte(files, inputId, o, size) else before[o]
    ensures data == WholeTensor(files, inputId, batch, size) + before[batch * size..]
  {
    hide WholeByte, WholeTensor;
    forall o | 0 <= o < |data|
      ensures data[o] == if o < batch * size then WholeTensor(files, inputId, batch, size)[o] else before[o]
    {
      if size > 0 { FourBitWhole(files, inputId, o, batch, size); }
    }
    Prefixed(data, WholeTensor(files, inputId, batch, size), before);
  }

  lemma Prefixed(data: seq<bv8>, loaded: seq<bv8>, before: seq<bv8>)
    requires |loaded| <= |data| == |before|
    requires forall o | 0 <= o < |data| :: data[o] == if o < |loaded| then loaded[o] else before[o]
    ensures data == loaded + before[|loaded|..]
  {
  }

  // Element (i, b) of the tensor is element i of file b, as far as the files go.
  ghost predicate CnPlaced(data: seq<bv8>, files: seq<File>, inputId: nat, batch: nat)
    requires |files| > 0 && batch > 0
  {
    forall p | 0 <= p < 2 * |data| :: Nibble(data, p) == FileNibble(FileOf(files, inputId, p % batch), p / batch)
  }

  // Where element p of a CN tensor really comes from: which file, and which element of it.
  function SourceFile(p: nat, batch: nat): nat
    requires batch > 0
  {
    p / 2 % batch
  }

  function SourceElement(p: nat, batch: nat): nat
    requires batch > 0
  {
    2 * (p / 2 / batch) + p % 2
  }

  lemma CnNibble(files: seq<File>, inputId: nat, batch: nat, size: nat, p: nat)
    requires |files| > 0 && batch > 0 && p / 2 < size * batch
    ensures Nibble(CnTensor(files, inputId, batch, size), p)
      == FileNibble(FileOf(files, inputId, SourceFile(p, batch)), SourceElement(p, batch))
  {
    hide FileOf, ByteOf, Half;
    Pair(p / 2 / batch, p % 2);
  }

  lemma Pair(q: nat, h: nat)
    requires h < 2
    ensures (2 * q + h) / 2 == q && (2 * q + h) % 2 == h
  {
  }

  // One file is loaded as it is.
  lemma OneFilePlaced(files: seq<File>, inputId: nat, size: nat)
    requires |files| > 0
    ensures CnPlaced(CnTensor(files, inputId, 1, size), files, inputId, 1)
  {
    hide FileOf, ByteOf, Half, FileNibble, Nibble;
    forall p | 0 <= p < 2 * (size * 1)
      ensures Nibble(CnTensor(files, inputId, 1, size), p) == FileNibble(FileOf(files, inputId, p % 1), p / 1)
    {
      assert p / 2 < size * 1;
      CnNibble(files, inputId, 1, size, p);
      assert p % 1 == 0 && p / 1 == p && p / 2 % 1 == 0 && p / 2 / 1 == p / 2;
    }
  }

  lemma NothingToPlace(files: seq<File>, inputId: nat, batch: nat)
    requires |files| > 0 && batch > 0
    ensures CnPlaced(CnTensor(files, inputId, batch, 0), files, inputId, batch)
  {
    hide CnTensor;
    assert |CnTensor(files, inputId, batch, 0)| == 0;
  }

  // Of several files the second element of the first takes the place of the first
  // element of the second.
  lemma TwoFilesMixed(files: seq<File>, inputId: nat, batch: nat, size: nat)
    requires |files| > 0 && batch >= 2 && size > 0
    requires FileNibble(FileOf(files, inputId, 0), 1) != FileNibble(FileOf(files, inputId, 1), 0)
    ensures !CnPlaced(CnTensor(files, inputId, batch, size), files, inputId, batch)
  {
    hide FileOf, ByteOf, Half, FileNibble, Nibble;
    Scale(1, size, batch);
    CnNibble(files, inputId, batch, size, 1);
    Small(0, batch);
    Small(1, batch);
  }

  lemma Small(k: nat, n: nat)
    requires k < n
    ensures k % n == k && k / n == 0
  {
    DivMod(0, n, k);
  }

  // Whatever the files hold, a 4-bit CN tensor is their transpose, if and only if there
  // is one of them or they are empty.
  lemma FourBitCnExactly(inputId: nat, batch: nat, size: nat)
    requires batch > 0
    ensures (forall files | |files| > 0 && Accepted(files, inputId, batch, size) ::
               CnPlaced(CnTensor(files, inputId, batch, size), files, inputId, batch)) <==> batch == 1 || size == 0
  {
    hide CnPlaced, CnTensor, FileNibble;
    if size == 0 {
      forall files | |files| > 0 && Accepted(files, inputId, batch, size)
        ensures CnPlaced(CnTensor(files, inputId, batch, size), files, inputId, batch)
      {
        NothingToPlace(files, inputId, batch);
      }
    } else if batch == 1 {
      forall files | |files| > 0 && Accepted(files, inputId, batch, size)
        ensures CnPlaced(CnTensor(files, inputId, batch, size), files, inputId, batch)
      {
        OneFilePlaced(files, inputId, size);
      }
    } else {
      var files := MarkedFiles(inputId, batch, size);
      TwoFilesMixed(files, inputId, batch, size);
    }
  }

  // A file of `size` bytes, zero but for its second element.
  function SecondSet(size: nat): File
    requires size > 0
  {
    Opened("bin", seq(size, k => if k == 0 then 0x10 else 0))
  }

  lemma SecondIsSet(size: nat)
    requires size > 0
    ensures Refused(SecondSet(size), size) == None
    ensures FileNibble(SecondSet(size), 0) == 0 && FileNibble(SecondSet(size), 1) == 1
  {
  }

  lemma MarkedFiles(inputId: nat, batch: nat, size: nat) returns (files: seq<File>)
    requires batch >= 2 && size > 0
    ensures Accepted(files, inputId, batch, size)
    ensures FileNibble(FileOf(files, inputId, 0), 1) != FileNibble(FileOf(files, inputId, 1), 0)
  {
    var first := inputId % 2;
    files := seq(2, k => if k == first then SecondSet(size) else Opened("bin", seq(size, _ => 0)));
    SecondIsSet(size);
    assert (inputId + 1) % 2 != first;
    assert FileOf(files, inputId, 0) == SecondSet(size);
    assert FileOf(files, inputId, 1) == Opened("bin", seq(size, _ => 0));
  }

  // Two files of two elements each.
  lemma FourBitMixed()
    ensures var files := [Opened("bin", [0x21]), Opened("bin", [0x43])];
      && Accepted(files, 0, 2, InputByteSize(4, 2, 4))
      && CnTensor(files, 0, 2, InputByteSize(4, 2, 4)) == [0x21, 0x43]
      && Nibble([0x21, 0x43], 1) == 2 && FileNibble(files[1], 0) == 3
      && !CnPlaced([0x21, 0x43], files, 0, 2)
  {
    hide CnPlaced, CnTensor;
    MixedTensor();
    var files := [Opened("bin", [0x21]), Opened("bin", [0x43])];
    assert FileOf(files, 0, 0) == files[0] && FileOf(files, 0, 1) == files[1];
    TwoFilesMixed(files, 0, 2, 1);
  }

  lemma MixedTensor()
    ensures CnTensor([Opened("bin", [0x21]), Opened("bin", [0x43])], 0, 2, 1) == [0x21, 0x43]
  {
  }

  // Element j of row b in rows of m elements.
  function Place(b: nat, m: nat, j: nat): nat {
    b * m + j
  }

  // In other layouts element j of file b, which has `m` elements of which it holds
  // 2 * (m / 2), should be element j of row b of the tensor.
  ghost predicate WholePlaced(data: seq<bv8>, files: seq<File>, inputId: nat, batch: nat, m: nat)
    requires |files| > 0
  {
    forall b: nat, j: nat | b < batch && j < 2 * (m / 2) ::
      Place(b, m, j) / 2 < |data| && Nibble(data, Place(b, m, j)) == FileNibble(FileOf(files, inputId, b), j)
  }

  // It is element j of row b in rows of the elements that the files hold.
  lemma WholeNibble(files: seq<File>, inputId: nat, batch: nat, size: nat, data: seq<bv8>, b: nat, j: nat)
    requires |files| > 0 && b < batch && j < 2 * size && WholeTensor(files, inputId, batch, size) <= data
    ensures Place(b, 2 * size, j) / 2 < |data|
    ensures Nibble(data, Place(b, 2 * size, j)) == FileNibble(FileOf(files, inputId, b), j)
  {
    hide FileOf, ByteOf, Half, WholeTensor;
    var o := b * size + j / 2;
    assert b * (2 * size) == 2 * (b * size);
    Pair(o, j % 2);
    assert Place(b, 2 * size, j) == 2 * o + j % 2;
    Inside(b, batch, j / 2, size);
    DivMod(b, size, j / 2);
    assert data[o] == WholeTensor(files, inputId, batch, size)[o];
  }

  // So the files are in place, whatever they and the rest of the tensor hold, if and only
  // if they have an even number of elements, or nothing is read, or there is one file.
  lemma FourBitWholeExactly(inputId: nat, batch: nat, m: nat)
    requires batch > 0
    ensures (forall files, data |
               && |files| > 0 && Accepted(files, inputId, batch, m / 2) && |data| == (batch * m + 1) / 2
               && WholeTensor(files, inputId, batch, m / 2) <= data ::
               WholePlaced(data, files, inputId, batch, m)) <==> m % 2 == 0 || m == 1 || batch == 1
  {
    hide WholePlaced, WholeTensor, FileNibble, Accepted;
    if m % 2 == 0 || m == 1 || batch == 1 {
      forall files, data |
        && |files| > 0 && Accepted(files, inputId, batch, m / 2) && |data| == (batch * m + 1) / 2
        && WholeTensor(files, inputId, batch, m / 2) <= data
        ensures WholePlaced(data, files, inputId, batch, m)
      {
        InPlace(files, inputId, batch, m, data);
      }
    } else {
      var files := [SecondSet(m / 2)];
      var data := OutOfPlace(files, inputId, batch, m);
    }
  }

  lemma InPlace(files: seq<File>, inputId: nat, batch: nat, m: nat, data: seq<bv8>)
    requires |files| > 0 && WholeTensor(files, inputId, batch, m / 2) <= data
    requires m % 2 == 0 || m == 1 || batch == 1
    ensures WholePlaced(data, files, inputId, batch, m)
  {
    hide WholeTensor, FileNibble, Nibble, FileOf, Place;
    forall b: nat, j: nat | b < batch && j < 2 * (m / 2)
      ensures Place(b, m, j) / 2 < |data| && Nibble(data, Place(b, m, j)) == FileNibble(FileOf(files, inputId, b), j)
    {
      SamePlace(b, batch, m, j);
      WholeNibble(files, inputId, batch, m / 2, data, b, j);
    }
  }

  lemma SamePlace(b: nat, batch: nat, m: nat, j: nat)
    requires b < batch && j < 2 * (m / 2) && (m % 2 == 0 || m == 1 || batch == 1)
    ensures Place(b, m, j) == Place(b, 2 * (m / 2), j)
  {
    if m % 2 == 0 {
      assert 2 * (m / 2) == m;
    }
  }

  lemma OutOfPlace(files: seq<File>, inputId: nat, batch: nat, m: nat) returns (data: seq<bv8>)
    requires m % 2 == 1 && m > 1 && batch > 1 && files == [SecondSet(m / 2)]
    ensures Accepted(files, inputId, batch, m / 2) && |data| == (batch * m + 1) / 2
    ensures WholeTensor(files, inputId, batch, m / 2) <= data
    ensures !WholePlaced(data, files, inputId, batch, m)
  {
    hide FileNibble, Nibble, WholeTensor, SecondSet;
    var size := m / 2;
    SecondIsSet(size);
    OnlyFile(files, inputId);
    HalfFits(batch, m);
    data := WholeTensor(files, inputId, batch, size) + seq((batch * m + 1) / 2 - batch * size, _ => 0);
    WholeNibble(files, inputId, batch, size, data, 1, 1);
    assert Place(1, m, 0) == m == Place(1, 2 * size, 1);
  }

  lemma OnlyFile(files: seq<File>, inputId: nat)
    requires |files| == 1
    ensures forall b: nat :: FileOf(files, inputId, b) == files[0]
  {
  }

  lemma HalfFits(batch: nat, m: nat)
    ensures batch * (m / 2) <= (batch * m + 1) / 2
  {
    Scale(2 * (m / 2), m, batch);
    assert 2 * (m / 2) * batch == 2 * (batch * (m / 2));
    assert m * batch == batch * m;
  }
}
