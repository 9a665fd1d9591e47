/** The integer effects of ImageProcessing/examples/06_image_effects.c:
    posterize and solarize over the bytes, mirror_horizontal over the rows
    and pixelate over square blocks, each in place. */
module ImageEffects {
  import opened Common
  import opened NumberTheory
  import opened Images
  import Transformations

  /** The quantisation step of posterize(levels): 256 / levels in C. */
  function PosterStep(levels: int): int
    requires levels != 0
  {
    CDiv(256, levels)
  }

  /** For a non-negative v, C's (v / step) * step rounds v down to a
      multiple of |step|, whatever the sign of step. */
  lemma RoundDown(v: int, step: int)
    requires v >= 0 && step != 0
    ensures CDiv(v, step) * step == (v / Abs(step)) * Abs(step)
    ensures 0 <= v - (v / Abs(step)) * Abs(step) < Abs(step)
  {
  }

  /** One byte after posterize with the given step. */
  function Posterize(v: Byte, step: int): (r: Byte)
    requires step != 0
  {
    RoundDown(v, step);
    CDiv(v, step) * step
  }

  /** The posterized byte is the largest multiple of the step at or below
      the input, and posterizing it again leaves it as it is. */
  lemma PosterizeProps(v: Byte, step: int)
    requires step != 0
    ensures Posterize(v, step) % Abs(step) == 0
    ensures Posterize(v, step) <= v < Posterize(v, step) + Abs(step)
    ensures Posterize(Posterize(v, step), step) == Posterize(v, step)
  {
    var s := Abs(step);
    var q := v / s;
    RoundDown(v, step);
    DivModUnique(q * s, s, q, 0);
    RoundDown(q * s, step);
  }

  /** posterize(levels) for 1 <= |levels| <= 256: each output byte is a
      multiple of 256 / levels, at most the input and fixed by a second
      pass. */
  lemma PosterizeLevels(v: Byte, levels: int)
    requires levels != 0 && PosterStep(levels) != 0
    ensures Posterize(v, PosterStep(levels)) % Abs(PosterStep(levels)) == 0
    ensures Posterize(v, PosterStep(levels)) <= v
    ensures Posterize(Posterize(v, PosterStep(levels)), PosterStep(levels)) == Posterize(v, PosterStep(levels))
  {
    PosterizeProps(v, PosterStep(levels));
  }

  /** posterize: every byte rounded down to a multiple of 256 / levels.
      levels must give a non-zero step: 0 divides by zero and |levels| >
      256 makes the step 0. */
  method PosterizeImage(img: Image, levels: int)
    requires img.Valid() && levels != 0 && CDiv(256, levels) != 0
    modifies img.pixels
    ensures forall i :: 0 <= i < img.pixels.Length ==> img.pixels[i] == Posterize(old(img.pixels[i]), PosterStep(levels))
  {
    var step := CDiv(256, levels);
    var i := 0;
    while i < img.width * img.height * 3
      invariant 0 <= i <= img.pixels.Length
      invariant forall j :: 0 <= j < i ==> img.pixels[j] == Posterize(old(img.pixels[j]), step)
      invariant forall j :: i <= j < img.pixels.Length ==> img.pixels[j] == old(img.pixels[j])
    {
      img.pixels[i] := Posterize(img.pixels[i], step);
      i := i + 1;
    }
  }

  /** One byte after solarize(threshold): inverted when above the
      threshold, kept otherwise. */
  function Solarize(v: Byte, threshold: Byte): (r: Byte)
    ensures v > threshold ==> r + v == 255
    ensures v <= threshold ==> r == v
  {
    if v > threshold then 255 - v else v
  }

  /** No output byte exceeds both the threshold and 254 - threshold; with
      a threshold of 127 or more nothing ends above the threshold, so a
      second pass changes nothing. */
  lemma SolarizeBound(v: Byte, threshold: Byte)
    ensures Solarize(v, threshold) <= threshold || Solarize(v, threshold) <= 254 - threshold
    ensures threshold >= 127 ==> Solarize(Solarize(v, threshold), threshold) == Solarize(v, threshold)
  {
  }

  /** With a threshold below 127 a second pass can undo the first. */
  lemma SolarizeTwiceUndoes()
    ensures Solarize(Solarize(200, 10), 10) == 200
  {
  }

  /** solarize: every byte above the threshold inverted. */
  method SolarizeImage(img: Image, threshold: Byte)
    requires img.Valid()
    modifies img.pixels
    ensures forall i :: 0 <= i < img.pixels.Length ==> img.pixels[i] == Solarize(old(img.pixels[i]), threshold)
  {
    var i := 0;
    while i < img.width * img.height * 3
      invariant 0 <= i <= img.pixels.Length
      invariant forall j :: 0 <= j < i ==> img.pixels[j] == Solarize(old(img.pixels[j]), threshold)
      invariant forall j :: i <= j < img.pixels.Length ==> img.pixels[j] == old(img.pixels[j])
    {
      if img.pixels[i] > threshold {
        img.pixels[i] := 255 - img.pixels[i];
      }
      i := i + 1;
    }
  }

  /** The image mirror_horizontal makes of the w x h pixels p: the right
      half of every row replaced by the mirror image of the left half. */
  function Mirrored(p: seq<RGB>, w: int, h: int): (q: seq<RGB>)
    requires 0 <= w && 0 <= h && |p| == w * h
    ensures |q| == |p|
  {
    seq(|p|, k requires 0 <= k < |p| =>
          Transformations.MirrorXProps(w, h, k);
          if ColOf(w, k) >= w / 2 then p[Transformations.MirrorX(w, k)] else p[k])
  }

  /** Every row of the mirrored image reads the same from either end. */
  lemma MirroredSymmetric(p: seq<RGB>, w: int, h: int, k: int)
    requires 0 <= w && 0 <= h && |p| == w * h && 0 <= k < |p|
    ensures 0 <= Transformations.MirrorX(w, k) < |p|
    ensures Mirrored(p, w, h)[k] == Mirrored(p, w, h)[Transformations.MirrorX(w, k)]
  {
    Transformations.MirrorXProps(w, h, k);
    var m := Transformations.MirrorX(w, k);
    Transformations.MirrorXProps(w, h, m);
  }

  /** Mirroring an already mirrored image changes nothing. */
  lemma MirroredIdempotent(p: seq<RGB>, w: int, h: int)
    requires 0 <= w && 0 <= h && |p| == w * h
    ensures Mirrored(Mirrored(p, w, h), w, h) == Mirrored(p, w, h)
  {
    var q := Mirrored(p, w, h);
    forall k | 0 <= k < |p|
      ensures Mirrored(q, w, h)[k] == q[k]
    {
      MirroredSymmetric(p, w, h, k);
    }
    assert Mirrored(q, w, h) == q;
  }

  /** cur is before with columns [w / 2, x) of row y mirrored. */
  ghost predicate MirroredTo(cur: seq<RGB>, before: seq<RGB>, w: int, h: int, y: int, x: int)
    requires 0 <= w && 0 <= h && |cur| == |before| == w * h
  {
    forall k :: 0 <= k < w * h ==>
      cur[k] == if RowOf(w, k) == y && ColOf(w, k) < x then Mirrored(before, w, h)[k] else before[k]
  }

  /** One copy of mirror_horizontal's inner loop: column x of row y takes
      the pixel at column w - 1 - x, which is still the original one. */
  lemma MirrorStep(cur: seq<RGB>, after: seq<RGB>, before: seq<RGB>, w: int, h: int, y: int, x: int, v: RGB)
    requires 0 <= w && 0 <= h && |cur| == |after| == |before| == w * h
    requires 0 <= y < h && w / 2 <= x < w
    requires MirroredTo(cur, before, w, h, y, x)
    requires 0 <= y * w + (w - 1 - x) < w * h && v == cur[y * w + (w - 1 - x)]
    requires Updated(after, cur, w, x, y, v)
    ensures MirroredTo(after, before, w, h, y, x + 1)
  {
    CellIndex(w, h, w - 1 - x, y);
    forall k | 0 <= k < w * h && RowOf(w, k) == y && ColOf(w, k) == x
      ensures after[k] == Mirrored(before, w, h)[k]
    {
      Transformations.MirrorXProps(w, h, k);
    }
  }

  /** cur is before with row y mirrored. */
  ghost predicate RowMirrored(cur: seq<RGB>, before: seq<RGB>, w: int, h: int, y: int)
    requires 0 <= w && 0 <= h && |cur| == |before| == w * h
  {
    forall k :: 0 <= k < w * h ==>
      cur[k] == if RowOf(w, k) == y then Mirrored(before, w, h)[k] else before[k]
  }

  /** The inner loop of mirror_horizontal: row y mirrored, the other rows
      untouched. */
  method MirrorRow(img: Image, y: int)
    requires img.Valid() && 0 <= y < img.height
    modifies img.pixels
    ensures RowMirrored(img.Pixels(), old(img.Pixels()), img.width, img.height, y)
  {
    ghost var before := img.Pixels();
    var w := img.width;
    var x := w / 2;
    while x < w
      invariant w / 2 <= x <= w
      invariant MirroredTo(img.Pixels(), before, w, img.height, y, x)
    {
      ghost var cur := img.Pixels();
      var v := img.Get(w - 1 - x, y);
      img.Put(x, y, v);
      MirrorStep(cur, img.Pixels(), before, w, img.height, y, x, v);
      x := x + 1;
    }
    forall k | 0 <= k < w * img.height
      ensures img.Col(k) < w
    {
      CellOf(w, img.height, k);
    }
  }

  /** cur is before with the rows above y mirrored. */
  ghost predicate RowsMirrored(cur: seq<RGB>, before: seq<RGB>, w: int, h: int, y: int)
    requires 0 <= w && 0 <= h && |cur| == |before| == w * h
  {
    forall k :: 0 <= k < w * h ==>
      cur[k] == if RowOf(w, k) < y then Mirrored(before, w, h)[k] else before[k]
  }

  /** Mirroring row y of an image whose rows above y are done extends the
      done part by that row. */
  lemma MirrorNextRow(cur: seq<RGB>, after: seq<RGB>, before: seq<RGB>, w: int, h: int, y: int)
    requires 0 <= w && 0 <= h && |cur| == |after| == |before| == w * h && 0 <= y < h
    requires RowsMirrored(cur, before, w, h, y)
    requires RowMirrored(after, cur, w, h, y)
    ensures RowsMirrored(after, before, w, h, y + 1)
  {
    forall k | 0 <= k < w * h && RowOf(w, k) == y
      ensures Mirrored(cur, w, h)[k] == Mirrored(before, w, h)[k]
    {
      Transformations.MirrorXProps(w, h, k);
    }
  }

  /** Before the first row nothing is mirrored; with every row done the
      image is the mirrored one. */
  lemma MirrorRowsEnds(cur: seq<RGB>, before: seq<RGB>, w: int, h: int)
    requires 0 <= w && 0 <= h && |cur| == |before| == w * h
    ensures RowsMirrored(before, before, w, h, 0)
    ensures RowsMirrored(cur, before, w, h, h) ==> cur == Mirrored(before, w, h)
  {
    forall k | 0 <= k < w * h
      ensures 0 <= RowOf(w, k) < h
    {
      CellOf(w, h, k);
    }
  }

  /** mirror_horizontal: every row's right half made the mirror image of
      its left half, in place. */
  method MirrorHorizontal(img: Image)
    requires img.Valid()
    modifies img.pixels
    ensures img.Pixels() == Mirrored(old(img.Pixels()), img.width, img.height)
  {
    ghost var before := img.Pixels();
    MirrorRowsEnds(before, before, img.width, img.height);
    var y := 0;
    while y < img.height
      invariant 0 <= y <= img.height
      invariant RowsMirrored(img.Pixels(), before, img.width, img.height, y)
    {
      ghost var cur := img.Pixels();
      MirrorRow(img, y);
      MirrorNextRow(cur, img.Pixels(), before, img.width, img.height, y);
      y := y + 1;
    }
    MirrorRowsEnds(img.Pixels(), before, img.width, img.height);
  }

  /** Running channel sums. */
  datatype Sums = Sums(r: int, g: int, b: int)

  function AddPixel(t: Sums, p: RGB): Sums
  {
    Sums(t.r + p.r, t.g + p.g, t.b + p.b)
  }

  function Plus(t: Sums, u: Sums): Sums
  {
    Sums(t.r + u.r, t.g + u.g, t.b + u.b)
  }

  /** The channel sums of the pixels of s, each in [0, 255 * |s|]. */
  function SumOf(s: seq<RGB>): (t: Sums)
    ensures 0 <= t.r <= 255 * |s| && 0 <= t.g <= 255 * |s| && 0 <= t.b <= 255 * |s|
  {
    if s == [] then Sums(0, 0, 0) else AddPixel(SumOf(s[..|s| - 1]), s[|s| - 1])
  }

  /** Columns x0 .. x0 + n - 1 of row y lie at consecutive indices inside
      the image. */
  lemma RowSpan(w: int, h: int, x0: int, y: int, n: int)
    requires 0 <= x0 && 0 <= n && x0 + n <= w && 0 <= y < h
    ensures 0 <= y * w + x0 && y * w + x0 + n <= w * h
  {
    MulLe(y + 1, h, w);
  }

  /** The channel sums of columns x0 .. x0 + bw - 1 of row y. */
  function RowSum(p: seq<RGB>, w: int, h: int, x0: int, y: int, bw: int): (t: Sums)
    requires 0 <= w && 0 <= h && |p| == w * h
    requires 0 <= x0 && 0 <= bw && x0 + bw <= w && 0 <= y < h
    ensures 0 <= t.r <= 255 * bw && 0 <= t.g <= 255 * bw && 0 <= t.b <= 255 * bw
  {
    RowSpan(w, h, x0, y, bw);
    SumOf(p[y * w + x0..y * w + x0 + bw])
  }

  /** The channel sums of rows y0 .. y0 + rows - 1, columns
      x0 .. x0 + bw - 1: at most 255 per pixel. */
  function BlockSum(p: seq<RGB>, w: int, h: int, x0: int, y0: int, bw: int, rows: int): (t: Sums)
    requires 0 <= w && 0 <= h && |p| == w * h
    requires 0 <= x0 && 0 <= bw && x0 + bw <= w && 0 <= y0 && 0 <= rows && y0 + rows <= h
    decreases rows
  {
    if rows == 0 then Sums(0, 0, 0)
    else
      Plus(BlockSum(p, w, h, x0, y0, bw, rows - 1), RowSum(p, w, h, x0, y0 + rows - 1, bw))
  }

  /** The block's sums are at most 255 per pixel. */
  lemma {:induction false} BlockSumBound(p: seq<RGB>, w: int, h: int, x0: int, y0: int, bw: int, rows: int)
    requires 0 <= w && 0 <= h && |p| == w * h
    requires 0 <= x0 && 0 <= bw && x0 + bw <= w && 0 <= y0 && 0 <= rows && y0 + rows <= h
    ensures var t := BlockSum(p, w, h, x0, y0, bw, rows);
      0 <= t.r <= 255 * (bw * rows) && 0 <= t.g <= 255 * (bw * rows) && 0 <= t.b <= 255 * (bw * rows)
    decreases rows
  {
    if rows > 0 {
      BlockSumBound(p, w, h, x0, y0, bw, rows - 1);
      var before := bw * (rows - 1);
      assert bw * rows == before + bw;
      var t, u := BlockSum(p, w, h, x0, y0, bw, rows - 1), RowSum(p, w, h, x0, y0 + rows - 1, bw);
      assert 0 <= t.r <= 255 * before && 0 <= u.r <= 255 * bw;
      assert 0 <= t.g <= 255 * before && 0 <= u.g <= 255 * bw;
      assert 0 <= t.b <= 255 * before && 0 <= u.b <= 255 * bw;
    }
  }

  /** A sum of n bytes divided by n is a byte. */
  lemma MeanIsByte(t: int, n: int)
    requires n > 0 && 0 <= t <= 255 * n
    ensures 0 <= t / n <= 255
  {
    var q := t / n;
    if q > 255 {
      MulLe(256, q, n);
    }
  }

  /** The integer mean of n pixels whose channel sums are t. */
  function Average(t: Sums, n: int): RGB
    requires n > 0 && 0 <= t.r <= 255 * n && 0 <= t.g <= 255 * n && 0 <= t.b <= 255 * n
  {
    MeanIsByte(t.r, n);
    MeanIsByte(t.g, n);
    MeanIsByte(t.b, n);
    RGB(t.r / n, t.g / n, t.b / n)
  }

  function Min(a: int, b: int): int
  {
    if a < b then a else b
  }

  /** The first column (or row) of the block of size bs that holds
      column (or row) c. */
  function BlockStart(c: int, bs: int): int
    requires bs > 0
  {
    (c / bs) * bs
  }

  lemma BlockStartProps(c: int, bs: int)
    requires bs > 0 && 0 <= c
    ensures 0 <= BlockStart(c, bs) <= c < BlockStart(c, bs) + bs
    ensures BlockStart(c, bs) % bs == 0
  {
    DivModUnique(BlockStart(c, bs), bs, c / bs, 0);
  }

  /** A block start x, a multiple of bs, is the block start of every c in
      [x, x + bs). */
  lemma BlockStartOf(c: int, x: int, bs: int)
    requires bs > 0 && 0 <= x <= c < x + bs && x % bs == 0
    ensures BlockStart(c, bs) == x
  {
    DivModUnique(c, bs, x / bs, c - x);
  }

  /** The integer average colour of the block with corner (x0, y0): bs x bs
      pixels, cut short at the right and bottom edges. */
  function BlockAverage(p: seq<RGB>, w: int, h: int, bs: int, x0: int, y0: int): RGB
    requires 0 <= w && 0 <= h && |p| == w * h && bs > 0
    requires 0 <= x0 < w && 0 <= y0 < h
  {
    var bw, bh := Min(bs, w - x0), Min(bs, h - y0);
    assert bw * bh > 0 by { MulLe(1, bh, bw); }
    BlockSumBound(p, w, h, x0, y0, bw, bh);
    Average(BlockSum(p, w, h, x0, y0, bw, bh), bw * bh)
  }

  /** The image pixelate(bs) makes of p: every pixel takes the average of
      its block. */
  function Pixelated(p: seq<RGB>, w: int, h: int, bs: int): (q: seq<RGB>)
    requires 0 <= w && 0 <= h && |p| == w * h && bs > 0
    ensures |q| == |p|
  {
    seq(|p|, k requires 0 <= k < |p| =>
          CellOf(w, h, k);
          BlockStartProps(ColOf(w, k), bs);
          BlockStartProps(RowOf(w, k), bs);
          BlockAverage(p, w, h, bs, BlockStart(ColOf(w, k), bs), BlockStart(RowOf(w, k), bs)))
  }

  /** Pixels of the same block end up the same colour. */
  lemma PixelatedUniform(p: seq<RGB>, w: int, h: int, bs: int, k1: int, k2: int)
    requires 0 <= w && 0 <= h && |p| == w * h && bs > 0
    requires 0 <= k1 < |p| && 0 <= k2 < |p|
    requires BlockStart(ColOf(w, k1), bs) == BlockStart(ColOf(w, k2), bs)
    requires BlockStart(RowOf(w, k1), bs) == BlockStart(RowOf(w, k2), bs)
    ensures Pixelated(p, w, h, bs)[k1] == Pixelated(p, w, h, bs)[k2]
  {
  }

  /** Blocks of one pixel change nothing. */
  lemma PixelateOne(p: seq<RGB>, w: int, h: int)
    requires 0 <= w && 0 <= h && |p| == w * h
    ensures Pixelated(p, w, h, 1) == p
  {
    var q := Pixelated(p, w, h, 1);
    forall k | 0 <= k < |p|
      ensures q[k] == p[k]
    {
      CellOf(w, h, k);
      var x, y := ColOf(w, k), RowOf(w, k);
      assert BlockStart(x, 1) == x && BlockStart(y, 1) == y;
      RowSpan(w, h, x, y, 1);
      assert p[k..k + 1] == [p[k]];
      assert RowSum(p, w, h, x, y, 1) == AddPixel(Sums(0, 0, 0), p[k]);
    }
    assert q == p;
  }

  /** Two images that agree on part of a row have the same sums there. */
  lemma RowSumFrame(p: seq<RGB>, q: seq<RGB>, w: int, h: int, x0: int, y: int, bw: int)
    requires 0 <= w && 0 <= h && |p| == |q| == w * h
    requires 0 <= x0 && 0 <= bw && x0 + bw <= w && 0 <= y < h
    requires forall k :: 0 <= k < w * h && x0 <= ColOf(w, k) < x0 + bw && RowOf(w, k) == y ==> p[k] == q[k]
    ensures RowSum(p, w, h, x0, y, bw) == RowSum(q, w, h, x0, y, bw)
  {
    RowSpan(w, h, x0, y, bw);
    var start := y * w + x0;
    var ps, qs := p[start..start + bw], q[start..start + bw];
    forall i | 0 <= i < bw
      ensures ps[i] == qs[i]
    {
      CellIndex(w, h, x0 + i, y);
      var k := y * w + (x0 + i);
      assert p[k] == q[k];
    }
    assert ps == qs;
  }

  /** Two images that agree on a block have the same block sums. */
  lemma {:induction false} BlockSumFrame(p: seq<RGB>, q: seq<RGB>, w: int, h: int, x0: int, y0: int, bw: int, rows: int)
    requires 0 <= w && 0 <= h && |p| == |q| == w * h
    requires 0 <= x0 && 0 <= bw && x0 + bw <= w && 0 <= y0 && 0 <= rows && y0 + rows <= h
    requires forall k :: 0 <= k < w * h && x0 <= ColOf(w, k) < x0 + bw && y0 <= RowOf(w, k) < y0 + rows ==> p[k] == q[k]
    ensures BlockSum(p, w, h, x0, y0, bw, rows) == BlockSum(q, w, h, x0, y0, bw, rows)
    decreases rows
  {
    if rows > 0 {
      BlockSumFrame(p, q, w, h, x0, y0, bw, rows - 1);
      RowSumFrame(p, q, w, h, x0, y0 + rows - 1, bw);
    }
  }

  /** SumOf adds the pixels one at a time from the front. */
  lemma SumOfSnoc(s: seq<RGB>, i: int)
    requires 0 <= i < |s|
    ensures SumOf(s[..i + 1]) == AddPixel(SumOf(s[..i]), s[i])
  {
    assert s[..i + 1][..i] == s[..i];
  }

  /** The inner summing loop of pixelate: acc plus the channel sums of the
      block's columns in row y, and the number of those columns. */
  method SumRow(img: Image, x: int, y: int, bs: int, acc: Sums) returns (t: Sums, n: int)
    requires img.Valid() && bs > 0 && 0 <= x < img.width && 0 <= y < img.height
    ensures n == Min(bs, img.width - x)
    ensures t == Plus(acc, RowSum(img.Pixels(), img.width, img.height, x, y, n))
  {
    ghost var bw := Min(bs, img.width - x);
    RowSpan(img.width, img.height, x, y, bw);
    ghost var row := img.Pixels()[y * img.width + x..y * img.width + x + bw];
    t, n := acc, 0;
    while n < bs && x + n < img.width
      invariant 0 <= n <= bw
      invariant t == Plus(acc, SumOf(row[..n]))
    {
      var v := img.Get(x + n, y);
      SumOfSnoc(row, n);
      t := AddPixel(t, v);
      n := n + 1;
    }
    assert row[..n] == row;
  }

  /** One more row of the block adds that row's sums, and bw more pixels. */
  lemma BlockSumNext(p: seq<RGB>, w: int, h: int, x0: int, y0: int, bw: int, rows: int)
    requires 0 <= w && 0 <= h && |p| == w * h
    requires 0 <= x0 && 0 <= bw && x0 + bw <= w && 0 <= y0 && 0 <= rows && y0 + rows < h
    ensures BlockSum(p, w, h, x0, y0, bw, rows + 1) == Plus(BlockSum(p, w, h, x0, y0, bw, rows), RowSum(p, w, h, x0, y0 + rows, bw))
    ensures bw * rows + bw == bw * (rows + 1)
  {
  }

  /** The summing loops of pixelate for the block with corner (x, y): the
      channel sums and the number of pixels of the block, read in row
      order. */
  method SumBlock(img: Image, x: int, y: int, bs: int) returns (total: Sums, count: int)
    requires img.Valid() && bs > 0 && 0 <= x < img.width && 0 <= y < img.height
    ensures count == Min(bs, img.width - x) * Min(bs, img.height - y)
    ensures total == BlockSum(img.Pixels(), img.width, img.height, x, y, Min(bs, img.width - x), Min(bs, img.height - y))
  {
    ghost var p := img.Pixels();
    ghost var bw, bh := Min(bs, img.width - x), Min(bs, img.height - y);
    total, count := Sums(0, 0, 0), 0;
    var dy := 0;
    while dy < bs && y + dy < img.height
      invariant 0 <= dy <= bh
      invariant count == bw * dy
      invariant total == BlockSum(p, img.width, img.height, x, y, bw, dy)
    {
      var n;
      total, n := SumRow(img, x, y + dy, bs, total);
      BlockSumNext(p, img.width, img.height, x, y, bw, dy);
      count := count + n;
      dy := dy + 1;
    }
    assert dy == bh;
  }

  /** cur is before with the pixels of the block [x, x + bw) x [y, y + bh)
      in rows before y + dy, and in row y + dy before column x + dx, set
      to v. */
  ghost predicate FilledTo(cur: seq<RGB>, before: seq<RGB>, w: int, x: int, y: int, bw: int, dy: int, dx: int, v: RGB)
    requires |cur| == |before|
  {
    forall k :: 0 <= k < |cur| ==>
      cur[k] == if x <= ColOf(w, k) < x + bw && y <= RowOf(w, k)
                   && (RowOf(w, k) < y + dy || (RowOf(w, k) == y + dy && ColOf(w, k) < x + dx))
                then v else before[k]
  }

  /** The filling loops of pixelate: every pixel of the block with corner
      (x, y) set to v, every other pixel unchanged. */
  method FillBlock(img: Image, x: int, y: int, bs: int, v: RGB)
    requires img.Valid() && bs > 0 && 0 <= x < img.width && 0 <= y < img.height
    modifies img.pixels
    ensures FilledTo(img.Pixels(), old(img.Pixels()), img.width, x, y, Min(bs, img.width - x), Min(bs, img.height - y), 0, v)
  {
    ghost var before := img.Pixels();
    ghost var bw, bh := Min(bs, img.width - x), Min(bs, img.height - y);
    var dy := 0;
    while dy < bs && y + dy < img.height
      invariant 0 <= dy <= bh
      invariant FilledTo(img.Pixels(), before, img.width, x, y, bw, dy, 0, v)
    {
      var dx := 0;
      while dx < bs && x + dx < img.width
        invariant 0 <= dx <= bw
        invariant FilledTo(img.Pixels(), before, img.width, x, y, bw, dy, dx, v)
      {
        img.Put(x + dx, y + dy, v);
        dx := dx + 1;
      }
      dy := dy + 1;
    }
  }

  /** One block of pixelate: the block's average, computed from its pixels
      as they were, written over every pixel of the block. */
  method PixelateBlock(img: Image, x: int, y: int, bs: int)
    requires img.Valid() && bs > 0 && 0 <= x < img.width && 0 <= y < img.height
    modifies img.pixels
    ensures FilledTo(img.Pixels(), old(img.Pixels()), img.width, x, y, Min(bs, img.width - x), Min(bs, img.height - y), 0,
                     BlockAverage(old(img.Pixels()), img.width, img.height, bs, x, y))
  {
    var total, count := SumBlock(img, x, y, bs);
    ghost var bw, bh := Min(bs, img.width - x), Min(bs, img.height - y);
    assert count > 0 by { MulLe(1, bh, bw); }
    BlockSumBound(img.Pixels(), img.width, img.height, x, y, bw, bh);
    MeanIsByte(total.r, count);
    MeanIsByte(total.g, count);
    MeanIsByte(total.b, count);
    var avg := RGB(total.r / count, total.g / count, total.b / count);
    FillBlock(img, x, y, bs, avg);
  }

  /** Pixel k is in a block pixelate has finished when its outer loops are
      at the block with corner (x, y). */
  predicate BlockDone(w: int, bs: int, y: int, x: int, k: int)
  {
    RowOf(w, k) < y || (RowOf(w, k) < y + bs && ColOf(w, k) < x)
  }

  /** cur is before with the blocks before corner (x, y) pixelated. */
  ghost predicate PixelatedTo(cur: seq<RGB>, before: seq<RGB>, w: int, h: int, bs: int, y: int, x: int)
    requires 0 <= w && 0 <= h && |before| == w * h && bs > 0
  {
    |cur| == |before| &&
    forall k :: 0 <= k < |cur| ==> cur[k] == if BlockDone(w, bs, y, x, k) then Pixelated(before, w, h, bs)[k] else before[k]
  }

  /** Before the loops nothing is done; once y passes the last row
      everything is. */
  lemma PixelateEnds(cur: seq<RGB>, before: seq<RGB>, w: int, h: int, bs: int, y: int)
    requires 0 <= w && 0 <= h && |before| == w * h && bs > 0
    ensures cur == before ==> PixelatedTo(cur, before, w, h, bs, 0, 0)
    ensures h <= y && PixelatedTo(cur, before, w, h, bs, y, 0) ==> cur == Pixelated(before, w, h, bs)
  {
    forall k | 0 <= k < w * h
      ensures 0 <= RowOf(w, k) < h && 0 <= ColOf(w, k) < w
    {
      CellOf(w, h, k);
    }
    if h <= y && PixelatedTo(cur, before, w, h, bs, y, 0) {
      var q := Pixelated(before, w, h, bs);
      forall k | 0 <= k < |cur|
        ensures cur[k] == q[k]
      {
        assert BlockDone(w, bs, y, 0, k);
      }
    }
  }

  /** Once x passes the last column, the next band of rows starts. */
  lemma PixelateNextRow(cur: seq<RGB>, before: seq<RGB>, w: int, h: int, bs: int, y: int, x: int)
    requires 0 <= w && 0 <= h && |before| == w * h && bs > 0 && w <= x
    requires PixelatedTo(cur, before, w, h, bs, y, x)
    ensures PixelatedTo(cur, before, w, h, bs, y + bs, 0)
  {
    forall k | 0 <= k < |cur|
      ensures BlockDone(w, bs, y, x, k) == BlockDone(w, bs, y + bs, 0, k)
    {
      CellOf(w, h, k);
    }
  }

  /** Writing the average of the block with corner (x, y), computed from
      the image as the loops left it, pixelates that block. */
  lemma PixelateStep(cur: seq<RGB>, after: seq<RGB>, before: seq<RGB>, w: int, h: int, bs: int, y: int, x: int)
    requires 0 <= w && 0 <= h && |before| == w * h && bs > 0
    requires 0 <= x < w && 0 <= y < h && x % bs == 0 && y % bs == 0
    requires PixelatedTo(cur, before, w, h, bs, y, x) && |after| == |cur|
    requires FilledTo(after, cur, w, x, y, Min(bs, w - x), Min(bs, h - y), 0, BlockAverage(cur, w, h, bs, x, y))
    ensures PixelatedTo(after, before, w, h, bs, y, x + bs)
  {
    var bw, bh := Min(bs, w - x), Min(bs, h - y);
    forall k | 0 <= k < w * h && x <= ColOf(w, k) < x + bw && y <= RowOf(w, k) < y + bh
      ensures cur[k] == before[k]
    {
      assert !BlockDone(w, bs, y, x, k);
    }
    BlockSumFrame(cur, before, w, h, x, y, bw, bh);
    var q := Pixelated(before, w, h, bs);
    forall k | 0 <= k < |after|
      ensures after[k] == if BlockDone(w, bs, y, x + bs, k) then q[k] else before[k]
    {
      CellOf(w, h, k);
      if x <= ColOf(w, k) < x + bw && y <= RowOf(w, k) < y + bh {
        BlockStartOf(ColOf(w, k), x, bs);
        BlockStartOf(RowOf(w, k), y, bs);
      }
    }
  }

  /** The next block start after a multiple of bs is one too. */
  lemma NextBlock(x: int, bs: int)
    requires bs > 0 && x % bs == 0
    ensures (x + bs) % bs == 0
  {
    DivModUnique(x + bs, bs, x / bs + 1, 0);
  }

  /** The inner loop of pixelate: the blocks of the band of rows starting
      at y, left to right. */
  method PixelateBand(img: Image, ghost before: seq<RGB>, y: int, bs: int)
    requires img.Valid() && bs > 0 && 0 <= y < img.height && y % bs == 0
    requires |before| == img.width * img.height
    requires PixelatedTo(img.Pixels(), before, img.width, img.height, bs, y, 0)
    modifies img.pixels
    ensures PixelatedTo(img.Pixels(), before, img.width, img.height, bs, y + bs, 0)
  {
    var x := 0;
    while x < img.width
      invariant 0 <= x && x % bs == 0
      invariant PixelatedTo(img.Pixels(), before, img.width, img.height, bs, y, x)
    {
      ghost var cur := img.Pixels();
      PixelateBlock(img, x, y, bs);
      PixelateStep(cur, img.Pixels(), before, img.width, img.height, bs, y, x);
      NextBlock(x, bs);
      x := x + bs;
    }
    PixelateNextRow(img.Pixels(), before, img.width, img.height, bs, y, x);
  }

  /** pixelate(bs): every pixel becomes the integer average of its bs x bs
      block, blocks cut short at the right and bottom edges. */
  method Pixelate(img: Image, bs: int)
    requires img.Valid() && bs > 0
    modifies img.pixels
    ensures img.Pixels() == Pixelated(old(img.Pixels()), img.width, img.height, bs)
  {
    ghost var before := img.Pixels();
    PixelateEnds(before, before, img.width, img.height, bs, 0);
    var y := 0;
    while y < img.height
      invariant 0 <= y && y % bs == 0
      invariant PixelatedTo(img.Pixels(), before, img.width, img.height, bs, y, 0)
    {
      PixelateBand(img, before, y, bs);
      NextBlock(y, bs);
      y := y + bs;
    }
    PixelateEnds(img.Pixels(), before, img.width, img.height, bs, y);
  }
}
