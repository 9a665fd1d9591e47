/** The geometric transformations of
    ImageProcessing/examples/05_transformations.c: horizontal and vertical
    flips in place, a quarter turn clockwise into a new image, and a crop
    into a new image. Each is specified by the pixel index it takes every
    output pixel from. */
module Transformations {
  import opened Common
  import opened NumberTheory
  import opened Images

  /** The index of the pixel in the same row as k at the mirrored column
      (w - 1 - x), in a grid of width w. */
  function MirrorX(w: int, k: int): int
  {
    RowOf(w, k) * w + (w - 1 - ColOf(w, k))
  }

  lemma MirrorXProps(w: int, h: int, k: int)
    requires w > 0 && 0 <= k < w * h
    ensures 0 <= MirrorX(w, k) < w * h
    ensures RowOf(w, MirrorX(w, k)) == RowOf(w, k)
    ensures ColOf(w, MirrorX(w, k)) == w - 1 - ColOf(w, k)
    ensures MirrorX(w, MirrorX(w, k)) == k
  {
    CellOf(w, h, k);
    CellIndex(w, h, w - 1 - k % w, k / w);
  }

  /** The index of the pixel in the same column as k at the mirrored row
      (h - 1 - y), in a w x h grid. */
  function MirrorY(w: int, h: int, k: int): int
  {
    (h - 1 - RowOf(w, k)) * w + ColOf(w, k)
  }

  lemma MirrorYProps(w: int, h: int, k: int)
    requires w > 0 && 0 <= k < w * h
    ensures 0 <= MirrorY(w, h, k) < w * h
    ensures RowOf(w, MirrorY(w, h, k)) == h - 1 - RowOf(w, k)
    ensures ColOf(w, MirrorY(w, h, k)) == ColOf(w, k)
    ensures MirrorY(w, h, MirrorY(w, h, k)) == k
  {
    CellOf(w, h, k);
    CellIndex(w, h, k % w, h - 1 - k / w);
  }

  /** The image flip_horizontal makes of the w x h pixels p: every row read
      right to left. */
  function FlippedH(p: seq<RGB>, w: int, h: int): (q: seq<RGB>)
    requires 0 <= w && 0 <= h && |p| == w * h
    ensures |q| == |p|
  {
    seq(|p|, k requires 0 <= k < |p| => MirrorXProps(w, h, k); p[MirrorX(w, k)])
  }

  /** The image flip_vertical makes of p: the rows in reverse order. */
  function FlippedV(p: seq<RGB>, w: int, h: int): (q: seq<RGB>)
    requires 0 <= w && 0 <= h && |p| == w * h
    ensures |q| == |p|
  {
    seq(|p|, k requires 0 <= k < |p| => MirrorYProps(w, h, k); p[MirrorY(w, h, k)])
  }

  /** Flipping horizontally twice gives the image back. */
  lemma FlipHTwice(p: seq<RGB>, w: int, h: int)
    requires 0 <= w && 0 <= h && |p| == w * h
    ensures FlippedH(FlippedH(p, w, h), w, h) == p
  {
    forall k | 0 <= k < |p|
      ensures FlippedH(FlippedH(p, w, h), w, h)[k] == p[k]
    {
      MirrorXProps(w, h, k);
    }
  }

  /** Flipping vertically twice gives the image back. */
  lemma FlipVTwice(p: seq<RGB>, w: int, h: int)
    requires 0 <= w && 0 <= h && |p| == w * h
    ensures FlippedV(FlippedV(p, w, h), w, h) == p
  {
    forall k | 0 <= k < |p|
      ensures FlippedV(FlippedV(p, w, h), w, h)[k] == p[k]
    {
      MirrorYProps(w, h, k);
    }
  }

  /** The pixel a half turn takes to k: mirrored in both directions. */
  lemma HalfTurnIndex(w: int, h: int, k: int)
    requires w > 0 && 0 <= k < w * h
    ensures MirrorY(w, h, MirrorX(w, k)) == w * h - 1 - k
    ensures MirrorX(w, MirrorY(w, h, k)) == w * h - 1 - k
  {
    MirrorXProps(w, h, k);
    MirrorYProps(w, h, k);
    CellOf(w, h, k);
    var x, y := k % w, k / w;
    OppositeCorner(w, h, x, y);
  }

  /** Mirroring column x and row y together reflects the row-major index
      through the centre. */
  lemma OppositeCorner(w: int, h: int, x: int, y: int)
    ensures (h - 1 - y) * w + (w - 1 - x) == w * h - 1 - (y * w + x)
  {
    assert (h - 1 - y) * w == h * w - w - y * w;
  }

  /** Pixel k after both flips, in either order, is pixel w * h - 1 - k. */
  lemma HalfTurnAt(p: seq<RGB>, w: int, h: int, k: int)
    requires 0 <= w && 0 <= h && |p| == w * h && 0 <= k < |p|
    ensures FlippedV(FlippedH(p, w, h), w, h)[k] == p[|p| - 1 - k]
    ensures FlippedH(FlippedV(p, w, h), w, h)[k] == p[|p| - 1 - k]
  {
    MirrorXProps(w, h, k);
    MirrorYProps(w, h, k);
    var m, n := MirrorY(w, h, k), MirrorX(w, k);
    MirrorXProps(w, h, m);
    MirrorYProps(w, h, n);
    HalfTurnIndex(w, h, k);
    assert FlippedV(FlippedH(p, w, h), w, h)[k] == FlippedH(p, w, h)[m] == p[MirrorX(w, m)];
    assert FlippedH(FlippedV(p, w, h), w, h)[k] == FlippedV(p, w, h)[n] == p[MirrorY(w, h, n)];
  }

  /** Both flips, in either order, turn the image half a turn: the pixels
      in reverse order. */
  lemma FlipsMakeHalfTurn(p: seq<RGB>, w: int, h: int)
    requires 0 <= w && 0 <= h && |p| == w * h
    ensures FlippedV(FlippedH(p, w, h), w, h) == Reverse(p)
    ensures FlippedH(FlippedV(p, w, h), w, h) == Reverse(p)
  {
    var q1, q2, r := FlippedV(FlippedH(p, w, h), w, h), FlippedH(FlippedV(p, w, h), w, h), Reverse(p);
    forall k | 0 <= k < |p|
      ensures q1[k] == r[k] && q2[k] == r[k]
    {
      HalfTurnAt(p, w, h, k);
    }
    assert q1 == r && q2 == r;
  }

  /** cur is before with columns [0, x) and [w - x, w) of row y taken from
      the horizontally flipped image. */
  ghost predicate RowFlippedTo(cur: seq<RGB>, before: seq<RGB>, w: int, h: int, y: int, x: int)
    requires 0 <= w && 0 <= h && |cur| == |before| == w * h
  {
    forall k :: 0 <= k < w * h ==>
      cur[k] == if RowOf(w, k) == y && (ColOf(w, k) < x || ColOf(w, k) >= w - x)
                then FlippedH(before, w, h)[k] else before[k]
  }

  /** after is cur with the pixels at (xa, ya) and (xb, yb) exchanged. */
  ghost predicate Exchanged(after: seq<RGB>, cur: seq<RGB>, w: int, h: int, xa: int, ya: int, xb: int, yb: int)
    requires 0 <= w && 0 <= h && |cur| == |after| == w * h
    requires 0 <= xa < w && 0 <= ya < h && 0 <= xb < w && 0 <= yb < h
  {
    CellIndex(w, h, xa, ya);
    CellIndex(w, h, xb, yb);
    forall k :: 0 <= k < w * h ==>
      after[k] == if RowOf(w, k) == ya && ColOf(w, k) == xa then cur[yb * w + xb]
                  else if RowOf(w, k) == yb && ColOf(w, k) == xb then cur[ya * w + xa]
                  else cur[k]
  }

  /** Exchanges the pixels at (xa, ya) and (xb, yb): the three-byte swap
      loop of both flips. */
  method ExchangeCells(img: Image, xa: int, ya: int, xb: int, yb: int)
    requires img.Valid() && 0 <= xa < img.width && 0 <= ya < img.height && 0 <= xb < img.width && 0 <= yb < img.height
    modifies img.pixels
    ensures Exchanged(img.Pixels(), old(img.Pixels()), img.width, img.height, xa, ya, xb, yb)
  {
    var pa := img.Get(xa, ya);
    var pb := img.Get(xb, yb);
    img.Put(xa, ya, pb);
    img.Put(xb, yb, pa);
  }

  /** One exchange of flip_horizontal's inner loop widens the flipped part
      of row y by a column on each side. */
  lemma FlipRowStep(cur: seq<RGB>, after: seq<RGB>, before: seq<RGB>, w: int, h: int, y: int, x: int)
    requires 0 <= w && 0 <= h && |cur| == |after| == |before| == w * h
    requires 0 <= y < h && 0 <= x < w / 2
    requires RowFlippedTo(cur, before, w, h, y, x)
    requires Exchanged(after, cur, w, h, x, y, w - 1 - x, y)
    ensures RowFlippedTo(after, before, w, h, y, x + 1)
  {
    CellIndex(w, h, x, y);
    CellIndex(w, h, w - 1 - x, y);
    forall k | 0 <= k < w * h
      ensures after[k] == if RowOf(w, k) == y && (ColOf(w, k) < x + 1 || ColOf(w, k) >= w - (x + 1))
                          then FlippedH(before, w, h)[k] else before[k]
    {
      if RowOf(w, k) == y && (ColOf(w, k) == x || ColOf(w, k) == w - 1 - x) {
        MirrorXProps(w, h, k);
      }
    }
  }

  /** The inner loop of flip_horizontal: row y read right to left, the
      other rows untouched. Each step exchanges the pixels at columns x and
      w - 1 - x (the three-byte loop of the source). */
  method FlipRow(img: Image, y: int)
    requires img.Valid() && 0 <= y < img.height
    modifies img.pixels
    ensures forall k :: 0 <= k < img.width * img.height ==>
              img.Pixels()[k] == if img.Row(k) == y then FlippedH(old(img.Pixels()), img.width, img.height)[k] else old(img.Pixels())[k]
  {
    ghost var before := img.Pixels();
    var w := img.width;
    var x := 0;
    while x < w / 2
      invariant 0 <= x <= w / 2
      invariant RowFlippedTo(img.Pixels(), before, w, img.height, y, x)
    {
      ghost var cur := img.Pixels();
      ExchangeCells(img, x, y, w - 1 - x, y);
      FlipRowStep(cur, img.Pixels(), before, w, img.height, y, x);
      x := x + 1;
    }
    forall k | 0 <= k < w * img.height
      ensures img.Pixels()[k] == if img.Row(k) == y then FlippedH(before, w, img.height)[k] else before[k]
    {
      if img.Row(k) == y && w / 2 <= img.Col(k) < w - w / 2 {
        CellOf(w, img.height, k);
      }
    }
  }

  /** flip_horizontal: every row reversed in place. */
  method FlipHorizontal(img: Image)
    requires img.Valid()
    modifies img.pixels
    ensures img.Pixels() == FlippedH(old(img.Pixels()), img.width, img.height)
  {
    ghost var before := img.Pixels();
    var y := 0;
    while y < img.height
      invariant 0 <= y <= img.height
      invariant forall k :: 0 <= k < img.width * img.height ==>
                  img.Pixels()[k] == if img.Row(k) < y then FlippedH(before, img.width, img.height)[k] else before[k]
    {
      ghost var mid := img.Pixels();
      FlipRow(img, y);
      forall k | 0 <= k < img.width * img.height && img.Row(k) == y
        ensures FlippedH(mid, img.width, img.height)[k] == FlippedH(before, img.width, img.height)[k]
      {
        MirrorXProps(img.width, img.height, k);
      }
      y := y + 1;
    }
    forall k | 0 <= k < img.width * img.height
      ensures img.Row(k) < img.height
    {
      CellOf(img.width, img.height, k);
    }
  }

  /** cur is before with columns [0, x) of rows y and h - 1 - y taken from
      the vertically flipped image. */
  ghost predicate RowsFlippedTo(cur: seq<RGB>, before: seq<RGB>, w: int, h: int, y: int, x: int)
    requires 0 <= w && 0 <= h && |cur| == |before| == w * h
  {
    forall k :: 0 <= k < w * h ==>
      cur[k] == if (RowOf(w, k) == y || RowOf(w, k) == h - 1 - y) && ColOf(w, k) < x
                then FlippedV(before, w, h)[k] else before[k]
  }

  /** One exchange of flip_vertical's inner loop extends the flipped part
      of rows y and h - 1 - y by one column. */
  lemma FlipRowsStep(cur: seq<RGB>, after: seq<RGB>, before: seq<RGB>, w: int, h: int, y: int, x: int)
    requires 0 <= w && 0 <= h && |cur| == |after| == |before| == w * h
    requires 0 <= y < h / 2 && 0 <= x < w
    requires RowsFlippedTo(cur, before, w, h, y, x)
    requires Exchanged(after, cur, w, h, x, y, x, h - 1 - y)
    ensures RowsFlippedTo(after, before, w, h, y, x + 1)
  {
    CellIndex(w, h, x, y);
    CellIndex(w, h, x, h - 1 - y);
    forall k | 0 <= k < w * h
      ensures after[k] == if (RowOf(w, k) == y || RowOf(w, k) == h - 1 - y) && ColOf(w, k) < x + 1
                          then FlippedV(before, w, h)[k] else before[k]
    {
      if ColOf(w, k) == x && (RowOf(w, k) == y || RowOf(w, k) == h - 1 - y) {
        MirrorYProps(w, h, k);
      }
    }
  }

  /** cur is before with rows y and h - 1 - y taken from the vertically
      flipped image. */
  ghost predicate PairFlipped(cur: seq<RGB>, before: seq<RGB>, w: int, h: int, y: int)
    requires 0 <= w && 0 <= h && |cur| == |before| == w * h
  {
    forall k :: 0 <= k < w * h ==>
      cur[k] == if RowOf(w, k) == y || RowOf(w, k) == h - 1 - y then FlippedV(before, w, h)[k] else before[k]
  }

  /** The inner loop of flip_vertical: rows y and h - 1 - y exchanged, the
      other rows untouched. */
  method FlipRows(img: Image, y: int)
    requires img.Valid() && 0 <= y < img.height / 2
    modifies img.pixels
    ensures PairFlipped(img.Pixels(), old(img.Pixels()), img.width, img.height, y)
  {
    ghost var before := img.Pixels();
    var h := img.height;
    var x := 0;
    while x < img.width
      invariant 0 <= x <= img.width
      invariant RowsFlippedTo(img.Pixels(), before, img.width, h, y, x)
    {
      ghost var cur := img.Pixels();
      ExchangeCells(img, x, y, x, h - 1 - y);
      FlipRowsStep(cur, img.Pixels(), before, img.width, h, y, x);
      x := x + 1;
    }
    forall k | 0 <= k < img.width * h
      ensures img.Col(k) < img.width
    {
      CellOf(img.width, h, k);
    }
  }

  /** cur is before with the rows above y and below h - 1 - y taken from
      the vertically flipped image. */
  ghost predicate OuterRowsFlipped(cur: seq<RGB>, before: seq<RGB>, w: int, h: int, y: int)
    requires 0 <= w && 0 <= h && |cur| == |before| == w * h
  {
    forall k :: 0 <= k < w * h ==>
      cur[k] == if RowOf(w, k) < y || RowOf(w, k) > h - 1 - y then FlippedV(before, w, h)[k] else before[k]
  }

  /** Exchanging the next pair of rows extends the flipped part. */
  lemma FlipVStep(cur: seq<RGB>, after: seq<RGB>, before: seq<RGB>, w: int, h: int, y: int)
    requires 0 <= w && 0 <= h && |cur| == |after| == |before| == w * h && 0 <= y < h / 2
    requires OuterRowsFlipped(cur, before, w, h, y)
    requires PairFlipped(after, cur, w, h, y)
    ensures OuterRowsFlipped(after, before, w, h, y + 1)
  {
    forall k | 0 <= k < w * h && (RowOf(w, k) == y || RowOf(w, k) == h - 1 - y)
      ensures FlippedV(cur, w, h)[k] == FlippedV(before, w, h)[k]
    {
      MirrorYProps(w, h, k);
    }
  }

  /** With no rows exchanged nothing is flipped yet; with h / 2 pairs
      exchanged the image is flipped (the middle row of an odd height is
      its own mirror). */
  lemma FlipVEnds(cur: seq<RGB>, before: seq<RGB>, w: int, h: int)
    requires 0 <= w && 0 <= h && |cur| == |before| == w * h
    ensures OuterRowsFlipped(before, before, w, h, 0)
    ensures OuterRowsFlipped(cur, before, w, h, h / 2) ==> cur == FlippedV(before, w, h)
  {
    forall k | 0 <= k < w * h
      ensures 0 <= RowOf(w, k) <= h - 1
      ensures RowOf(w, k) == h - 1 - RowOf(w, k) ==> before[k] == FlippedV(before, w, h)[k]
    {
      CellOf(w, h, k);
    }
  }

  /** flip_vertical: the rows in reverse order, in place. */
  method FlipVertical(img: Image)
    requires img.Valid()
    modifies img.pixels
    ensures img.Pixels() == FlippedV(old(img.Pixels()), img.width, img.height)
  {
    ghost var before := img.Pixels();
    var h := img.height;
    FlipVEnds(before, before, img.width, h);
    var y := 0;
    while y < h / 2
      invariant 0 <= y <= h / 2
      invariant OuterRowsFlipped(img.Pixels(), before, img.width, h, y)
    {
      ghost var cur := img.Pixels();
      FlipRows(img, y);
      FlipVStep(cur, img.Pixels(), before, img.width, h, y);
      y := y + 1;
    }
    FlipVEnds(img.Pixels(), before, img.width, h);
  }

  /** The pixel of a w x h image that rotate_90_cw puts at index j of its
      h x w result: row r of the result is column r of the source read
      from the bottom up. */
  function RotSrc(w: int, h: int, j: int): int
  {
    (h - 1 - ColOf(h, j)) * w + RowOf(h, j)
  }

  lemma RotSrcProps(w: int, h: int, j: int)
    requires w > 0 && h > 0 && 0 <= j < w * h
    ensures 0 <= RotSrc(w, h, j) < w * h
  {
    CellOf(h, w, j);
    CellIndex(w, h, j / h, h - 1 - j % h);
  }

  /** The h x w image rotate_90_cw makes of the w x h pixels p. */
  function Rotated(p: seq<RGB>, w: int, h: int): (q: seq<RGB>)
    requires 0 <= w && 0 <= h && |p| == w * h
    ensures |q| == |p|
  {
    seq(|p|, j requires 0 <= j < |p| => RotSrcProps(w, h, j); p[RotSrc(w, h, j)])
  }

  /** Two quarter turns take pixel j from pixel w * h - 1 - j. */
  lemma RotSrcTwice(w: int, h: int, j: int)
    requires w > 0 && h > 0 && 0 <= j < w * h
    ensures 0 <= RotSrc(h, w, j) < w * h
    ensures RotSrc(w, h, RotSrc(h, w, j)) == w * h - 1 - j
  {
    CellOf(w, h, j);
    var a, b := j % w, j / w;
    CellIndex(h, w, b, w - 1 - a);
    OppositeCorner(w, h, a, b);
  }

  /** Pixel j after two quarter turns is pixel w * h - 1 - j. */
  lemma RotateTwiceAt(p: seq<RGB>, w: int, h: int, j: int)
    requires 0 <= w && 0 <= h && |p| == w * h && 0 <= j < |p|
    ensures Rotated(Rotated(p, w, h), h, w)[j] == p[|p| - 1 - j]
  {
    RotSrcTwice(w, h, j);
    var i := RotSrc(h, w, j);
    assert Rotated(Rotated(p, w, h), h, w)[j] == Rotated(p, w, h)[i] == p[RotSrc(w, h, i)];
  }

  /** rotate_90_cw twice is a half turn: the pixels in reverse order. */
  lemma RotateTwice(p: seq<RGB>, w: int, h: int)
    requires 0 <= w && 0 <= h && |p| == w * h
    ensures Rotated(Rotated(p, w, h), h, w) == Reverse(p)
  {
    var q, r := Rotated(Rotated(p, w, h), h, w), Reverse(p);
    forall j | 0 <= j < |p|
      ensures q[j] == r[j]
    {
      RotateTwiceAt(p, w, h, j);
    }
    assert q == r;
  }

  /** Two quarter turns make the same image as the two flips. */
  lemma RotateTwiceIsBothFlips(p: seq<RGB>, w: int, h: int)
    requires 0 <= w && 0 <= h && |p| == w * h
    ensures Rotated(Rotated(p, w, h), h, w) == FlippedV(FlippedH(p, w, h), w, h)
  {
    RotateTwice(p, w, h);
    FlipsMakeHalfTurn(p, w, h);
  }

  /** Four quarter turns give the image back. */
  lemma RotateFourTimes(p: seq<RGB>, w: int, h: int)
    requires 0 <= w && 0 <= h && |p| == w * h
    ensures Rotated(Rotated(Rotated(Rotated(p, w, h), h, w), w, h), h, w) == p
  {
    RotateTwice(p, w, h);
    RotateTwice(Reverse(p), w, h);
    ReverseReverse(p);
  }

  /** q holds the rotated pixels of every source pixel rotate_90_cw has
      copied before source row y, column x. */
  ghost predicate RotatedUpTo(q: seq<RGB>, p: seq<RGB>, w: int, h: int, y: int, x: int)
    requires 0 <= w && 0 <= h && |q| == |p| == w * h
  {
    forall j :: 0 <= j < w * h && (h - 1 - ColOf(h, j) < y || (h - 1 - ColOf(h, j) == y && RowOf(h, j) < x)) ==>
      q[j] == Rotated(p, w, h)[j]
  }

  /** Copying source pixel (x, y) to column h - 1 - y of row x extends the
      copied part by one pixel. */
  lemma RotateStep(cur: seq<RGB>, after: seq<RGB>, p: seq<RGB>, w: int, h: int, y: int, x: int, v: RGB)
    requires 0 <= w && 0 <= h && |cur| == |after| == |p| == w * h
    requires 0 <= y < h && 0 <= x < w
    requires RotatedUpTo(cur, p, w, h, y, x)
    requires 0 <= y * w + x < w * h && v == p[y * w + x]
    requires Updated(after, cur, h, h - 1 - y, x, v)
    ensures RotatedUpTo(after, p, w, h, y, x + 1)
  {
    forall j | 0 <= j < w * h && ColOf(h, j) == h - 1 - y && RowOf(h, j) == x
      ensures after[j] == Rotated(p, w, h)[j]
    {
      RotSrcProps(w, h, j);
    }
  }

  /** A finished row moves the copied part to the start of the next row. */
  lemma RotateNextRow(q: seq<RGB>, p: seq<RGB>, w: int, h: int, y: int)
    requires 0 <= w && 0 <= h && |q| == |p| == w * h && 0 <= y < h
    requires RotatedUpTo(q, p, w, h, y, w)
    ensures RotatedUpTo(q, p, w, h, y + 1, 0)
  {
    forall j | 0 <= j < w * h
      ensures RowOf(h, j) < w
    {
      CellOf(h, w, j);
    }
  }

  /** After the last row every pixel has been copied. */
  lemma RotateDone(q: seq<RGB>, p: seq<RGB>, w: int, h: int)
    requires 0 <= w && 0 <= h && |q| == |p| == w * h
    requires RotatedUpTo(q, p, w, h, h, 0)
    ensures q == Rotated(p, w, h)
  {
    forall j | 0 <= j < w * h
      ensures q[j] == Rotated(p, w, h)[j]
    {
      CellOf(h, w, j);
    }
  }

  /** One pass of rotate_90_cw's inner loop: source row y copied into
      column h - 1 - y of the result. */
  method RotateRow(img: Image, rotated: Image, y: int)
    requires img.Valid() && rotated.Valid() && rotated.pixels != img.pixels
    requires rotated.width == img.height && rotated.height == img.width && 0 <= y < img.height
    requires RotatedUpTo(rotated.Pixels(), img.Pixels(), img.width, img.height, y, 0)
    modifies rotated.pixels
    ensures RotatedUpTo(rotated.Pixels(), img.Pixels(), img.width, img.height, y + 1, 0)
  {
    var w, h := img.width, img.height;
    var x := 0;
    while x < w
      invariant 0 <= x <= w
      invariant RotatedUpTo(rotated.Pixels(), img.Pixels(), w, h, y, x)
    {
      ghost var cur := rotated.Pixels();
      var v := img.Get(x, y);
      rotated.Put(h - 1 - y, x, v);
      RotateStep(cur, rotated.Pixels(), img.Pixels(), w, h, y, x, v);
      x := x + 1;
    }
    RotateNextRow(rotated.Pixels(), img.Pixels(), w, h, y);
  }

  /** rotate_90_cw: a new image, height pixels wide and width pixels high,
      holding the source turned a quarter turn clockwise. */
  method RotateClockwise(img: Image) returns (rotated: Image)
    requires img.Valid()
    ensures rotated.Valid() && fresh(rotated.pixels)
    ensures rotated.width == img.height && rotated.height == img.width
    ensures rotated.Pixels() == Rotated(img.Pixels(), img.width, img.height)
  {
    rotated := new Image(img.height, img.width);
    var y := 0;
    while y < img.height
      invariant 0 <= y <= img.height
      invariant RotatedUpTo(rotated.Pixels(), img.Pixels(), img.width, img.height, y, 0)
      modifies rotated.pixels
    {
      RotateRow(img, rotated, y);
      y := y + 1;
    }
    RotateDone(rotated.Pixels(), img.Pixels(), img.width, img.height);
  }

  /** A rectangle of pixels: top-left corner and size. */
  datatype Region = Region(x: int, y: int, width: int, height: int)

  /** r starts at a non-negative corner and ends at or before the right
      and bottom edges of a W x H image. */
  predicate Inside(W: int, H: int, r: Region)
  {
    0 <= r.x && 0 <= r.y && r.x + r.width <= W && r.y + r.height <= H
  }

  /** The region crop copies: a negative corner coordinate becomes 0 and a
      size that runs past the right or bottom edge is cut back to it. A
      size may still come out zero or negative, and then nothing is
      copied. */
  function Clip(W: int, H: int, x: int, y: int, width: int, height: int): (r: Region)
    ensures Inside(W, H, r)
    ensures r.width <= width && r.height <= height
  {
    var x0 := if x < 0 then 0 else x;
    var y0 := if y < 0 then 0 else y;
    Region(x0, y0, if x0 + width > W then W - x0 else width, if y0 + height > H then H - y0 else height)
  }

  /** A region already inside the image is left as it is; in particular
      clipping twice is clipping once. */
  lemma ClipKeepsInside(W: int, H: int, r: Region)
    requires Inside(W, H, r)
    ensures Clip(W, H, r.x, r.y, r.width, r.height) == r
  {
  }

  /** The number of pixels along a side whose computed size is n. */
  function Extent(n: int): nat
  {
    if n < 0 then 0 else n
  }

  /** The source pixel crop copies to index j of its result. */
  function CropSrc(W: int, r: Region, j: int): int
  {
    (r.y + RowOf(Extent(r.width), j)) * W + r.x + ColOf(Extent(r.width), j)
  }

  /** Every pixel crop reads lies inside the source image. */
  lemma CropSrcProps(W: int, H: int, r: Region, j: int)
    requires 0 <= W && 0 <= H && Inside(W, H, r)
    requires 0 <= j < Extent(r.width) * Extent(r.height)
    ensures 0 <= CropSrc(W, r, j) < W * H
  {
    var cw, ch := Extent(r.width), Extent(r.height);
    CellOf(cw, ch, j);
    CellIndex(W, H, r.x + j % cw, r.y + j / cw);
  }

  /** The pixels crop copies out of the W x H pixels p for the region r. */
  function Cropped(p: seq<RGB>, W: int, H: int, r: Region): (q: seq<RGB>)
    requires 0 <= W && 0 <= H && |p| == W * H && Inside(W, H, r)
    ensures |q| == Extent(r.width) * Extent(r.height)
  {
    seq(Extent(r.width) * Extent(r.height), j requires 0 <= j < Extent(r.width) * Extent(r.height) =>
          CropSrcProps(W, H, r, j); p[CropSrc(W, r, j)])
  }

  /** Pixel (col, row) of the crop is pixel (r.x + col, r.y + row) of the
      source. */
  lemma CroppedAt(p: seq<RGB>, W: int, H: int, r: Region, col: int, row: int)
    requires 0 <= W && 0 <= H && |p| == W * H && Inside(W, H, r)
    requires 0 <= col < r.width && 0 <= row < r.height
    ensures 0 <= row * r.width + col < |Cropped(p, W, H, r)|
    ensures 0 <= (r.y + row) * W + r.x + col < |p|
    ensures Cropped(p, W, H, r)[row * r.width + col] == p[(r.y + row) * W + r.x + col]
  {
    CellIndex(r.width, r.height, col, row);
    CellIndex(W, H, r.x + col, r.y + row);
  }

  /** Cropping the whole image copies it unchanged. */
  lemma CropWhole(p: seq<RGB>, W: int, H: int)
    requires 0 <= W && 0 <= H && |p| == W * H
    ensures Cropped(p, W, H, Clip(W, H, 0, 0, W, H)) == p
  {
    var r := Clip(W, H, 0, 0, W, H);
    assert r == Region(0, 0, W, H);
    var q := Cropped(p, W, H, r);
    forall j | 0 <= j < |p|
      ensures q[j] == p[j]
    {
      CellOf(W, H, j);
    }
    assert q == p;
  }

  /** q holds the cropped pixels of every row before row and of the first
      col pixels of row: crop fills its result in index order. */
  ghost predicate CroppedUpTo(q: seq<RGB>, p: seq<RGB>, W: int, H: int, r: Region, row: int, col: int)
    requires 0 <= W && 0 <= H && |p| == W * H && Inside(W, H, r)
    requires |q| == Extent(r.width) * Extent(r.height)
  {
    forall j :: 0 <= j < |q| && j < row * Extent(r.width) + col ==> q[j] == Cropped(p, W, H, r)[j]
  }

  /** Copying pixel (col, row) extends the copied part by one pixel. */
  lemma CropStep(cur: seq<RGB>, after: seq<RGB>, p: seq<RGB>, W: int, H: int, r: Region, row: int, col: int, v: RGB)
    requires 0 <= W && 0 <= H && |p| == W * H && Inside(W, H, r)
    requires |cur| == Extent(r.width) * Extent(r.height)
    requires 0 <= row < r.height && 0 <= col < r.width
    requires CroppedUpTo(cur, p, W, H, r, row, col)
    requires 0 <= (r.y + row) * W + r.x + col < W * H && v == p[(r.y + row) * W + r.x + col]
    requires Updated(after, cur, Extent(r.width), col, row, v)
    ensures CroppedUpTo(after, p, W, H, r, row, col + 1)
  {
    var cw, ch := r.width, r.height;
    CellIndex(cw, ch, col, row);
    forall j | 0 <= j < |cur| && j < row * cw + col + 1
      ensures after[j] == Cropped(p, W, H, r)[j]
    {
      CellOf(cw, ch, j);
      if j == row * cw + col {
        CropSrcProps(W, H, r, j);
      } else {
        assert j < row * cw + col;
        assert !(ColOf(cw, j) == col && RowOf(cw, j) == row);
      }
    }
  }

  /** The end of a row is the start of the next; after the last row
      every pixel is copied. */
  lemma CropRowEnds(q: seq<RGB>, p: seq<RGB>, W: int, H: int, r: Region, row: int)
    requires 0 <= W && 0 <= H && |p| == W * H && Inside(W, H, r)
    requires |q| == Extent(r.width) * Extent(r.height)
    ensures CroppedUpTo(q, p, W, H, r, row, Extent(r.width)) ==> CroppedUpTo(q, p, W, H, r, row + 1, 0)
    ensures CroppedUpTo(q, p, W, H, r, Extent(r.height), 0) ==> q == Cropped(p, W, H, r)
  {
    assert row * Extent(r.width) + Extent(r.width) == (row + 1) * Extent(r.width);
    assert Extent(r.height) * Extent(r.width) == |q|;
  }

  /** One pass of crop's inner loop: row row of the region copied. */
  method CropRow(img: Image, cropped: Image, r: Region, row: int)
    requires img.Valid() && cropped.Valid() && cropped.pixels != img.pixels
    requires Inside(img.width, img.height, r) && 0 <= row < r.height
    requires cropped.width == Extent(r.width) && cropped.height == Extent(r.height)
    requires CroppedUpTo(cropped.Pixels(), img.Pixels(), img.width, img.height, r, row, 0)
    modifies cropped.pixels
    ensures CroppedUpTo(cropped.Pixels(), img.Pixels(), img.width, img.height, r, row + 1, 0)
  {
    var col := 0;
    while col < r.width
      invariant 0 <= col <= Extent(r.width)
      invariant CroppedUpTo(cropped.Pixels(), img.Pixels(), img.width, img.height, r, row, col)
    {
      ghost var cur := cropped.Pixels();
      var v := img.Get(r.x + col, r.y + row);
      cropped.Put(col, row, v);
      CropStep(cur, cropped.Pixels(), img.Pixels(), img.width, img.height, r, row, col, v);
      col := col + 1;
    }
    CropRowEnds(cropped.Pixels(), img.Pixels(), img.width, img.height, r, row);
  }

  /** crop: the arguments are clipped to the image (Clip) and the region's
      pixels are copied, row by row, into a new image of the region's
      size. */
  method Crop(img: Image, x: int, y: int, width: int, height: int) returns (cropped: Image)
    requires img.Valid()
    ensures cropped.Valid() && fresh(cropped.pixels)
    ensures var r := Clip(img.width, img.height, x, y, width, height);
            && cropped.width == Extent(r.width) && cropped.height == Extent(r.height)
            && cropped.Pixels() == Cropped(img.Pixels(), img.width, img.height, r)
  {
    var r := Clip(img.width, img.height, x, y, width, height);
    cropped := new Image(Extent(r.width), Extent(r.height));
    var row := 0;
    while row < r.height
      invariant 0 <= row <= Extent(r.height)
      invariant CroppedUpTo(cropped.Pixels(), img.Pixels(), img.width, img.height, r, row, 0)
      modifies cropped.pixels
    {
      CropRow(img, cropped, r, row);
      row := row + 1;
    }
    CropRowEnds(cropped.Pixels(), img.Pixels(), img.width, img.height, r, row);
  }
}
