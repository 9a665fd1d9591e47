/** The integer colour operations of
    ImageProcessing/examples/04_color_operations.c: brightness, invert and
    threshold, each a loop over the image in place. */
module ColorOperations {
  import opened Common
  import opened Images

  /** The nearest byte to v: the conditional chain that stores an int into
      a channel. */
  function Clamp(v: int): (b: Byte)
    ensures 0 <= v <= 255 ==> b == v
  {
    if v < 0 then 0 else if v > 255 then 255 else v
  }

  /** No byte is nearer to v than Clamp(v). */
  lemma ClampNearest(v: int, u: Byte)
    ensures Abs(Clamp(v) - v) <= Abs(u - v)
  {
  }

  /** One channel after brightness(amount). */
  function Brighten(v: Byte, amount: int): Byte
  {
    Clamp(v + amount)
  }

  /** brightness(0) changes nothing. */
  lemma BrightenZero(v: Byte)
    ensures Brighten(v, 0) == v
  {
  }

  /** Two adjustments in the same direction make one adjustment by their
      sum; the clamp is what stops this for opposite directions. */
  lemma BrightenTwice(v: Byte, a: int, b: int)
    requires (a >= 0 && b >= 0) || (a <= 0 && b <= 0)
    ensures Brighten(Brighten(v, a), b) == Brighten(v, a + b)
  {
  }

  /** Darkening below black then brightening does not restore the channel. */
  lemma BrightenLoses()
    ensures Brighten(Brighten(10, -20), 20) != 10
  {
  }

  /** One channel after invert. */
  function Invert(v: Byte): (r: Byte)
    ensures r + v == 255
  {
    255 - v
  }

  /** invert twice gives the image back. */
  lemma InvertInvolution(v: Byte)
    ensures Invert(Invert(v)) == v
  {
  }

  /** The pixel threshold(thresh) writes: all three channels 255 when the
      integer mean (r + g + b) / 3 reaches thresh, else all three 0. */
  function Threshold(p: RGB, thresh: Byte): (q: RGB)
    ensures q.r == q.g == q.b && (q.r == 0 || q.r == 255)
    ensures q.r == 255 <==> p.r + p.g + p.b >= 3 * thresh
  {
    var gray := (p.r + p.g + p.b) / 3;
    var value := if gray >= thresh then 255 else 0;
    RGB(value, value, value)
  }

  /** A thresholded pixel is left as it is by the same threshold. */
  lemma ThresholdIdempotent(p: RGB, thresh: Byte)
    ensures Threshold(Threshold(p, thresh), thresh) == Threshold(p, thresh)
  {
  }

  /** brightness: every byte moves by amount, clamped to [0, 255]. */
  method Brightness(img: Image, amount: int)
    requires img.Valid()
    modifies img.pixels
    ensures forall i :: 0 <= i < img.pixels.Length ==> img.pixels[i] == Brighten(old(img.pixels[i]), amount)
  {
    var i := 0;
    while i < img.width * img.height * 3
      invariant 0 <= i <= img.pixels.Length
      invariant forall j :: 0 <= j < i ==> img.pixels[j] == Brighten(old(img.pixels[j]), amount)
      invariant forall j :: i <= j < img.pixels.Length ==> img.pixels[j] == old(img.pixels[j])
    {
      var val := img.pixels[i] + amount;
      img.pixels[i] := if val < 0 then 0 else if val > 255 then 255 else val;
      i := i + 1;
    }
  }

  /** invert: every byte v becomes 255 - v. */
  method InvertImage(img: Image)
    requires img.Valid()
    modifies img.pixels
    ensures forall i :: 0 <= i < img.pixels.Length ==> img.pixels[i] == Invert(old(img.pixels[i]))
  {
    var i := 0;
    while i < img.width * img.height * 3
      invariant 0 <= i <= img.pixels.Length
      invariant forall j :: 0 <= j < i ==> img.pixels[j] == Invert(old(img.pixels[j]))
      invariant forall j :: i <= j < img.pixels.Length ==> img.pixels[j] == old(img.pixels[j])
    {
      img.pixels[i] := 255 - img.pixels[i];
      i := i + 1;
    }
  }

  /** Inverting twice restores every byte of the image. */
  method InvertTwice(img: Image)
    requires img.Valid()
    modifies img.pixels
    ensures img.pixels[..] == old(img.pixels[..])
  {
    InvertImage(img);
    InvertImage(img);
  }

  /** threshold: every pixel becomes black or white by its channel mean. */
  method ThresholdImage(img: Image, thresh: Byte)
    requires img.Valid()
    modifies img.pixels
    ensures img.Pixels() == seq(img.width * img.height, k requires 0 <= k < img.width * img.height =>
                                  Threshold(old(img.Pixels())[k], thresh))
  {
    ghost var before := img.Pixels();
    var i := 0;
    while i < img.width * img.height
      invariant 0 <= i <= img.width * img.height
      invariant forall k :: 0 <= k < i ==> img.Pixels()[k] == Threshold(before[k], thresh)
      invariant forall k :: i <= k < img.width * img.height ==> img.Pixels()[k] == before[k]
    {
      var p := img.ReadPixel(i);
      var gray := (p.r + p.g + p.b) / 3;
      var value: Byte := if gray >= thresh then 255 else 0;
      img.WritePixel(i, RGB(value, value, value));
      i := i + 1;
    }
  }
}
