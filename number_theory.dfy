/** Divisibility, greatest common divisors and powers: the reference
    definitions the gcd and power routines are proved against. */
module NumberTheory {
  import opened Common

  /** d divides x: x is an integer multiple of d (only 0 is a multiple of 0). */
  predicate Divides(d: nat, x: int)
  {
    if d == 0 then x == 0 else x % d == 0
  }

  /** g is the greatest common divisor of a and b: a common divisor that
      every common divisor divides. */
  ghost predicate IsGcd(g: nat, a: int, b: int)
  {
    Divides(g, a) && Divides(g, b) &&
    forall d: nat :: Divides(d, a) && Divides(d, b) ==> Divides(d, g)
  }

  /** Every number divides 0, and 1 divides everything. */
  lemma DividesZero(d: nat)
    ensures Divides(d, 0)
  {
  }

  /** A multiple of d, written as d * k, is divisible by d. */
  lemma MultipleDivisible(d: nat, k: int)
    ensures Divides(d, d * k)
  {
    if d > 0 {
      var m := d * k;
      assert m == d * k + 0;
      assert m / d == k && m % d == 0 by { DivModUnique(m, d, k, 0); }
    }
  }

  /** Dafny's division is characterised by a == d * q + r with 0 <= r < d. */
  lemma DivModUnique(a: int, d: nat, q: int, r: int)
    requires d > 0 && a == d * q + r && 0 <= r < d
    ensures a / d == q && a % d == r
  {
    var q', r' := a / d, a % d;
    assert d * (q - q') == r' - r;
    MulSmall(d, q - q');
  }

  /** A multiple of d strictly between -d and d is 0. */
  lemma MulSmall(d: int, k: int)
    requires d > 0 && -d < d * k < d
    ensures k == 0
  {
    if k >= 1 { MulAtLeast(d, k); }
    if k <= -1 { MulAtLeast(d, -k); }
  }

  lemma MulAtLeast(d: int, k: int)
    requires d >= 0 && k >= 1
    ensures d * k >= d
  {
  }

  /** A divisor of x is, as d times the quotient, a factor of x. */
  lemma DividesFactor(d: nat, x: int)
    requires Divides(d, x)
    ensures d > 0 ==> x == d * (x / d)
    ensures d == 0 ==> x == 0
  {
  }

  /** A common divisor of x and y divides x + y * q. */
  lemma DividesCombination(d: nat, x: int, y: int, q: int)
    requires Divides(d, x) && Divides(d, y)
    ensures Divides(d, x + y * q)
  {
    if d > 0 {
      DividesFactor(d, x);
      DividesFactor(d, y);
      var k := x / d + (y / d) * q;
      assert x + y * q == d * k by {
        assert y * q == d * (y / d) * q;
      }
      MultipleDivisible(d, k);
    }
  }

  /** The common divisors of (a, b) and of (b, a - b * q) are the same. */
  lemma CommonDivisorsStep(a: int, b: int, q: int)
    ensures forall d: nat :: Divides(d, a) && Divides(d, b) <==> Divides(d, b) && Divides(d, a - b * q)
  {
    forall d: nat ensures Divides(d, a) && Divides(d, b) <==> Divides(d, b) && Divides(d, a - b * q) {
      if Divides(d, a) && Divides(d, b) {
        DividesCombination(d, a, b, -q);
        assert a + b * -q == a - b * q;
      }
      if Divides(d, b) && Divides(d, a - b * q) {
        DividesCombination(d, a - b * q, b, q);
      }
    }
  }

  /** Divisibility does not depend on the sign of the divisor's source. */
  lemma DividesNeg(d: nat, x: int)
    ensures Divides(d, x) <==> Divides(d, -x)
  {
    if d > 0 && Divides(d, x) {
      DividesFactor(d, x);
      assert -x == d * -(x / d);
      MultipleDivisible(d, -(x / d));
    }
    if d > 0 && Divides(d, -x) {
      DividesFactor(d, -x);
      assert x == d * -((-x) / d);
      MultipleDivisible(d, -((-x) / d));
    }
  }

  /** gcd(a, 0) is |a|, up to the sign a itself carries. */
  lemma GcdBase(a: int)
    ensures IsGcd(Abs(a), a, 0)
  {
    assert Divides(Abs(a), a) by {
      if a >= 0 { MultipleDivisible(a, 1); }
      else { MultipleDivisible(-a, 1); DividesNeg(-a, a); }
    }
    forall d: nat | Divides(d, a) && Divides(d, 0) ensures Divides(d, Abs(a)) {
      if a < 0 { DividesNeg(d, a); }
    }
  }

  /** One Euclid step keeps the gcd: a gcd of b and a - b * q is one of a
      and b. */
  lemma GcdStep(g: nat, a: int, b: int, q: int)
    requires IsGcd(g, b, a - b * q)
    ensures IsGcd(g, a, b)
  {
    CommonDivisorsStep(a, b, q);
  }

  /** The greatest common divisor is unique. */
  lemma GcdUnique(g: nat, h: nat, a: int, b: int)
    requires IsGcd(g, a, b) && IsGcd(h, a, b)
    ensures g == h
  {
    assert Divides(g, h) && Divides(h, g);
    if g > 0 && h > 0 {
      DividesFactor(g, h);
      DividesFactor(h, g);
      assert h / g >= 1 && g / h >= 1;
      MulAtLeast(g, h / g);
      MulAtLeast(h, g / h);
    }
  }

  /** x to the power n, by repeated multiplication. */
  function Pow(x: int, n: nat): int
  {
    if n == 0 then 1 else x * Pow(x, n - 1)
  }

  /** Powers add their exponents when multiplied. */
  lemma {:induction false} PowAdd(x: int, m: nat, n: nat)
    ensures Pow(x, m + n) == Pow(x, m) * Pow(x, n)
    decreases m
  {
    if m > 0 {
      PowAdd(x, m - 1, n);
      assert Pow(x, m + n) == x * Pow(x, m - 1 + n);
    }
  }

  /** Adding a multiple of m does not change the remainder mod m. */
  lemma ModMultiple(v: int, m: int, k: int)
    requires m > 0
    ensures (v + m * k) % m == v % m
  {
    assert v + m * k == m * (v / m + k) + v % m;
    DivModUnique(v + m * k, m, v / m + k, v % m);
  }

  /** The remainder of a product depends only on the factors' remainders. */
  lemma MulMod(x: int, y: int, m: int)
    requires m > 0
    ensures (x * y) % m == ((x % m) * (y % m)) % m
  {
    var qx, rx, qy, ry := x / m, x % m, y / m, y % m;
    assert x * y == rx * ry + m * (qx * y + rx * qy) by {
      assert x * y == (m * qx + rx) * y;
      assert (m * qx + rx) * y == m * qx * y + rx * (m * qy + ry);
    }
    ModMultiple(rx * ry, m, qx * y + rx * qy);
  }

  /** Products of congruent factors are congruent. */
  lemma MulCong(x1: int, y1: int, x2: int, y2: int, m: int)
    requires m > 0 && x1 % m == x2 % m && y1 % m == y2 % m
    ensures (x1 * y1) % m == (x2 * y2) % m
  {
    MulMod(x1, y1, m);
    MulMod(x2, y2, m);
  }

  /** Reducing the base mod m first does not change a power mod m. */
  lemma {:induction false} PowMod(x: int, n: nat, m: int)
    requires m > 0
    ensures Pow(x % m, n) % m == Pow(x, n) % m
  {
    if n > 0 {
      var r := x % m;
      PowMod(x, n - 1, m);
      DivModUnique(r, m, 0, r);
      MulCong(r, Pow(r, n - 1), x, Pow(x, n - 1), m);
      assert Pow(r, n) == r * Pow(r, n - 1);
    }
  }

  /** Squaring the base doubles the exponent. */
  lemma {:induction false} PowSquare(x: int, n: nat)
    ensures Pow(x * x, n) == Pow(x, 2 * n)
  {
    if n > 0 {
      PowSquare(x, n - 1);
      assert Pow(x, 2 * n) == x * (x * Pow(x, 2 * n - 2));
    }
  }

  /** Powers multiply their exponents when raised again. */
  lemma {:induction false} PowPow(x: int, m: nat, n: nat)
    ensures Pow(Pow(x, m), n) == Pow(x, m * n)
  {
    if n > 0 {
      PowPow(x, m, n - 1);
      PowAdd(x, m, m * (n - 1));
      assert m + m * (n - 1) == m * n;
    }
  }

  /** n is prime: at least 2, with no divisor strictly between 1 and n. */
  predicate Prime(n: int)
  {
    n >= 2 && forall d :: 2 <= d < n ==> n % d != 0
  }

  /** Taking the remainder twice changes nothing. */
  lemma ModMod(x: int, m: int)
    requires m > 0
    ensures (x % m) % m == x % m
  {
    DivModUnique(x % m, m, 0, x % m);
  }

  /** Row-major index arithmetic: the cell (x, y) of a width-W grid sits at
      y * W + x, and that index gives back its column and row. */
  lemma CellIndex(W: int, H: int, x: int, y: int)
    requires W > 0 && 0 <= x < W && 0 <= y < H
    ensures 0 <= y * W + x < W * H
    ensures (y * W + x) % W == x && (y * W + x) / W == y
  {
    DivModUnique(y * W + x, W, y, x);
    assert y * W <= (H - 1) * W by { MulLe(y, H - 1, W); }
  }

  /** Every index of a W * H grid has a column below W and a row below H. */
  lemma CellOf(W: int, H: int, k: int)
    requires W > 0 && 0 <= k < W * H
    ensures 0 <= k % W < W && 0 <= k / W < H
    ensures k == (k / W) * W + k % W
  {
    if k / W >= H {
      MulLe(H, k / W, W);
    }
  }

  lemma MulLe(a: int, b: int, c: int)
    requires a <= b && c >= 0
    ensures a * c <= b * c
  {
  }

  /** Column and row of the index k in a grid of width W. */
  function ColOf(W: int, k: int): int
  {
    if W > 0 then k % W else 0
  }

  function RowOf(W: int, k: int): int
  {
    if W > 0 then k / W else 0
  }
}
