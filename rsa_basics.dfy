/** Toy RSA (Cryptography/examples/05_rsa_basics.c): Euclid's gcd, the
    extended Euclidean algorithm, modular inverse, square-and-multiply
    modular exponentiation, trial-division primality, and the key pair,
    encryption, decryption, signing and verification built on them. */
module Rsa {
  import opened Common
  import opened NumberTheory

  /** 2^64, one more than the largest uint64_t. */
  const TWO_64: int := 0x1_0000_0000_0000_0000

  /** gcd: Euclid's algorithm on unsigned 64-bit values. */
  method Gcd(a: nat, b: nat) returns (g: nat)
    requires a < TWO_64 && b < TWO_64
    ensures g < TWO_64 && IsGcd(g, a, b)
  {
    var x: nat, y: nat := a, b;
    while y != 0
      invariant x < TWO_64 && y < TWO_64
      invariant forall h: nat :: IsGcd(h, x, y) ==> IsGcd(h, a, b)
      decreases y
    {
      forall h: nat | IsGcd(h, y, x % y) ensures IsGcd(h, x, y) {
        assert x % y == x - y * (x / y);
        GcdStep(h, x, y, x / y);
      }
      x, y := y, x % y;
    }
    GcdBase(x);
    g := x;
  }

  /** The three results of extended_gcd: the returned g and the
      coefficients written through x and y. */
  datatype Bezout = Bezout(g: int, x: int, y: int)

  /** extended_gcd with C's truncating / and %: coefficients x, y with
      a * x + b * y == g, where |g| is the gcd of a and b (and g itself
      when neither input is negative). */
  function ExtendedGcd(a: int, b: int): (r: Bezout)
    ensures a * r.x + b * r.y == r.g
    ensures a >= 0 && b >= 0 ==> r.g >= 0
    decreases Abs(b)
  {
    if b == 0 then
      Bezout(a, 1, 0)
    else
      var q := CDiv(a, b);
      var s := ExtendedGcd(b, CMod(a, b));
      BezoutStep(a, b, q, s.x, s.y, s.g);
      Bezout(s.g, s.y, s.x - q * s.y)
  }

  /** The g that extended_gcd returns is, up to sign, the greatest common
      divisor of its inputs. */
  lemma {:induction false} ExtendedGcdIsGcd(a: int, b: int)
    ensures IsGcd(Abs(ExtendedGcd(a, b).g), a, b)
    decreases Abs(b)
  {
    if b == 0 {
      GcdBase(a);
    } else {
      ExtendedGcdIsGcd(b, CMod(a, b));
      GcdStep(Abs(ExtendedGcd(b, CMod(a, b)).g), a, b, CDiv(a, b));
    }
  }

  /** The back-substitution of extended_gcd: coefficients for (b, a - b * q)
      give coefficients for (a, b). */
  lemma BezoutStep(a: int, b: int, q: int, x1: int, y1: int, g: int)
    requires b * x1 + (a - b * q) * y1 == g
    ensures a * y1 + b * (x1 - q * y1) == g
  {
    assert (a - b * q) * y1 == a * y1 - b * (q * y1);
    assert b * (x1 - q * y1) == b * x1 - b * (q * y1);
  }

  /** Integers with a Bezout combination equal to 1 are coprime. */
  lemma CoprimeByBezout(a: int, b: int, x: int, y: int)
    requires a * x + b * y == 1
    ensures IsGcd(1, a, b)
  {
    forall d: nat | Divides(d, a) && Divides(d, b) ensures Divides(d, 1) {
      DividesZero(d);
      DividesCombination(d, 0, a, x);
      DividesCombination(d, a * x, b, y);
    }
  }

  /** The gcd extended_gcd returns is 1 exactly when its inputs are
      coprime. */
  lemma ExtendedGcdOne(a: nat, b: nat)
    ensures ExtendedGcd(a, b).g == 1 <==> IsGcd(1, a, b)
  {
    var r := ExtendedGcd(a, b);
    ExtendedGcdIsGcd(a, b);
    if IsGcd(1, a, b) {
      GcdUnique(1, Abs(r.g), a, b);
    }
  }

  /** mod_inverse, with the remainder taken in signed arithmetic: the
      inverse of a modulo m in [0, m) when a and m are coprime, else 0.
      The C code divides by m only when a and m are coprime, so m == 0
      is excluded for a == 1 alone. */
  function ModInverse(a: nat, m: nat): (r: nat)
    requires m > 0 || a != 1
    ensures IsGcd(1, a, m) ==> r < m && (a * r) % m == 1 % m
    ensures !IsGcd(1, a, m) ==> r == 0
  {
    var b := ExtendedGcd(a, m);
    ExtendedGcdOne(a, m);
    if b.g != 1 then 0
    else
      var x1 := CMod(b.x, m);
      var r := CMod(x1 + m, m);
      InverseCongruent(a, m, b.x, b.y, x1, r);
      r
  }

  /** The arithmetic behind mod_inverse: a representative of x's class
      modulo m inverts a when a * x + m * y == 1. */
  lemma InverseCongruent(a: int, m: int, x: int, y: int, x1: int, r: int)
    requires m > 0 && a * x + m * y == 1
    requires x1 == CMod(x, m) && r == CMod(x1 + m, m)
    ensures 0 <= r < m && (a * r) % m == 1 % m
  {
    var q1, q2 := CDiv(x, m), CDiv(x1 + m, m);
    var k := 1 - q1 - q2;
    ShiftByMultiples(x, x1, r, m, q1, q2);
    ScaleShift(a, x, m, y, k, r);
    ModMultiple(1, m, a * k - y);
  }

  /** Two truncated remainders taken in turn move x by whole multiples of m. */
  lemma ShiftByMultiples(x: int, x1: int, r: int, m: int, q1: int, q2: int)
    requires x == m * q1 + x1 && x1 + m == m * q2 + r
    ensures r == x + m * (1 - q1 - q2)
  {
  }

  /** Multiplying x + m * k by a, where a * x + m * y == 1. */
  lemma ScaleShift(a: int, x: int, m: int, y: int, k: int, r: int)
    requires a * x + m * y == 1 && r == x + m * k
    ensures a * r == 1 + m * (a * k - y)
  {
    assert a * r == a * x + a * (m * k);
  }

  /** mod_inverse as the C code computes it: in (x % m + m) % m the
      int64_t x meets the uint64_t m, so x is first converted to unsigned
      (x mod 2^64), and the sum wraps mod 2^64. */
  function ModInverseAsWritten(a: nat, m: nat): (r: nat)
    requires m > 0 || a != 1
    ensures IsGcd(1, a, m) ==> r < m
    ensures !IsGcd(1, a, m) ==> r == 0
  {
    var b := ExtendedGcd(a, m);
    ExtendedGcdOne(a, m);
    if b.g != 1 then 0 else ((b.x % TWO_64) % m + m) % TWO_64 % m
  }

  /** C's quotient and remainder of two non-negative numbers, read off
      a * b + r with r < b. */
  lemma CQuotient(a: nat, b: nat, q: nat, r: nat)
    requires b > 0 && a == b * q + r && r < b
    ensures CDiv(a, b) == q && CMod(a, b) == r
  {
    DivModUnique(a, b, q, r);
  }

  /** The chain of calls extended_gcd(17, 3120) makes, evaluated step by
      step: the coefficients are x = -367, y = 2. */
  lemma ExtendedGcdDemo()
    ensures ExtendedGcd(17, 3120) == Bezout(1, -367, 2)
  {
    ExtendedGcd3120And17();
    CQuotient(17, 3120, 0, 17);
  }

  lemma ExtendedGcd3120And17()
    ensures ExtendedGcd(3120, 17) == Bezout(1, 2, -367)
  {
    ExtendedGcd17And9();
    CQuotient(3120, 17, 183, 9);
  }

  lemma ExtendedGcd17And9()
    ensures ExtendedGcd(17, 9) == Bezout(1, -1, 2)
  {
    ExtendedGcd9And8();
    CQuotient(17, 9, 1, 8);
  }

  lemma ExtendedGcd9And8()
    ensures ExtendedGcd(9, 8) == Bezout(1, 1, -1)
  {
    assert ExtendedGcd(8, 1) == Bezout(1, 0, 1) by {
      CQuotient(8, 1, 8, 0);
    }
    CQuotient(9, 8, 1, 1);
  }

  /** For the demo's e = 17 and phi = 3120, extended_gcd yields x = -367;
      the unsigned remainder then gives 2769, which is not an inverse of
      17 (17 * 2769 leaves 273 modulo 3120). */
  lemma ModInverseAsWrittenWrong(e: nat, phi: nat)
    requires e == 17 && phi == 3120
    ensures ModInverseAsWritten(e, phi) == 2769 && (e * 2769) % phi == 273
  {
    ExtendedGcdDemo();
    UnsignedRemainderDemo(-367, phi, 2769);
    ModInverseAsWrittenOf(e, phi, -367, 2, 2769);
  }

  /** The arithmetic of mod_inverse's last line for x = -367, m = 3120. */
  lemma UnsignedRemainderDemo(x: int, m: nat, r: nat)
    requires x == -367 && m == 3120 && r == 2769
    ensures ((x % TWO_64) % m + m) % TWO_64 % m == r
    ensures (17 * r) % m == 273
  {
    assert -367 % TWO_64 == TWO_64 - 367;
    assert (TWO_64 - 367) % 3120 == 2769 by {
      assert TWO_64 - 367 == 3120 * 5912417972342804 + 2769;
    }
    assert (2769 + 3120) % TWO_64 == 5889;
  }

  lemma ModInverseAsWrittenOf(a: nat, m: nat, x: int, y: int, r: nat)
    requires m > 0 && ExtendedGcd(a, m) == Bezout(1, x, y)
    requires r == ((x % TWO_64) % m + m) % TWO_64 % m
    ensures ModInverseAsWritten(a, m) == r
  {
  }

  lemma ModInverseOf(a: nat, m: nat, x: int, y: int)
    requires m > 0 && ExtendedGcd(a, m) == Bezout(1, x, y)
    ensures ModInverse(a, m) == CMod(CMod(x, m) + m, m)
  {
  }

  /** With the remainder taken in signed arithmetic, the demo's private
      exponent is 2753, a true inverse of 17 modulo 3120. */
  lemma ModInverseDemo()
    ensures ModInverse(17, 3120) == 2753 && (17 * 2753) % 3120 == 1
  {
    ExtendedGcdDemo();
    ModInverseOf(17, 3120, -367, 2);
    assert CMod(-367, 3120) == -367 by {
      assert Abs(-367) % Abs(3120) == 367;
    }
    assert CMod(2753, 3120) == 2753 by {
      assert Abs(2753) % Abs(3120) == 2753;
    }
  }

  /** One round of mod_pow's loop keeps result * base^exp fixed modulo m. */
  lemma ModPowStep(r: int, b: int, e: nat, m: int)
    requires m > 0
    ensures ((if e % 2 == 1 then (r * b) % m else r) * Pow((b * b) % m, e / 2)) % m
         == (r * Pow(b, e)) % m
  {
    var h := e / 2;
    PowMod(b * b, h, m);
    PowSquare(b, h);
    if e % 2 == 1 {
      assert Pow(b, e) == b * Pow(b, 2 * h);
      assert r * Pow(b, e) == (r * b) * Pow(b * b, h);
      ModMod(r * b, m);
      MulCong((r * b) % m, Pow((b * b) % m, h), r * b, Pow(b * b, h), m);
    } else {
      assert e == 2 * h;
      ModMod(r, m);
      MulCong(r, Pow((b * b) % m, h), r, Pow(b * b, h), m);
    }
  }

  /** mod_pow: base^exp mod m by square-and-multiply over the bits of exp.
      The 128-bit products in the C code never wrap, since both factors
      are below m. For exp == 0 the loop does not run and the result is
      1, which differs from base^0 mod m only when m == 1. */
  method ModPow(base: nat, exp: nat, m: nat) returns (result: nat)
    requires 0 < m < TWO_64 && base < TWO_64 && exp < TWO_64
    ensures exp > 0 || m > 1 ==> result == Pow(base, exp) % m
    ensures exp == 0 ==> result == 1
  {
    result := 1;
    var b := base % m;
    var e: nat := exp;
    PowMod(base, exp, m);
    while e > 0
      invariant b < m && (result * Pow(b, e)) % m == Pow(base, exp) % m
      invariant result < m || e > 0 || exp == 0
      invariant exp == 0 ==> result == 1
      decreases e
    {
      ModPowStep(result, b, e, m);
      if e % 2 == 1 {
        result := (result * b) % m;
      }
      e := e / 2;
      b := (b * b) % m;
    }
    assert Pow(b, 0) == 1 && result * 1 == result;
    if exp > 0 || m > 1 {
      assert result < m;
      DivModUnique(result, m, 0, result);
    }
  }

  /** An odd number has no even divisor. */
  lemma OddNoEvenDivisor(n: int, d: int)
    requires n % 2 == 1 && d > 0 && d % 2 == 0
    ensures n % d != 0
  {
    if n % d == 0 {
      assert n == 2 * ((d / 2) * (n / d));
      MultipleDivisible(2, (d / 2) * (n / d));
    }
  }

  /** A number with no divisor in [2, i), where i * i exceeds it, is prime:
      a divisor d >= i would pair with a cofactor below i. */
  lemma NoSmallFactor(n: int, i: int)
    requires n >= 2 && i >= 2 && i * i > n
    requires forall d :: 2 <= d < i ==> n % d != 0
    ensures Prime(n)
  {
    forall d | i <= d < n ensures n % d != 0 {
      if n % d == 0 {
        CofactorSmall(n, d, i);
      }
    }
  }

  /** A divisor d >= i of n < i * i leaves a cofactor in [2, i) that
      divides n as well. */
  lemma CofactorSmall(n: int, d: int, i: int)
    requires n >= 2 && i >= 2 && i * i > n && i <= d < n && n % d == 0
    ensures 2 <= n / d < i && n % (n / d) == 0
  {
    var k := n / d;
    assert n == d * k;
    if k <= 1 {
      MulMono(d, k, d, 1);
    }
    if k >= i {
      MulMono(i, i, d, k);
    }
    DivModUnique(n, k, d, 0);
  }

  /** Multiplication of non-negative numbers is monotone in both factors. */
  lemma MulMono(a: int, b: int, c: int, d: int)
    requires 0 <= a <= c && b <= d && (0 <= b || a == c)
    ensures a * b <= c * d
  {
  }

  /** (2^32 - 1)^2, the largest n for which is_prime's loop test i * i <= n
      never sees a wrapped product before it stops. */
  const SQUARE_BOUND: int := 0xFFFF_FFFE_0000_0001

  /** is_prime: trial division by 2 and then by odd i while i * i <= n,
      with i * i taken modulo 2^64 as uint64_t arithmetic does. Up to
      SQUARE_BOUND it decides primality. Above it, once i passes 2^32 the
      wrapped square can stay at most n, so the loop keeps dividing past
      the square root: a number it calls prime is still prime, but it can
      reach i == n and call a prime composite. */
  method IsPrime(n: nat) returns (r: bool)
    requires n < TWO_64
    ensures r ==> Prime(n)
    ensures n <= SQUARE_BOUND ==> (r <==> Prime(n))
  {
    if n < 2 {
      return false;
    }
    if n == 2 {
      return true;
    }
    if n % 2 == 0 {
      return false;
    }
    var i := 3;
    while Square64(i) <= n
      invariant 3 <= i <= n && i % 2 == 1
      invariant forall d :: 2 <= d < i ==> n % d != 0
      invariant n < SQUARE_BOUND ==> i < TWO_32
      decreases n - i
    {
      if n % i == 0 {
        if n <= SQUARE_BOUND {
          SmallDivisorComposite(n, i);
        }
        return false;
      }
      StepBound(n, i);
      OddNoEvenDivisor(n, i + 1);
      i := i + 2;
    }
    ExitSquare(n, i);
    NoSmallFactor(n, i);
    return true;
  }

  /** i * i in uint64_t arithmetic. */
  function Square64(i: int): int
  {
    (i * i) % TWO_64
  }

  /** One turn of is_prime's loop keeps i odd, at most n, and below 2^32
      when n < SQUARE_BOUND. */
  lemma StepBound(n: nat, i: nat)
    requires 3 <= i <= n && i % 2 == 1 && n % 2 == 1 && n % i != 0
    requires Square64(i) <= n
    requires n < SQUARE_BOUND ==> i < TWO_32
    ensures i + 2 <= n
    ensures n < SQUARE_BOUND ==> i + 2 < TWO_32
  {
    if n < SQUARE_BOUND {
      SquareNoWrap(i);
      if i >= TWO_32 - 1 {
        MulMono(TWO_32 - 1, TWO_32 - 1, i, i);
      }
    }
  }

  /** When is_prime's loop stops, i * i exceeds n, wrapped or not. */
  lemma ExitSquare(n: nat, i: nat)
    requires n < TWO_64 && Square64(i) > n
    ensures i * i > n
  {
    if i < TWO_32 {
      SquareNoWrap(i);
    } else {
      MulMono(TWO_32, TWO_32, i, i);
    }
  }

  /** Below 2^32 a square fits in 64 bits, so it does not wrap. */
  lemma SquareNoWrap(i: nat)
    requires i < TWO_32
    ensures Square64(i) == i * i
  {
    MulMono(i, i, TWO_32 - 1, TWO_32 - 1);
    DivModUnique(i * i, TWO_64, 0, i * i);
  }

  /** While is_prime's loop runs on n <= SQUARE_BOUND, the divisor it finds
      is a proper one, so n is composite. */
  lemma SmallDivisorComposite(n: nat, i: nat)
    requires n <= SQUARE_BOUND && 3 <= i <= n && n % i == 0
    requires Square64(i) <= n
    requires forall d :: 2 <= d < i ==> n % d != 0
    requires n < SQUARE_BOUND ==> i < TWO_32
    ensures !Prime(n)
  {
    if n == SQUARE_BOUND {
      assert n % 3 == 0;
      assert i == 3;
    } else {
      SquareNoWrap(i);
      MulMono(2, i, i, i);
      assert i < n;
    }
  }

  datatype PublicKey = PublicKey(n: nat, e: nat)
  datatype PrivateKey = PrivateKey(n: nat, d: nat)

  /** generate_keypair with the corrected mod_inverse: p = 61, q = 53,
      n = p * q, phi = (p - 1) * (q - 1), e = 17 and d the inverse of e
      modulo phi. */
  function GenerateKeypair(): (keys: (PublicKey, PrivateKey))
    ensures keys.0.n == keys.1.n == 61 * 53 && keys.0.e == 17
    ensures keys.1.d < 60 * 52 && (keys.0.e * keys.1.d) % (60 * 52) == 1
    ensures keys.1.d == 2753
  {
    var p, q := 61, 53;
    var n, phi, e := p * q, (p - 1) * (q - 1), 17;
    assert phi == 3120;
    ModInverseDemo();
    var d := ModInverse(e, phi);
    assert d == 2753;
    (PublicKey(n, e), PrivateKey(n, d))
  }

  /** generate_keypair as written: mod_inverse's unsigned remainder gives
      d = 2769, which is not an inverse of e modulo phi. */
  function GenerateKeypairAsWritten(): (keys: (PublicKey, PrivateKey))
    ensures keys.0.n == keys.1.n == 61 * 53 && keys.0.e == 17
    ensures keys.1.d == 2769 && (keys.0.e * keys.1.d) % (60 * 52) == 273
  {
    var p, q := 61, 53;
    var n, phi, e := p * q, (p - 1) * (q - 1), 17;
    ModInverseAsWrittenWrong(e, phi);
    var d := ModInverseAsWritten(e, phi);
    (PublicKey(n, e), PrivateKey(n, d))
  }

  /** rsa_encrypt: plaintext^e mod n. */
  method Encrypt(plaintext: nat, pub: PublicKey) returns (c: nat)
    requires 0 < pub.n < TWO_64 && plaintext < TWO_64 && pub.e < TWO_64
    ensures pub.e > 0 || pub.n > 1 ==> c == Pow(plaintext, pub.e) % pub.n
  {
    c := ModPow(plaintext, pub.e, pub.n);
  }

  /** rsa_decrypt: ciphertext^d mod n. */
  method Decrypt(ciphertext: nat, priv: PrivateKey) returns (m: nat)
    requires 0 < priv.n < TWO_64 && ciphertext < TWO_64 && priv.d < TWO_64
    ensures priv.d > 0 || priv.n > 1 ==> m == Pow(ciphertext, priv.d) % priv.n
  {
    m := ModPow(ciphertext, priv.d, priv.n);
  }

  /** rsa_sign: message^d mod n. */
  method Sign(message: nat, priv: PrivateKey) returns (s: nat)
    requires 0 < priv.n < TWO_64 && message < TWO_64 && priv.d < TWO_64
    ensures priv.d > 0 || priv.n > 1 ==> s == Pow(message, priv.d) % priv.n
  {
    s := ModPow(message, priv.d, priv.n);
  }

  /** rsa_verify: whether signature^e mod n equals the message. */
  method Verify(message: nat, signature: nat, pub: PublicKey) returns (ok: bool)
    requires 0 < pub.n < TWO_64 && signature < TWO_64 && pub.e < TWO_64
    ensures pub.e > 0 || pub.n > 1 ==> (ok <==> Pow(signature, pub.e) % pub.n == message)
  {
    var decrypted := ModPow(signature, pub.e, pub.n);
    ok := decrypted == message;
  }
}
