/** Salted password hashing and verification of
    Cryptography/examples/03_password_hashing.c. Strings are the bytes of a C
    string before its NUL; hashes are uint32_t values kept as integers below
    2^32. */
module PasswordHashing {
  import opened Common
  import opened NumberTheory

  /** The size of hash_password's `combined` buffer, NUL included. */
  const COMBINED_SIZE: nat := 256

  // ---------------------------------------------------------------- djb2

  /** djb2_hash: the loop over data computes the djb2 hash of its bytes,
      read as unsigned values. */
  method Djb2Hash(data: seq<bv8>) returns (hash: nat)
    ensures hash == Djb2(ByteValues(data))
  {
    hash := 5381;
    for i := 0 to |data|
      invariant hash == Djb2(ByteValues(data)[..i])
    {
      assert ByteValues(data)[..i + 1][..i] == ByteValues(data)[..i];
      MixIsMul33(hash, data[i] as int);
      hash := Mix(hash, data[i] as int);
    }
    assert ByteValues(data)[..|data|] == ByteValues(data);
  }

  // ------------------------------------------------------- hex formatting

  /** The character sprintf's "%x" writes for a digit value below 16. */
  function HexDigit(v: nat): (c: char)
    requires v < 16
    ensures IsHexDigit(c)
  {
    if v < 10 then ('0' as int + v) as char else ('a' as int + v - 10) as char
  }

  predicate IsHexDigit(c: char)
  {
    '0' <= c <= '9' || 'a' <= c <= 'f'
  }

  /** The value of a lowercase hex digit. */
  function DigitValue(c: char): (v: nat)
    ensures v < 16
  {
    if '0' <= c <= '9' then c as int - '0' as int
    else if 'a' <= c <= 'f' then c as int - 'a' as int + 10
    else 0
  }

  lemma DigitRoundTrip(v: nat)
    requires v < 16
    ensures DigitValue(HexDigit(v)) == v
  {
  }

  /** The last n hex digits of h, most significant first, zero-padded:
      "%0nx" for a value below 16^n. */
  function Hex(h: nat, n: nat): (r: seq<char>)
    ensures |r| == n
    ensures forall i :: 0 <= i < n ==> IsHexDigit(r[i])
  {
    if n == 0 then [] else Hex(h / 16, n - 1) + [HexDigit(h % 16)]
  }

  /** Reading a string of hex digits back as a number. */
  function ParseHex(s: seq<char>): nat
  {
    if |s| == 0 then 0 else ParseHex(s[..|s| - 1]) * 16 + DigitValue(s[|s| - 1])
  }

  function Pow16(n: nat): (p: nat)
    ensures p > 0
  {
    if n == 0 then 1 else 16 * Pow16(n - 1)
  }

  /** Parsing the n digits gives back h mod 16^n. */
  lemma {:induction false} ParseHexOfHex(h: nat, n: nat)
    ensures ParseHex(Hex(h, n)) == h % Pow16(n)
  {
    if n > 0 {
      var s := Hex(h, n);
      assert s[..n - 1] == Hex(h / 16, n - 1);
      ParseHexOfHex(h / 16, n - 1);
      DigitRoundTrip(h % 16);
      DigitSplit(h, Pow16(n - 1));
    }
  }

  /** h mod 16p from its last hex digit and the rest mod p. */
  lemma DigitSplit(h: nat, p: nat)
    requires p > 0
    ensures (h / 16 % p) * 16 + h % 16 == h % (16 * p)
  {
    var q := h / 16;
    var r := h % 16;
    var t := q / p;
    var s := q % p;
    assert h == 16 * q + r;
    assert q == p * t + s;
    assert h == (16 * p) * t + (16 * s + r);
    assert 0 <= 16 * s + r < 16 * p;
    DivModUnique(h, 16 * p, t, 16 * s + r);
  }

  /** sprintf(out, "%08x", h): eight lowercase hex digits. */
  function Hex8(h: nat): (r: seq<char>)
    requires h < TWO_32
    ensures |r| == 8
  {
    Hex(h, 8)
  }

  /** The eight digits read back give the hash: the format loses nothing. */
  lemma Hex8RoundTrip(h: nat)
    requires h < TWO_32
    ensures ParseHex(Hex8(h)) == h
  {
    ParseHexOfHex(h, 8);
    Pow16Eight();
    DivModUnique(h, TWO_32, 0, h);
  }

  lemma Pow16Eight()
    ensures Pow16(8) == TWO_32
  {
    assert Pow16(2) == 256;
    assert Pow16(4) == 256 * 256 by {
      assert Pow16(4) == 16 * 16 * Pow16(2);
    }
    assert Pow16(8) == 16 * 16 * 16 * 16 * Pow16(4);
  }

  /** So two hashes print the same only when they are equal. */
  lemma Hex8Injective(a: nat, b: nat)
    requires a < TWO_32 && b < TWO_32
    ensures Hex8(a) == Hex8(b) <==> a == b
  {
    Hex8RoundTrip(a);
    Hex8RoundTrip(b);
  }

  // ------------------------------------------------------ hash_password

  /** snprintf(combined, 256, "%s%s", salt, password): the salt, then the
      password, cut to the 255 bytes that fit before the NUL. */
  function Combined(password: seq<bv8>, salt: seq<bv8>): (r: seq<bv8>)
    ensures |r| <= COMBINED_SIZE - 1
    ensures |salt + password| < COMBINED_SIZE ==> r == salt + password
    ensures |salt + password| >= COMBINED_SIZE ==> r == (salt + password)[..COMBINED_SIZE - 1]
  {
    var s := salt + password;
    if |s| < COMBINED_SIZE then s else s[..COMBINED_SIZE - 1]
  }

  /** The string hash_password writes. */
  function HashOf(password: seq<bv8>, salt: seq<bv8>): (r: seq<char>)
    ensures |r| == 8 && forall i :: 0 <= i < 8 ==> IsHexDigit(r[i])
  {
    Hex8(Djb2(ByteValues(Combined(password, salt))))
  }

  /** hash_password: djb2 of the combined buffer, printed as eight hex
      digits. */
  method HashPassword(password: seq<bv8>, salt: seq<bv8>) returns (hash: seq<char>)
    ensures hash == HashOf(password, salt)
    ensures ParseHex(hash) == Djb2(ByteValues(Combined(password, salt)))
  {
    var combined := Combined(password, salt);
    var h := Djb2Hash(combined);
    hash := Hex8(h);
    Hex8RoundTrip(h);
  }

  /** verify_password: recomputes the hash and compares it, byte for byte,
      with the stored string. */
  method VerifyPassword(password: seq<bv8>, salt: seq<bv8>, stored: seq<char>) returns (ok: bool)
    ensures ok <==> stored == HashOf(password, salt)
  {
    var computed := HashPassword(password, salt);
    ok := computed == stored;
  }

  /** A stored hash made by hash_password is accepted for another password
      exactly when the two combined buffers hash alike. */
  lemma VerifyAcceptsIff(password: seq<bv8>, other: seq<bv8>, salt: seq<bv8>)
    ensures HashOf(password, salt) == HashOf(other, salt)
        <==> Djb2(ByteValues(Combined(password, salt))) == Djb2(ByteValues(Combined(other, salt)))
  {
    Hex8Injective(Djb2(ByteValues(Combined(password, salt))), Djb2(ByteValues(Combined(other, salt))));
  }

  /** Only the first 255 bytes of salt ‖ password count: two passwords that
      agree up to there get the same hash, whatever follows. */
  lemma TruncatedPasswordsCollide(password: seq<bv8>, other: seq<bv8>, salt: seq<bv8>)
    requires |salt + password| >= COMBINED_SIZE && |salt + other| >= COMBINED_SIZE
    requires (salt + password)[..COMBINED_SIZE - 1] == (salt + other)[..COMBINED_SIZE - 1]
    ensures HashOf(password, salt) == HashOf(other, salt)
  {
  }

  // ---------------------------------------------- constant_time_compare

  /** The accumulated result: the OR of a[i] XOR b[i] over every index. */
  function DiffBits(a: seq<bv8>, b: seq<bv8>): bv8
    requires |a| == |b|
  {
    if |a| == 0 then 0 else DiffBits(a[..|a| - 1], b[..|b| - 1]) | (a[|a| - 1] ^ b[|b| - 1])
  }

  /** The OR is zero exactly when no byte differs. */
  lemma {:induction false} DiffBitsZero(a: seq<bv8>, b: seq<bv8>)
    requires |a| == |b|
    ensures DiffBits(a, b) == 0 <==> a == b
  {
    if |a| > 0 {
      var n := |a| - 1;
      DiffBitsZero(a[..n], b[..n]);
      OrZero(DiffBits(a[..n], b[..n]), a[n], b[n]);
      if a[..n] == b[..n] && a[n] == b[n] {
        assert a == a[..n] + [a[n]] && b == b[..n] + [b[n]];
      }
    }
  }

  lemma OrZero(acc: bv8, x: bv8, y: bv8)
    ensures acc | (x ^ y) == 0 <==> acc == 0 && x == y
  {
  }

  /** constant_time_compare: 0 when the lengths differ; otherwise 1 exactly
      when the strings are equal, found by OR-ing the XOR of every pair of
      bytes without leaving early. `inspected` counts the pairs looked at. */
  method ConstantTimeCompare(a: seq<bv8>, b: seq<bv8>) returns (r: int, ghost inspected: nat)
    ensures r == 0 || r == 1
    ensures r == 1 <==> a == b
    ensures |a| == |b| ==> inspected == |a|
  {
    inspected := 0;
    if |a| != |b| {
      return 0, inspected;
    }
    var result: bv8 := 0;
    for i := 0 to |a|
      invariant result == DiffBits(a[..i], b[..i])
      invariant inspected == i
    {
      assert a[..i + 1][..i] == a[..i] && b[..i + 1][..i] == b[..i];
      result := result | (a[i] ^ b[i]);
      inspected := inspected + 1;
    }
    assert a[..|a|] == a && b[..|b|] == b;
    DiffBitsZero(a, b);
    r := if result == 0 then 1 else 0;
  }
}
