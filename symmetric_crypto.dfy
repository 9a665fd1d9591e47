/** The two toy ciphers of Cryptography/examples/02_symmetric_crypto.c: a
    repeating-key XOR over a byte buffer and a Caesar shift over a
    NUL-terminated string, both applied in place. */
module SymmetricCrypto {
  import opened Common

  // ---------------------------------------------------------------- XOR

  /** Byte i of the XOR cipher's output: the input byte XOR key byte
      i mod key_len. */
  function Xor(data: seq<bv8>, key: seq<bv8>): (r: seq<bv8>)
    requires |data| > 0 ==> |key| > 0
    ensures |r| == |data|
  {
    seq(|data|, i requires 0 <= i < |data| => data[i] ^ key[i % |key|])
  }

  /** xor_encrypt_decrypt: XORs data[0..len) with the key repeated; the
      bytes from len on are left alone. */
  method XorEncryptDecrypt(data: array<bv8>, len: nat, key: seq<bv8>)
    requires len <= data.Length && (len > 0 ==> |key| > 0)
    modifies data
    ensures data[..len] == Xor(old(data[..len]), key)
    ensures data[len..] == old(data[len..])
  {
    ghost var before := data[..];
    for i := 0 to len
      invariant forall k :: 0 <= k < i ==> data[k] == before[k] ^ key[k % |key|]
      invariant forall k :: i <= k < data.Length ==> data[k] == before[k]
    {
      data[i] := data[i] ^ key[i % |key|];
    }
    assert data[..len] == Xor(before[..len], key);
  }

  /** The same call decrypts: XOR with the same key twice gives the data back. */
  lemma XorTwice(data: seq<bv8>, key: seq<bv8>)
    requires |data| > 0 ==> |key| > 0
    ensures Xor(Xor(data, key), key) == data
  {
    var once := Xor(data, key);
    var twice := Xor(once, key);
    forall i | 0 <= i < |data| ensures twice[i] == data[i] {
      XorSelfCancels(data[i], key[i % |key|]);
    }
  }

  lemma XorSelfCancels(x: bv8, y: bv8)
    ensures (x ^ y) ^ y == x
  {
  }

  // ------------------------------------------------------- substitution

  predicate IsLower(c: char) { 'a' <= c <= 'z' }
  predicate IsUpper(c: char) { 'A' <= c <= 'Z' }

  /** One character of substitution_encrypt: a letter moves shift places
      within its case, through C's `%` (which keeps the sign of a negative
      dividend); anything else is unchanged. */
  function ShiftChar(c: char, shift: int): (r: char)
    ensures !IsLower(c) && !IsUpper(c) ==> r == c
  {
    if IsLower(c) then
      var m := CMod(c as int - 'a' as int + shift, 26);
      ('a' as int + m) as char
    else if IsUpper(c) then
      var m := CMod(c as int - 'A' as int + shift, 26);
      ('A' as int + m) as char
    else c
  }

  /** When the shifted position is not negative (shift >= 0 always is), a
      letter stays a letter of the same case. */
  lemma ShiftKeepsCase(c: char, shift: int)
    requires shift >= 0
    ensures IsLower(c) ==> IsLower(ShiftChar(c, shift))
    ensures IsUpper(c) ==> IsUpper(ShiftChar(c, shift))
    ensures IsLower(ShiftChar(c, shift)) ==> IsLower(c)
    ensures IsUpper(ShiftChar(c, shift)) ==> IsUpper(c)
  {
  }

  /** Shifting by 26 places leaves every character as it is. */
  lemma ShiftFullTurn(c: char)
    ensures ShiftChar(c, 26) == c
  {
  }

  /** A lowercase letter under a non-negative shift: its alphabet position
      moves forward mod 26. */
  lemma ShiftLower(c: char, a: int)
    requires IsLower(c) && a >= 0
    ensures IsLower(ShiftChar(c, a))
    ensures ShiftChar(c, a) as int - 'a' as int == (c as int - 'a' as int + a) % 26
  {
  }

  /** The same for an uppercase letter. */
  lemma ShiftUpper(c: char, a: int)
    requires IsUpper(c) && a >= 0
    ensures IsUpper(ShiftChar(c, a))
    ensures ShiftChar(c, a) as int - 'A' as int == (c as int - 'A' as int + a) % 26
  {
  }

  /** Two non-negative shifts add up. */
  lemma ShiftCompose(c: char, a: int, b: int)
    requires a >= 0 && b >= 0
    ensures ShiftChar(ShiftChar(c, a), b) == ShiftChar(c, a + b)
  {
    if IsLower(c) {
      ShiftComposeLower(c, a, b);
    } else if IsUpper(c) {
      ShiftComposeUpper(c, a, b);
    }
  }

  lemma ShiftComposeLower(c: char, a: int, b: int)
    requires IsLower(c) && a >= 0 && b >= 0
    ensures ShiftChar(ShiftChar(c, a), b) == ShiftChar(c, a + b)
  {
    var d := ShiftChar(c, a);
    ShiftLower(c, a);
    ShiftLower(d, b);
    ShiftLower(c, a + b);
    ModAddMod(c as int - 'a' as int + a, b);
    assert ShiftChar(d, b) as int == ShiftChar(c, a + b) as int;
  }

  lemma ShiftComposeUpper(c: char, a: int, b: int)
    requires IsUpper(c) && a >= 0 && b >= 0
    ensures ShiftChar(ShiftChar(c, a), b) == ShiftChar(c, a + b)
  {
    var d := ShiftChar(c, a);
    ShiftUpper(c, a);
    ShiftUpper(d, b);
    ShiftUpper(c, a + b);
    ModAddMod(c as int - 'A' as int + a, b);
    assert ShiftChar(d, b) as int == ShiftChar(c, a + b) as int;
  }

  lemma ModAddMod(x: nat, b: nat)
    ensures ((x % 26) + b) % 26 == (x + b) % 26
  {
    assert x == 26 * (x / 26) + x % 26;
    assert x + b == ((x % 26) + b) + 26 * (x / 26);
    ModMultiple((x % 26) + b, x / 26);
  }

  lemma ModMultiple(y: nat, m: nat)
    ensures (y + 26 * m) % 26 == y % 26
  {
    var q := y / 26;
    var r := y % 26;
    assert y + 26 * m == 26 * (q + m) + r;
  }

  /** A whole multiple of 26 added to a non-negative shift changes nothing. */
  lemma ShiftPeriod(c: char, a: int, m: nat)
    requires a >= 0
    ensures ShiftChar(c, a + 26 * m) == ShiftChar(c, a)
  {
    if IsLower(c) {
      ModMultiple(c as int - 'a' as int + a, m);
    } else if IsUpper(c) {
      ModMultiple(c as int - 'A' as int + a, m);
    }
  }

  /** The string substitution_encrypt produces: every character shifted. */
  function ShiftText(t: seq<char>, shift: int): (r: seq<char>)
    ensures |r| == |t|
  {
    seq(|t|, i requires 0 <= i < |t| => ShiftChar(t[i], shift))
  }

  /** substitution_encrypt: shifts each character before the terminating NUL
      in place; the NUL and what follows it are untouched. */
  method SubstitutionEncrypt(text: array<char>, shift: int)
    requires '\0' in text[..]
    modifies text
    ensures '\0' in text[..] && StrLen(text[..]) == StrLen(old(text[..]))
    ensures text[..StrLen(old(text[..]))] == ShiftText(old(text[..])[..StrLen(old(text[..]))], shift)
    ensures text[StrLen(old(text[..]))..] == old(text[..])[StrLen(old(text[..]))..]
  {
    ghost var before := text[..];
    ghost var n := StrLen(before);
    var i := 0;
    while text[i] != '\0'
      invariant 0 <= i <= n
      invariant forall k :: 0 <= k < i ==> text[k] == ShiftChar(before[k], shift)
      invariant forall k :: i <= k < text.Length ==> text[k] == before[k]
      decreases n - i
    {
      text[i] := ShiftChar(text[i], shift);
      i := i + 1;
    }
    assert text[..n] == ShiftText(before[..n], shift);
    assert text[n..] == before[n..];
    SameLength(before, text[..], n);
  }

  /** A string whose NUL stayed where it was and whose earlier characters are
      not NUL has the same length. */
  lemma SameLength(a: seq<char>, b: seq<char>, n: nat)
    requires '\0' in a && n == StrLen(a)
    requires |b| == |a| && b[n..] == a[n..]
    requires forall k :: 0 <= k < n ==> b[k] != '\0'
    ensures '\0' in b && StrLen(b) == n
  {
    assert b[n] == a[n];
    if n > 0 {
      assert b[1..][n - 1..] == a[1..][n - 1..];
      SameLength(a[1..], b[1..], n - 1);
    }
  }

  /** substitution_decrypt: encrypts with 26 - shift. */
  method SubstitutionDecrypt(text: array<char>, shift: int)
    requires '\0' in text[..]
    modifies text
    ensures '\0' in text[..] && StrLen(text[..]) == StrLen(old(text[..]))
    ensures text[..StrLen(old(text[..]))] == ShiftText(old(text[..])[..StrLen(old(text[..]))], 26 - shift)
    ensures text[StrLen(old(text[..]))..] == old(text[..])[StrLen(old(text[..]))..]
  {
    SubstitutionEncrypt(text, 26 - shift);
  }

  /** For 0 <= shift <= 26 decryption undoes encryption. */
  lemma DecryptEncrypt(t: seq<char>, shift: int)
    requires 0 <= shift <= 26
    ensures ShiftText(ShiftText(t, shift), 26 - shift) == t
  {
    forall i | 0 <= i < |t| ensures ShiftChar(ShiftChar(t[i], shift), 26 - shift) == t[i] {
      ShiftCompose(t[i], shift, 26 - shift);
      ShiftFullTurn(t[i]);
    }
  }

  /** For a shift above 26 the reverse shift 26 - shift is negative, and C's
      `%` then lands below the alphabet: "z" encrypted with 30 is "d", and
      "d" decrypted with 30 is the backquote, not "z". */
  lemma DecryptAsWrittenFails()
    ensures ShiftText(ShiftText("z", 30), 26 - 30) == "`"
  {
    assert ShiftChar('z', 30) == 'd';
    assert ShiftChar('d', 26 - 30) == '`';
  }

  /** The reverse shift reduced into 1..26 first, as C would write it. */
  function ReverseShift(shift: int): (r: int)
    ensures shift >= 0 ==> 0 < r <= 26 && (shift + r) % 26 == 0
  {
    26 - CMod(shift, 26)
  }

  /** substitution_decrypt with the reverse shift reduced mod 26. */
  method SubstitutionDecryptFixed(text: array<char>, shift: int)
    requires '\0' in text[..]
    modifies text
    ensures '\0' in text[..] && StrLen(text[..]) == StrLen(old(text[..]))
    ensures text[..StrLen(old(text[..]))] == ShiftText(old(text[..])[..StrLen(old(text[..]))], ReverseShift(shift))
    ensures text[StrLen(old(text[..]))..] == old(text[..])[StrLen(old(text[..]))..]
  {
    SubstitutionEncrypt(text, ReverseShift(shift));
  }

  /** With the reduced reverse shift, decryption undoes encryption for every
      non-negative shift. */
  lemma DecryptFixedEncrypt(t: seq<char>, shift: int)
    requires shift >= 0
    ensures ShiftText(ShiftText(t, shift), ReverseShift(shift)) == t
  {
    var r := ReverseShift(shift);
    var m := (shift + r) / 26;
    assert shift + r == 26 + 26 * (m - 1);
    forall i | 0 <= i < |t| ensures ShiftChar(ShiftChar(t[i], shift), r) == t[i] {
      ShiftCompose(t[i], shift, r);
      ShiftPeriod(t[i], 26, m - 1);
      ShiftFullTurn(t[i]);
    }
  }
}
