/** Base64 as in Cryptography/examples/04_base64.c, the alphabet and '='
    padding of section 4 of RFC 4648. Input bytes are uint8_t (bv8); the
    bit accumulator is a uint32_t (bv32). The reference definitions work
    group by group: three bytes make four 6-bit values, four 6-bit values
    make three bytes; encode and decode are proved to produce them. */
module Base64 {
  import Common

  const UPPER: string := "ABCDEFGHIJKLMNOPQRSTUVWXYZ"
  const LOWER: string := "abcdefghijklmnopqrstuvwxyz"
  const DIGITS: string := "0123456789"

  /** base64_chars: the 64-character alphabet. */
  const TABLE: string := UPPER + LOWER + DIGITS + "+/"

  /** A 6-bit value: an index into the alphabet. */
  type Sextet = x: bv8 | x < 64

  /** An alphabet position as a 6-bit value. */
  function ToSextet(v: int): Sextet
    requires 0 <= v < 64
  {
    v as bv8
  }

  /** The alphabet character for v. */
  function Letter(v: Sextet): char
  {
    TABLE[v]
  }

  /** base64_decode_char: the alphabet position of c, or -1 for a
      character outside the alphabet. */
  function DecodeChar(c: char): (v: int)
    ensures -1 <= v < 64
  {
    if 'A' <= c <= 'Z' then c as int - 'A' as int
    else if 'a' <= c <= 'z' then c as int - 'a' as int + 26
    else if '0' <= c <= '9' then c as int - '0' as int + 52
    else if c == '+' then 62
    else if c == '/' then 63
    else -1
  }

  /** The alphabet is A-Z, a-z, 0-9, '+' and '/', in that order. */
  lemma TableAt(i: int)
    requires 0 <= i < 64
    ensures i < 26 ==> TABLE[i] as int == 'A' as int + i
    ensures 26 <= i < 52 ==> TABLE[i] as int == 'a' as int + i - 26
    ensures 52 <= i < 62 ==> TABLE[i] as int == '0' as int + i - 52
    ensures i == 62 ==> TABLE[i] == '+'
    ensures i == 63 ==> TABLE[i] == '/'
  {
    if i < 52 {
      TableLetter(i);
    } else {
      TableRest(i);
    }
  }

  lemma TableLetter(i: int)
    requires 0 <= i < 52
    ensures i < 26 ==> TABLE[i] as int == 'A' as int + i
    ensures 26 <= i ==> TABLE[i] as int == 'a' as int + i - 26
  {
    var t1 := UPPER + LOWER;
    assert |UPPER| == 26 && |LOWER| == 26 && TABLE[i] == t1[i];
    if i < 26 {
      UpperAt(i);
    } else {
      LowerAt(i - 26);
    }
  }

  lemma TableRest(i: int)
    requires 52 <= i < 64
    ensures i < 62 ==> TABLE[i] as int == '0' as int + i - 52
    ensures i == 62 ==> TABLE[i] == '+'
    ensures i == 63 ==> TABLE[i] == '/'
  {
    var t2 := UPPER + LOWER + DIGITS;
    assert |UPPER| == 26 && |LOWER| == 26 && |DIGITS| == 10 && |t2| == 62;
    if i < 62 {
      assert TABLE[i] == DIGITS[i - 52];
      DigitAt(i - 52);
    }
  }

  lemma UpperAt(i: int)
    requires 0 <= i < 26
    ensures UPPER[i] as int == 'A' as int + i
  {
  }

  lemma LowerAt(i: int)
    requires 0 <= i < 26
    ensures LOWER[i] as int == 'a' as int + i
  {
  }

  lemma DigitAt(i: int)
    requires 0 <= i < 10
    ensures DIGITS[i] as int == '0' as int + i
  {
  }

  /** decode_char inverts the alphabet. */
  lemma DecodeCharTable(i: int)
    requires 0 <= i < 64
    ensures DecodeChar(TABLE[i]) == i
  {
    TableAt(i);
  }

  /** decode_char gives -1 exactly for characters outside the alphabet,
      and otherwise the position of c in it. */
  lemma DecodeCharInvalid(c: char)
    ensures DecodeChar(c) == -1 <==> c !in TABLE
    ensures DecodeChar(c) >= 0 ==> TABLE[DecodeChar(c)] == c
  {
    var v := DecodeChar(c);
    if v >= 0 {
      TableAt(v);
      assert TABLE[v] == c;
    } else if c in TABLE {
      var i :| 0 <= i < 64 && TABLE[i] == c;
      DecodeCharTable(i);
    }
  }

  /** The first value of a group of three bytes: the top 6 bits of a. */
  function Value0(a: bv8): Sextet
  {
    a >> 2
  }

  /** The second value: the low 2 bits of a, the top 4 of b. */
  function Value1(a: bv8, b: bv8): Sextet
  {
    ((a & 3) << 4) | (b >> 4)
  }

  /** The third value: the low 4 bits of b, the top 2 of c. */
  function Value2(b: bv8, c: bv8): Sextet
  {
    ((b & 15) << 2) | (c >> 6)
  }

  /** The fourth value: the low 6 bits of c. */
  function Value3(c: bv8): Sextet
  {
    c & 63
  }

  /** Three bytes as four 6-bit values, most significant bits first. */
  function Group3(a: bv8, b: bv8, c: bv8): seq<Sextet>
  {
    [Value0(a), Value1(a, b), Value2(b, c), Value3(c)]
  }

  /** The 6-bit values base64 encodes s into: four per group of three
      bytes, and for a last group of one or two bytes two or three values,
      the missing low bits taken as zero. */
  function Sextets(s: seq<bv8>): (r: seq<Sextet>)
    ensures |r| == 4 * (|s| / 3) + (if |s| % 3 == 0 then 0 else |s| % 3 + 1)
  {
    if |s| >= 3 then Group3(s[0], s[1], s[2]) + Sextets(s[3..])
    else if |s| == 2 then [Value0(s[0]), Value1(s[0], s[1]), Value2(s[1], 0)]
    else if |s| == 1 then [Value0(s[0]), Value1(s[0], 0)]
    else []
  }

  /** The alphabet characters of a run of 6-bit values. */
  function Chars(vs: seq<Sextet>): (r: string)
    ensures |r| == |vs| && forall k :: 0 <= k < |vs| ==> r[k] == Letter(vs[k])
  {
    seq(|vs|, k requires 0 <= k < |vs| => Letter(vs[k]))
  }

  /** The number of '=' that brings n characters up to a multiple of 4. */
  function PadCount(n: nat): (p: nat)
    ensures p < 4 && (n + p) % 4 == 0
  {
    (4 - n % 4) % 4
  }

  /** The reference encoding: the characters of the 6-bit values, then
      '=' padding. */
  function Encode(s: seq<bv8>): (r: string)
  {
    var vs := Sextets(s);
    Chars(vs) + seq(PadCount(|vs|), _ => '=')
  }

  /** The encoding is 4 * ceil(n / 3) characters, a multiple of 4, each
      from the alphabet or '='. */
  lemma EncodeShape(s: seq<bv8>)
    ensures |Encode(s)| == 4 * ((|s| + 2) / 3) && |Encode(s)| % 4 == 0
    ensures forall k :: 0 <= k < |Encode(s)| ==> Encode(s)[k] in TABLE || Encode(s)[k] == '='
  {
    EncodeLength(|s|, |Sextets(s)|);
    var vs := Sextets(s);
    forall k | 0 <= k < |vs|
      ensures Encode(s)[k] in TABLE
    {
      assert Encode(s)[k] == Letter(vs[k]);
    }
  }

  /** n bytes make 4 * ceil(n / 3) characters once padded. */
  lemma EncodeLength(n: nat, m: nat)
    requires m == 4 * (n / 3) + (if n % 3 == 0 then 0 else n % 3 + 1)
    ensures m + PadCount(m) == 4 * ((n + 2) / 3)
  {
  }

  /** The first byte of a group of four values: all 6 bits of a, the top
      2 of b. */
  function Byte0(a: Sextet, b: Sextet): bv8
  {
    (a as bv8 << 2) | (b >> 4)
  }

  /** The second byte: the low 4 bits of b, the top 4 of c. */
  function Byte1(b: Sextet, c: Sextet): bv8
  {
    ((b as bv8 & 15) << 4) | (c >> 2)
  }

  /** The third byte: the low 2 bits of c, all 6 of d. */
  function Byte2(c: Sextet, d: Sextet): bv8
  {
    ((c as bv8 & 3) << 6) | d
  }

  /** Four 6-bit values as three bytes. */
  function Group4(a: Sextet, b: Sextet, c: Sextet, d: Sextet): seq<bv8>
  {
    [Byte0(a, b), Byte1(b, c), Byte2(c, d)]
  }

  /** The bytes a run of 6-bit values decodes to: three per group of four,
      and one or two for a last group of two or three; a single leftover
      value gives nothing. */
  function Bytes(vs: seq<Sextet>): (r: seq<bv8>)
    ensures |r| == 3 * (|vs| / 4) + (if |vs| % 4 == 0 then 0 else |vs| % 4 - 1)
  {
    if |vs| >= 4 then Group4(vs[0], vs[1], vs[2], vs[3]) + Bytes(vs[4..])
    else if |vs| == 3 then [Byte0(vs[0], vs[1]), Byte1(vs[1], vs[2])]
    else if |vs| == 2 then [Byte0(vs[0], vs[1])]
    else []
  }

  /** The 6-bit values base64_decode takes from input: those of the
      alphabet characters before the first '=', other characters
      skipped. */
  function Values(input: string): (r: seq<Sextet>)
    ensures |r| <= |input|
  {
    if input == [] || input[0] == '=' then []
    else
      var v := DecodeChar(input[0]);
      (if v < 0 then [] else [ToSextet(v)]) + Values(input[1..])
  }

  /** The reference decoding. */
  function Decode(input: string): seq<bv8>
  {
    Bytes(Values(input))
  }

  /** Decoding a group of three bytes' values gives the bytes back. */
  lemma Group4Group3(a: bv8, b: bv8, c: bv8)
    ensures var g := Group3(a, b, c); Group4(g[0], g[1], g[2], g[3]) == [a, b, c]
  {
  }

  /** Bytes undoes Sextets. */
  lemma {:induction false} BytesSextets(s: seq<bv8>)
    ensures Bytes(Sextets(s)) == s
  {
    if |s| >= 3 {
      var g := Group3(s[0], s[1], s[2]);
      var vs := g + Sextets(s[3..]);
      assert vs[..4] == g && vs[4..] == Sextets(s[3..]);
      Group4Group3(s[0], s[1], s[2]);
      BytesSextets(s[3..]);
      assert s == [s[0], s[1], s[2]] + s[3..];
    } else if |s| == 2 {
      BytesTail2(s[0], s[1]);
      assert s == [s[0], s[1]];
    } else if |s| == 1 {
      BytesTail1(s[0]);
      assert s == [s[0]];
    }
  }

  /** A last group of two bytes decodes back from its three values. */
  lemma BytesTail2(a: bv8, b: bv8)
    ensures Bytes([Value0(a), Value1(a, b), Value2(b, 0)]) == [a, b]
  {
  }

  /** A last group of one byte decodes back from its two values. */
  lemma BytesTail1(a: bv8)
    ensures Bytes([Value0(a), Value1(a, 0)]) == [a]
  {
  }

  /** Reading back the alphabet characters of vs, followed by '=' padding,
      gives vs. */
  lemma {:induction false} ValuesChars(vs: seq<Sextet>, pad: nat)
    ensures Values(Chars(vs) + seq(pad, _ => '=')) == vs
  {
    var t := Chars(vs) + seq(pad, _ => '=');
    if vs == [] {
      assert t == seq(pad, _ => '=');
    } else {
      DecodeCharTable(vs[0] as int);
      assert t[0] == TABLE[vs[0]] && DecodeChar(t[0]) == vs[0] as int;
      assert t[0] != '=' by {
        assert DecodeChar('=') == -1;
      }
      assert ToSextet(vs[0] as int) == vs[0];
      assert t[1..] == Chars(vs[1..]) + seq(pad, _ => '=');
      ValuesChars(vs[1..], pad);
      assert Values(t) == [vs[0]] + Values(t[1..]);
    }
  }

  /** Decoding an encoding gives the original bytes back. */
  lemma DecodeEncode(s: seq<bv8>)
    ensures Decode(Encode(s)) == s
  {
    ValuesChars(Sextets(s), PadCount(|Sextets(s)|));
    BytesSextets(s);
  }

  /** The 6-bit values encode has written after reading the bytes of s,
      before the final partial value is flushed: whole groups, then one
      value for a trailing byte or two for a trailing pair. */
  function Emitted(s: seq<bv8>): (r: seq<Sextet>)
    ensures |r| == 4 * (|s| / 3) + |s| % 3
  {
    if |s| >= 3 then Group3(s[0], s[1], s[2]) + Emitted(s[3..])
    else if |s| == 2 then [Value0(s[0]), Value1(s[0], s[1])]
    else if |s| == 1 then [Value0(s[0])]
    else []
  }

  /** The values that reading byte b after s completes. */
  function NewSextets(s: seq<bv8>, b: bv8): seq<Sextet>
  {
    if |s| % 3 == 0 then [Value0(b)]
    else if |s| % 3 == 1 then [Value1(s[|s| - 1], b)]
    else [Value2(s[|s| - 1], b), Value3(b)]
  }

  /** Reading one more byte extends what was written. */
  lemma {:induction false} EmittedSnoc(s: seq<bv8>, b: bv8)
    ensures Emitted(s + [b]) == Emitted(s) + NewSextets(s, b)
  {
    var t := s + [b];
    if |s| >= 3 {
      var g := Group3(s[0], s[1], s[2]);
      assert t[3..] == s[3..] + [b];
      assert t[0] == s[0] && t[1] == s[1] && t[2] == s[2];
      assert Emitted(t) == g + Emitted(s[3..] + [b]);
      EmittedSnoc(s[3..], b);
      NewSextetsDrop3(s, b);
      assert Emitted(s) == g + Emitted(s[3..]);
    } else if |s| == 2 {
      assert s == [s[0], s[1]] && t == [s[0], s[1], b];
      EmittedTriple(s[0], s[1], b);
    } else if |s| == 1 {
      assert s == [s[0]] && t == [s[0], b];
      EmittedPair(s[0], b);
    } else {
      assert t == [b];
    }
  }

  lemma NewSextetsDrop3(s: seq<bv8>, b: bv8)
    requires |s| >= 3
    ensures NewSextets(s[3..], b) == NewSextets(s, b)
  {
    assert |s[3..]| % 3 == |s| % 3;
    if |s| > 3 {
      assert s[3..][|s| - 4] == s[|s| - 1];
    }
  }

  lemma EmittedTriple(x: bv8, y: bv8, b: bv8)
    ensures Emitted([x, y, b]) == Emitted([x, y]) + NewSextets([x, y], b)
  {
    assert [x, y, b][3..] == [];
  }

  lemma EmittedPair(x: bv8, b: bv8)
    ensures Emitted([x, b]) == Emitted([x]) + NewSextets([x], b)
  {
  }

  /** What the final flush adds: the last byte's leftover bits, padded with
      zero bits to a whole value. */
  function Flush(s: seq<bv8>): seq<Sextet>
  {
    if |s| % 3 == 0 then []
    else if |s| % 3 == 1 then [Value1(s[|s| - 1], 0)]
    else [Value2(s[|s| - 1], 0)]
  }

  lemma {:induction false} SextetsFlush(s: seq<bv8>)
    ensures Sextets(s) == Emitted(s) + Flush(s)
  {
    if |s| >= 3 {
      SextetsFlush(s[3..]);
      if |s| > 3 {
        assert s[3..][|s| - 4] == s[|s| - 1];
      }
    }
  }

  /** The 6-bit value of the accumulator at bit offset shift. */
  function Sext(buffer: bv32, shift: int): Sextet
    requires 0 <= shift <= 26
  {
    ((buffer >> shift) & 63) as bv8
  }

  /** The last value, padded out with zero bits: the accumulator's low bits
      moved up to fill 6 bits. */
  function PadBits(buffer: bv32, bits: int): Sextet
    requires 0 < bits < 6
  {
    ((buffer << (6 - bits)) & 63) as bv8
  }

  /** The low bits of the accumulator still to be written. */
  function Mask(bits: int): bv32
  {
    if bits == 2 then 3 else if bits == 4 then 15 else if bits == 6 then 63 else 0
  }

  /** The low bits of the accumulator are those of the last byte read. */
  ghost predicate Leftover(buffer: bv32, bits: int, last: bv8)
  {
    buffer & Mask(bits) == (last as bv32) & Mask(bits)
  }

  /** The accumulator holds the complete values pend[j..], highest
      first. */
  ghost predicate Pending(buffer: bv32, bits: int, pend: seq<Sextet>, j: int)
  {
    && 0 <= j <= |pend| <= j + 2 && 0 <= bits - 6 * (|pend| - j) < 6
    && (j < |pend| ==> Sext(buffer, bits - 6) == pend[j])
    && (j + 1 < |pend| ==> Sext(buffer, bits - 12) == pend[j + 1])
  }

  /** One byte shifted into the accumulator: the complete values now in
      it are the ones that byte completes, and its low bits are the byte's
      leftover bits. */
  ghost predicate EncodeStepOk(s: seq<bv8>, b: bv8, buffer: bv32, bits: int)
  {
    var nb := (buffer << 8) | (b as bv32);
    && bits + 8 - 6 * |NewSextets(s, b)| == 2 * ((|s| + 1) % 3)
    && Pending(nb, bits + 8, NewSextets(s, b), 0) && Leftover(nb, 2 * ((|s| + 1) % 3), b)
  }

  lemma StepBits(s: seq<bv8>, b: bv8, buffer: bv32, bits: int)
    requires bits == 2 * (|s| % 3)
    requires |s| > 0 ==> Leftover(buffer, bits, s[|s| - 1])
    ensures EncodeStepOk(s, b, buffer, bits)
  {
    if |s| % 3 == 0 {
      EncodeStep0(s, b, buffer, bits);
    } else if |s| % 3 == 1 {
      EncodeStep1(s, b, buffer, bits);
    } else {
      EncodeStep2(s, b, buffer, bits);
    }
  }

  lemma EncodeStep0(s: seq<bv8>, b: bv8, buffer: bv32, bits: int)
    requires |s| % 3 == 0 && bits == 0
    ensures EncodeStepOk(s, b, buffer, bits)
  {
    StepBits0(b, buffer);
    assert NewSextets(s, b) == [Value0(b)] && (|s| + 1) % 3 == 1;
  }

  lemma EncodeStep1(s: seq<bv8>, b: bv8, buffer: bv32, bits: int)
    requires |s| % 3 == 1 && bits == 2 && Leftover(buffer, 2, s[|s| - 1])
    ensures EncodeStepOk(s, b, buffer, bits)
  {
    StepBits1(s[|s| - 1], b, buffer);
    assert NewSextets(s, b) == [Value1(s[|s| - 1], b)] && (|s| + 1) % 3 == 2;
  }

  lemma EncodeStep2(s: seq<bv8>, b: bv8, buffer: bv32, bits: int)
    requires |s| % 3 == 2 && bits == 4 && Leftover(buffer, 4, s[|s| - 1])
    ensures EncodeStepOk(s, b, buffer, bits)
  {
    StepBits2(s[|s| - 1], b, buffer);
    assert NewSextets(s, b) == [Value2(s[|s| - 1], b), Value3(b)] && (|s| + 1) % 3 == 0;
  }

  lemma StepBits0(b: bv8, buffer: bv32)
    ensures Sext((buffer << 8) | (b as bv32), 2) == Value0(b)
    ensures Leftover((buffer << 8) | (b as bv32), 2, b)
  {
  }

  lemma StepBits1(a: bv8, b: bv8, buffer: bv32)
    requires buffer & 3 == (a as bv32) & 3
    ensures Sext((buffer << 8) | (b as bv32), 4) == Value1(a, b)
    ensures Leftover((buffer << 8) | (b as bv32), 4, b)
  {
  }

  lemma StepBits2(a: bv8, b: bv8, buffer: bv32)
    requires buffer & 15 == (a as bv32) & 15
    ensures Sext((buffer << 8) | (b as bv32), 6) == Value2(a, b)
    ensures Sext((buffer << 8) | (b as bv32), 0) == Value3(b)
  {
  }

  /** The flushed value is the last byte's leftover bits padded with zero
      bits. */
  lemma FlushBits(s: seq<bv8>, buffer: bv32, bits: int)
    requires |s| % 3 != 0 && bits == 2 * (|s| % 3)
    requires Leftover(buffer, bits, s[|s| - 1])
    ensures Flush(s) == [PadBits(buffer, bits)]
  {
    if bits == 2 {
      FlushBits2(s[|s| - 1], buffer);
    } else {
      FlushBits4(s[|s| - 1], buffer);
    }
  }

  lemma FlushBits2(a: bv8, buffer: bv32)
    requires buffer & 3 == (a as bv32) & 3
    ensures PadBits(buffer, 2) == Value1(a, 0)
  {
  }

  lemma FlushBits4(a: bv8, buffer: bv32)
    requires buffer & 15 == (a as bv32) & 15
    ensures PadBits(buffer, 4) == Value2(a, 0)
  {
  }

  /** A longer input has written at least as many values. */
  lemma EmittedLonger(s: seq<bv8>, i: nat)
    requires i <= |s|
    ensures |Emitted(s[..i])| <= |Emitted(s)| <= |Sextets(s)|
  {
    SextetsFlush(s);
  }

  /** The inner loop of base64_encode: while 6 bits or more are
      collected, the highest 6 are written out as an alphabet character. */
  method EmitPending(output: array<char>, len0: nat, buffer: bv32, bits0: int, ghost pend: seq<Sextet>)
    returns (len: nat, bits: int)
    requires Pending(buffer, bits0, pend, 0) && len0 + |pend| <= output.Length
    modifies output
    ensures len == len0 + |pend| && bits == bits0 - 6 * |pend|
    ensures forall k :: 0 <= k < len0 ==> output[k] == old(output[k])
    ensures forall k :: len0 <= k < len ==> output[k] == Letter(pend[k - len0])
    ensures Common.SameFrom(old(output[..]), output[..], len)
  {
    len, bits := len0, bits0;
    while bits >= 6
      invariant len0 <= len && Pending(buffer, bits, pend, len - len0)
      invariant bits == bits0 - 6 * (len - len0)
      invariant forall k :: 0 <= k < len0 ==> output[k] == old(output[k])
      invariant forall k :: len0 <= k < len ==> output[k] == Letter(pend[k - len0])
      invariant Common.SameFrom(old(output[..]), output[..], len)
    {
      bits := bits - 6;
      output[len] := Letter(Sext(buffer, bits));
      len := len + 1;
    }
  }

  /** What the accumulator and output hold once the bytes s are read. */
  ghost predicate EncodedSoFar(output: array<char>, len: nat, buffer: bv32, bits: int, s: seq<bv8>)
    reads output
  {
    && bits == 2 * (|s| % 3) && len == |Emitted(s)| <= output.Length
    && (forall k :: 0 <= k < len ==> output[k] == Letter(Emitted(s)[k]))
    && (|s| > 0 ==> Leftover(buffer, bits, s[|s| - 1]))
  }

  /** One pass of base64_encode's outer loop: byte b is shifted into the
      accumulator and the values it completes are written. */
  method EncodeByte(output: array<char>, len0: nat, buffer0: bv32, bits0: int, b: bv8, ghost s: seq<bv8>)
    returns (len: nat, buffer: bv32, bits: int)
    requires EncodedSoFar(output, len0, buffer0, bits0, s)
    requires |Emitted(s + [b])| <= output.Length
    modifies output
    ensures EncodedSoFar(output, len, buffer, bits, s + [b])
    ensures len0 <= len && Common.SameFrom(old(output[..]), output[..], len)
  {
    ghost var pend := NewSextets(s, b);
    EmittedSnoc(s, b);
    StepBits(s, b, buffer0, bits0);
    buffer := (buffer0 << 8) | (b as bv32);
    len, bits := EmitPending(output, len0, buffer, bits0 + 8, pend);
    ghost var e := Emitted(s + [b]);
    forall k | 0 <= k < len
      ensures output[k] == Letter(e[k])
    {
      if k >= len0 {
        assert e[k] == pend[k - len0];
      }
    }
  }

  /** The main loop of base64_encode: every byte of input shifted in, and
      the complete values written. */
  method EncodeBytes(input: seq<bv8>, output: array<char>, buffer0: bv32)
    returns (len: nat, buffer: bv32, bits: int)
    requires |Emitted(input)| <= output.Length
    modifies output
    ensures EncodedSoFar(output, len, buffer, bits, input)
    ensures Common.SameFrom(old(output[..]), output[..], len)
  {
    len := 0;
    buffer := buffer0;
    bits := 0;
    var i := 0;
    ghost var read: seq<bv8> := [];
    while i < |input|
      invariant 0 <= i <= |input| && read == input[..i]
      invariant EncodedSoFar(output, len, buffer, bits, read)
      invariant Common.SameFrom(old(output[..]), output[..], len)
    {
      EmittedNext(input, i);
      ghost var mid, len0 := output[..], len;
      len, buffer, bits := EncodeByte(output, len, buffer, bits, input[i], read);
      Common.SameFromTrans(old(output[..]), mid, output[..], len0, len);
      read := read + [input[i]];
      i := i + 1;
    }
    Common.TakeAll(input);
  }

  /** The padding loop of base64_encode: '=' until the length is a
      multiple of 4. */
  method PadOut(output: array<char>, len0: nat) returns (len: nat)
    requires len0 + PadCount(len0) < output.Length
    modifies output
    ensures len == len0 + PadCount(len0)
    ensures forall k :: 0 <= k < len0 ==> output[k] == old(output[k])
    ensures forall k :: len0 <= k < len ==> output[k] == '='
    ensures Common.SameFrom(old(output[..]), output[..], len)
  {
    len := len0;
    while len % 4 != 0
      invariant len0 <= len <= len0 + PadCount(len0)
      invariant forall k :: 0 <= k < len0 ==> output[k] == old(output[k])
      invariant forall k :: len0 <= k < len ==> output[k] == '='
      invariant Common.SameFrom(old(output[..]), output[..], len)
      decreases len0 + PadCount(len0) - len
    {
      output[len] := '=';
      len := len + 1;
    }
  }

  /** The flush step of base64_encode: leftover bits, padded out with zero
      bits, are written as one last character, so the output holds the
      characters of all of input's values. */
  method FlushInto(input: seq<bv8>, output: array<char>, len0: nat, buffer: bv32, bits: int) returns (len: nat)
    requires EncodedSoFar(output, len0, buffer, bits, input) && |Sextets(input)| < output.Length
    modifies output
    ensures len == |Sextets(input)| && forall k :: 0 <= k < len ==> output[k] == Letter(Sextets(input)[k])
    ensures len0 <= len && Common.SameFrom(old(output[..]), output[..], len)
  {
    SextetsFlush(input);
    len := len0;
    if bits > 0 {
      FlushBits(input, buffer, bits);
      output[len] := Letter(PadBits(buffer, bits));
      len := len + 1;
    }
  }

  /** The first i + 1 bytes of s are the first i and then s[i], and have
      written no more values than all of s. */
  lemma EmittedNext(s: seq<bv8>, i: nat)
    requires i < |s|
    ensures s[..i + 1] == s[..i] + [s[i]]
    ensures |Emitted(s[..i] + [s[i]])| <= |Emitted(s)|
  {
    Common.TakeNext(s, i);
    EmittedLonger(s, i + 1);
  }

  /** The characters of input's values followed by '=' padding are its
      encoding. */
  lemma PaddedIsEncoding(out: string, input: seq<bv8>)
    requires var vs := Sextets(input);
      && |out| == |vs| + PadCount(|vs|)
      && (forall k :: 0 <= k < |vs| ==> out[k] == Letter(vs[k]))
      && (forall k :: |vs| <= k < |out| ==> out[k] == '=')
    ensures out == Encode(input)
  {
  }

  /** base64_encode: each byte is shifted into the accumulator, and
      every complete 6 bits are written out as an alphabet character; the
      leftover bits are flushed padded with zero bits, then '=' brings the
      length to a multiple of 4, and a NUL ends the string. buffer0 is the
      accumulator's initial value, which the source leaves uninitialised:
      the result does not depend on it. */
  method EncodeInto(input: seq<bv8>, output: array<char>, buffer0: bv32) returns (len: nat)
    requires output.Length > |Encode(input)|
    modifies output
    ensures len == |Encode(input)| && output[..len] == Encode(input) && output[len] == '\0'
    ensures output[len + 1..] == old(output[len + 1..])
  {
    SextetsFlush(input);
    EncodeShape(input);
    ghost var before := output[..];
    var buffer, bits;
    len, buffer, bits := EncodeBytes(input, output, buffer0);
    ghost var mid, len0 := output[..], len;
    len := FlushInto(input, output, len, buffer, bits);
    Common.SameFromTrans(before, mid, output[..], len0, len);
    mid, len0 := output[..], len;
    len := PadOut(output, len);
    Common.SameFromTrans(before, mid, output[..], len0, len);
    PaddedIsEncoding(output[..len], input);
    mid := output[..];
    output[len] := '\0';
    Common.SameFromWrite(before, mid, len, '\0');
    assert output[..] == mid[len := '\0'];
    Common.SameFromSuffix(before, output[..], len + 1);
  }

  /** The bytes that reading value v after the values vs completes. */
  function NewBytes(vs: seq<Sextet>, v: Sextet): seq<bv8>
  {
    if |vs| % 4 == 0 then []
    else if |vs| % 4 == 1 then [Byte0(vs[|vs| - 1], v)]
    else if |vs| % 4 == 2 then [Byte1(vs[|vs| - 1], v)]
    else [Byte2(vs[|vs| - 1], v)]
  }

  /** Reading one more value extends the decoded bytes. */
  lemma {:induction false} BytesSnoc(vs: seq<Sextet>, v: Sextet)
    ensures Bytes(vs + [v]) == Bytes(vs) + NewBytes(vs, v)
  {
    if |vs| >= 4 {
      BytesSnoc(vs[4..], v);
      BytesSnocGroup(vs, v);
    } else {
      BytesSnocShort(vs, v);
    }
  }

  /** The step of BytesSnoc past a whole group of four values. */
  lemma BytesSnocGroup(vs: seq<Sextet>, v: Sextet)
    requires |vs| >= 4
    requires Bytes(vs[4..] + [v]) == Bytes(vs[4..]) + NewBytes(vs[4..], v)
    ensures Bytes(vs + [v]) == Bytes(vs) + NewBytes(vs, v)
  {
    var t := vs + [v];
    var g := Group4(vs[0], vs[1], vs[2], vs[3]);
    Common.DropSnoc(vs, 4, v);
    assert t[0] == vs[0] && t[1] == vs[1] && t[2] == vs[2] && t[3] == vs[3];
    assert Bytes(t) == g + Bytes(vs[4..] + [v]);
    NewBytesDrop4(vs, v);
    var rest, n := Bytes(vs[4..]), NewBytes(vs, v);
    assert Bytes(vs) == g + rest;
    assert Bytes(t) == g + (rest + n);
    Common.ConcatAssoc(g, rest, n);
  }

  lemma NewBytesDrop4(vs: seq<Sextet>, v: Sextet)
    requires |vs| >= 4
    ensures NewBytes(vs[4..], v) == NewBytes(vs, v)
  {
    assert |vs[4..]| % 4 == |vs| % 4;
    if |vs| > 4 {
      assert vs[4..][|vs| - 5] == vs[|vs| - 1];
    }
  }

  /** BytesSnoc for fewer than four values. */
  lemma BytesSnocShort(vs: seq<Sextet>, v: Sextet)
    requires |vs| < 4
    ensures Bytes(vs + [v]) == Bytes(vs) + NewBytes(vs, v)
  {
    if |vs| == 3 {
      BytesSnoc3(vs, v);
    } else if |vs| == 2 {
      BytesSnoc2(vs, v);
    } else if |vs| == 1 {
      BytesSnoc1(vs, v);
    } else {
      assert vs + [v] == [v];
    }
  }

  lemma BytesSnoc3(vs: seq<Sextet>, v: Sextet)
    requires |vs| == 3
    ensures Bytes(vs + [v]) == Bytes(vs) + NewBytes(vs, v)
  {
    var t := vs + [v];
    assert t[0] == vs[0] && t[1] == vs[1] && t[2] == vs[2] && t[3] == v && |t[4..]| == 0;
  }

  lemma BytesSnoc2(vs: seq<Sextet>, v: Sextet)
    requires |vs| == 2
    ensures Bytes(vs + [v]) == Bytes(vs) + NewBytes(vs, v)
  {
    var t := vs + [v];
    assert t[0] == vs[0] && t[1] == vs[1] && t[2] == v;
  }

  lemma BytesSnoc1(vs: seq<Sextet>, v: Sextet)
    requires |vs| == 1
    ensures Bytes(vs + [v]) == Bytes(vs) + NewBytes(vs, v)
  {
    var t := vs + [v];
    assert t[0] == vs[0] && t[1] == v;
  }

  /** Values reads a prefix free of '=' independently of what follows. */
  lemma {:induction false} ValuesAppend(a: string, b: string)
    requires '=' !in a
    ensures Values(a + b) == Values(a) + Values(b)
  {
    if a != [] {
      assert (a + b)[0] == a[0] && (a + b)[1..] == a[1..] + b;
      ValuesAppend(a[1..], b);
    } else {
      assert a + b == b;
    }
  }

  /** Values splits at any point before the first '='. */
  lemma ValuesSplit(input: string, i: nat)
    requires i <= |input| && '=' !in input[..i]
    ensures Values(input) == Values(input[..i]) + Values(input[i..])
  {
    Common.SplitAt(input, i);
    ValuesAppend(input[..i], input[i..]);
  }

  /** An '=' at position i, with none before it, ends the values. */
  lemma ValuesStop(input: string, i: nat)
    requires i < |input| && '=' !in input[..i] && input[i] == '='
    ensures Values(input) == Values(input[..i])
  {
    ValuesSplit(input, i);
    assert Values(input[i..]) == [];
  }

  /** Reading character i of input, when no '=' comes before or at it:
      an alphabet character adds its value, any other character adds
      nothing. */
  lemma ValuesNext(input: string, i: nat)
    requires i < |input| && '=' !in input[..i] && input[i] != '='
    ensures '=' !in input[..i + 1]
    ensures DecodeChar(input[i]) < 0 ==> Values(input[..i + 1]) == Values(input[..i])
    ensures DecodeChar(input[i]) >= 0 ==>
      Values(input[..i + 1]) == Values(input[..i]) + [ToSextet(DecodeChar(input[i]))]
  {
    Common.TakeNext(input, i);
    ValuesAppend(input[..i], [input[i]]);
    assert [input[i]][1..] == [];
  }

  /** The bytes of the values before position i + 1 fit in the bytes of
      the whole input. */
  lemma DecodeRoom(input: string, i: nat)
    requires i < |input| && '=' !in input[..i + 1]
    ensures |Bytes(Values(input[..i + 1]))| <= |Decode(input)|
  {
    ValuesSplit(input, i + 1);
    BytesLonger(Values(input[..i + 1]), Values(input));
  }

  /** More values decode to at least as many bytes. */
  lemma BytesLonger(vs: seq<Sextet>, ws: seq<Sextet>)
    requires |vs| <= |ws|
    ensures |Bytes(vs)| <= |Bytes(ws)|
  {
  }

  /** The bits base64_decode holds back after n values: 6 * n mod 8. */
  function DecodeBitsAfter(n: nat): int
  {
    if n % 4 == 0 then 0 else if n % 4 == 1 then 6 else if n % 4 == 2 then 4 else 2
  }

  /** The byte of the accumulator at bit offset shift. */
  function Byte(buffer: bv32, shift: int): bv8
    requires 0 <= shift <= 24
  {
    ((buffer >> shift) & 0xFF) as bv8
  }

  /** One value shifted into the accumulator: when 8 bits or more are
      collected, the byte above the leftover bits is the one that value
      completes, and the leftover bits are the value's low bits. */
  ghost predicate DecodeStepOk(vs: seq<Sextet>, v: Sextet, buffer: bv32, bits: int)
  {
    var nb := (buffer << 6) | (v as bv32);
    && (bits + 6 >= 8 <==> |NewBytes(vs, v)| == 1) && |NewBytes(vs, v)| <= 1
    && bits + 6 - 8 * |NewBytes(vs, v)| == DecodeBitsAfter(|vs| + 1)
    && (bits + 6 >= 8 ==> 2 <= bits <= 26 && Byte(nb, bits - 2) == NewBytes(vs, v)[0])
    && Leftover(nb, DecodeBitsAfter(|vs| + 1), v)
  }

  lemma DecodeBits(vs: seq<Sextet>, v: Sextet, buffer: bv32, bits: int)
    requires bits == DecodeBitsAfter(|vs|)
    requires |vs| > 0 ==> Leftover(buffer, bits, vs[|vs| - 1])
    ensures DecodeStepOk(vs, v, buffer, bits)
  {
    var nb := (buffer << 6) | (v as bv32);
    if |vs| % 4 == 0 {
      DecodeBits0(v, buffer);
      assert DecodeBitsAfter(|vs| + 1) == 6 && bits == 0 && NewBytes(vs, v) == [];
    } else if |vs| % 4 == 1 {
      DecodeStep1(vs, v, buffer, bits);
    } else if |vs| % 4 == 2 {
      DecodeStep2(vs, v, buffer, bits);
    } else {
      DecodeStep3(vs, v, buffer, bits);
    }
  }

  lemma DecodeStep1(vs: seq<Sextet>, v: Sextet, buffer: bv32, bits: int)
    requires |vs| % 4 == 1 && bits == 6 && Leftover(buffer, 6, vs[|vs| - 1])
    ensures DecodeStepOk(vs, v, buffer, bits)
  {
    var nb := (buffer << 6) | (v as bv32);
    var a := vs[|vs| - 1];
    DecodeBits1(a, v, buffer);
    assert DecodeBitsAfter(|vs| + 1) == 4;
    assert NewBytes(vs, v) == [Byte0(a, v)];
  }

  lemma DecodeStep2(vs: seq<Sextet>, v: Sextet, buffer: bv32, bits: int)
    requires |vs| % 4 == 2 && bits == 4 && Leftover(buffer, 4, vs[|vs| - 1])
    ensures DecodeStepOk(vs, v, buffer, bits)
  {
    var a := vs[|vs| - 1];
    DecodeBits2(a, v, buffer);
    assert DecodeBitsAfter(|vs| + 1) == 2;
    assert NewBytes(vs, v) == [Byte1(a, v)];
  }

  lemma DecodeStep3(vs: seq<Sextet>, v: Sextet, buffer: bv32, bits: int)
    requires |vs| % 4 == 3 && bits == 2 && Leftover(buffer, 2, vs[|vs| - 1])
    ensures DecodeStepOk(vs, v, buffer, bits)
  {
    var a := vs[|vs| - 1];
    DecodeBits3(a, v, buffer);
    assert DecodeBitsAfter(|vs| + 1) == 0;
    assert NewBytes(vs, v) == [Byte2(a, v)];
  }

  lemma DecodeBits0(v: Sextet, buffer: bv32)
    ensures Leftover((buffer << 6) | (v as bv32), 6, v)
  {
  }

  lemma DecodeBits1(a: Sextet, v: Sextet, buffer: bv32)
    requires buffer & 63 == (a as bv32) & 63
    ensures Byte((buffer << 6) | (v as bv32), 4) == Byte0(a, v)
    ensures Leftover((buffer << 6) | (v as bv32), 4, v)
  {
  }

  lemma DecodeBits2(a: Sextet, v: Sextet, buffer: bv32)
    requires buffer & 15 == (a as bv32) & 15
    ensures Byte((buffer << 6) | (v as bv32), 2) == Byte1(a, v)
    ensures Leftover((buffer << 6) | (v as bv32), 2, v)
  {
  }

  lemma DecodeBits3(a: Sextet, v: Sextet, buffer: bv32)
    requires buffer & 3 == (a as bv32) & 3
    ensures Byte((buffer << 6) | (v as bv32), 0) == Byte2(a, v)
    ensures Leftover((buffer << 6) | (v as bv32), 0, v)
  {
  }

  /** What the accumulator and output hold once the values vs are read. */
  ghost predicate DecodedSoFar(output: array<bv8>, len: nat, buffer: bv32, bits: int, vs: seq<Sextet>)
    reads output
  {
    && bits == DecodeBitsAfter(|vs|) && len == |Bytes(vs)| <= output.Length
    && (forall k :: 0 <= k < len ==> output[k] == Bytes(vs)[k])
    && (|vs| > 0 ==> Leftover(buffer, bits, vs[|vs| - 1]))
  }

  /** The output holds the bytes of vs + [v] once it holds those of vs
      followed by the bytes v completes. */
  lemma DecodedNext(output: array<bv8>, len0: nat, len: nat, vs: seq<Sextet>, v: Sextet)
    requires len0 == |Bytes(vs)| && len == len0 + |NewBytes(vs, v)| <= output.Length
    requires Bytes(vs + [v]) == Bytes(vs) + NewBytes(vs, v)
    requires forall k :: 0 <= k < len0 ==> output[k] == Bytes(vs)[k]
    requires forall k :: len0 <= k < len ==> output[k] == NewBytes(vs, v)[k - len0]
    ensures forall k :: 0 <= k < len ==> output[k] == Bytes(vs + [v])[k]
  {
    Common.HoldsConcat(output, Bytes(vs), NewBytes(vs, v));
  }

  /** The body of base64_decode's loop for an alphabet character: its
      value is shifted into the accumulator, and once 8 bits are collected
      the highest 8 are written out as a byte. */
  method DecodeValue(output: array<bv8>, len0: nat, buffer0: bv32, bits0: int, v: Sextet, ghost vs: seq<Sextet>)
    returns (len: nat, buffer: bv32, bits: int)
    requires DecodedSoFar(output, len0, buffer0, bits0, vs)
    requires |Bytes(vs + [v])| <= output.Length
    modifies output
    ensures DecodedSoFar(output, len, buffer, bits, vs + [v])
    ensures len0 <= len && Common.SameFrom(old(output[..]), output[..], len)
  {
    BytesSnoc(vs, v);
    DecodeBits(vs, v, buffer0, bits0);
    buffer := (buffer0 << 6) | (v as bv32);
    bits := bits0 + 6;
    len := len0;
    if bits >= 8 {
      bits := bits - 8;
      output[len] := Byte(buffer, bits);
      len := len + 1;
    }
    DecodedNext(output, len0, len, vs, v);
  }

  /** Once the values of all of input are read, the output's prefix is its
      decoding. */
  lemma DecodedAll(output: array<bv8>, len: nat, buffer: bv32, bits: int, input: string, vs: seq<Sextet>)
    requires DecodedSoFar(output, len, buffer, bits, vs) && vs == Values(input)
    ensures len <= output.Length && output[..len] == Decode(input)
  {
    Common.HoldsPrefix(output, Decode(input));
  }

  /** One pass of base64_decode's loop for a character other than '=': a
      character outside the alphabet is skipped, any other is decoded by
      DecodeValue. */
  method DecodeStep(input: string, i: nat, output: array<bv8>, len0: nat, buffer0: bv32, bits0: int, ghost vs0: seq<Sextet>)
    returns (len: nat, buffer: bv32, bits: int, ghost vs: seq<Sextet>)
    requires i < |input| && input[i] != '=' && '=' !in input[..i] && vs0 == Values(input[..i])
    requires DecodedSoFar(output, len0, buffer0, bits0, vs0) && |Decode(input)| <= output.Length
    modifies output
    ensures '=' !in input[..i + 1] && vs == Values(input[..i + 1])
    ensures DecodedSoFar(output, len, buffer, bits, vs)
    ensures len0 <= len && Common.SameFrom(old(output[..]), output[..], len)
  {
    ValuesNext(input, i);
    var value := DecodeChar(input[i]);
    if value < 0 {
      return len0, buffer0, bits0, vs0;
    }
    DecodeRoom(input, i);
    len, buffer, bits := DecodeValue(output, len0, buffer0, bits0, ToSextet(value), vs0);
    vs := vs0 + [ToSextet(value)];
  }

  /** base64_decode: characters are read up to the first '=' (input holds
      the characters before the string's NUL); those outside the alphabet
      are skipped, the rest shifted into the accumulator 6 bits at a time,
      and every complete 8 bits written out as a byte. */
  method DecodeInto(input: string, output: array<bv8>) returns (len: nat)
    requires |Decode(input)| <= output.Length
    modifies output
    ensures len <= output.Length && output[..len] == Decode(input)
    ensures output[len..] == old(output[len..])
  {
    len := 0;
    var buffer: bv32 := 0;
    var bits := 0;
    var i := 0;
    ghost var vs: seq<Sextet> := [];
    while i < |input|
      invariant i <= |input| && '=' !in input[..i] && vs == Values(input[..i])
      invariant DecodedSoFar(output, len, buffer, bits, vs)
      invariant Common.SameFrom(old(output[..]), output[..], len)
    {
      if input[i] == '=' {
        ValuesStop(input, i);
        break;
      }
      ghost var mid, len0 := output[..], len;
      len, buffer, bits, vs := DecodeStep(input, i, output, len, buffer, bits, vs);
      Common.SameFromTrans(old(output[..]), mid, output[..], len0, len);
      i := i + 1;
    }
    if i == |input| {
      Common.TakeAll(input);
    }
    DecodedAll(output, len, buffer, bits, input, vs);
    Common.SameFromSuffix(old(output[..]), output[..], len);
  }
}
