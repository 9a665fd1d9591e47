/** Definitions shared by the models of the separate example programs. */
module Common {

  /** Limits of the C `int` type (32 bits, two's complement) used throughout the sources. */
  const INT_MIN: int := -0x8000_0000
  const INT_MAX: int := 0x7fff_ffff

  function IntRange(x: int): bool { INT_MIN <= x <= INT_MAX }

  /** An unsigned 8-bit value (uint8_t, unsigned char). */
  type Byte = x: int | 0 <= x < 256

  /** 2^32, one more than the largest uint32_t. */
  const TWO_32: int := 0x1_0000_0000

  /** 2^64, one more than the largest size_t. */
  const TWO_64: int := 0x1_0000_0000_0000_0000

  datatype Option<T> = None | Some(value: T)

  /** The outcome of an operation that may stop with an error message. */
  datatype Result<T> = Success(value: T) | Failure(error: string)

  /** DJB2: start from 5381 and fold each value c in as h * 33 + c, in
      unsigned 32-bit arithmetic (a negative c wraps as C converts it). */
  function Djb2(data: seq<int>): (h: nat)
    ensures h < TWO_32
    decreases |data|
  {
    if |data| == 0 then 5381 else (Djb2(data[..|data| - 1]) * 33 + data[|data| - 1]) % TWO_32
  }

  /** One djb2 step as the sources write it, `(h << 5) + h + c` on a
      uint32_t: the shift drops the high bits, and each sum is taken mod 2^32
      (a negative char wraps round). */
  function Mix(h: nat, c: int): (r: nat)
    requires h < TWO_32
    ensures r < TWO_32
  {
    ((h * 32) % TWO_32 + h + c) % TWO_32
  }

  /** The step is djb2's: h * 33 + c mod 2^32. */
  lemma MixIsMul33(h: nat, c: int)
    requires h < TWO_32
    ensures Mix(h, c) == (h * 33 + c) % TWO_32
  {
    var q := (h * 32) / TWO_32;
    assert h * 32 == TWO_32 * q + (h * 32) % TWO_32;
    assert h * 33 + c == ((h * 32) % TWO_32 + h + c) + TWO_32 * q;
    AddMultiple((h * 32) % TWO_32 + h + c, q);
  }

  lemma AddMultiple(x: int, q: int)
    ensures (x + TWO_32 * q) % TWO_32 == x % TWO_32
  {
    var r := x % TWO_32;
    var d := x / TWO_32;
    assert x + TWO_32 * q == TWO_32 * (d + q) + r;
  }

  /** Bytes read as unsigned values (uint8_t). */
  function ByteValues(s: seq<bv8>): (r: seq<int>)
    ensures |r| == |s|
    ensures forall i :: 0 <= i < |s| ==> 0 <= r[i] < 256
  {
    seq(|s|, i requires 0 <= i < |s| => s[i] as int)
  }

  /** Index of the first NUL: strlen. */
  function StrLen(s: seq<char>): (n: nat)
    requires '\0' in s
    ensures n < |s| && s[n] == '\0'
    ensures forall k :: 0 <= k < n ==> s[k] != '\0'
  {
    if s[0] == '\0' then 0 else 1 + StrLen(s[1..])
  }

  /** The <ctype.h> classes the lexers use, for the ASCII range. */
  predicate IsDigit(c: char) { '0' <= c <= '9' }
  predicate IsAlpha(c: char) { 'a' <= c <= 'z' || 'A' <= c <= 'Z' }
  predicate IsAlnum(c: char) { IsDigit(c) || IsAlpha(c) }

  /** Ascending order (duplicates allowed). */
  predicate Sorted(s: seq<int>)
  {
    forall i, j :: 0 <= i < j < |s| ==> s[i] <= s[j]
  }

  /** The sequence read back to front. */
  function Reverse<T>(s: seq<T>): (r: seq<T>)
    ensures |r| == |s|
    ensures forall i :: 0 <= i < |s| ==> r[i] == s[|s| - 1 - i]
  {
    if s == [] then [] else Reverse(s[1..]) + [s[0]]
  }

  lemma ReverseReverse<T>(s: seq<T>)
    ensures Reverse(Reverse(s)) == s
  {
    assert |Reverse(Reverse(s))| == |s|;
    forall i | 0 <= i < |s| ensures Reverse(Reverse(s))[i] == s[i] {
    }
  }

  /** Concatenation is associative. */
  lemma ConcatAssoc<T>(a: seq<T>, b: seq<T>, c: seq<T>)
    ensures a + (b + c) == (a + b) + c
  {
  }

  /** Dropping a prefix commutes with appending an element. */
  lemma DropSnoc<T>(s: seq<T>, k: nat, x: T)
    requires k <= |s|
    ensures (s + [x])[k..] == s[k..] + [x]
  {
  }

  /** A sequence is its first i elements followed by the rest. */
  lemma SplitAt<T>(s: seq<T>, i: nat)
    requires i <= |s|
    ensures s == s[..i] + s[i..]
  {
  }

  /** The first i + 1 elements are the first i and then element i. */
  lemma TakeNext<T>(s: seq<T>, i: nat)
    requires i < |s|
    ensures s[..i + 1] == s[..i] + [s[i]]
  {
  }

  /** An array prefix holding a followed by b holds a + b. */
  lemma HoldsConcat<T>(a: array<T>, x: seq<T>, y: seq<T>)
    requires |x| + |y| <= a.Length
    requires forall k :: 0 <= k < |x| ==> a[k] == x[k]
    requires forall k :: |x| <= k < |x| + |y| ==> a[k] == y[k - |x|]
    ensures forall k :: 0 <= k < |x| + |y| ==> a[k] == (x + y)[k]
  {
  }

  /** An array whose first |x| elements are those of x has x as that
      prefix. */
  lemma HoldsPrefix<T>(a: array<T>, x: seq<T>)
    requires |x| <= a.Length
    requires forall k :: 0 <= k < |x| ==> a[k] == x[k]
    ensures a[..|x|] == x
  {
  }

  /** b agrees with a, of the same length, from index lo on. */
  ghost predicate SameFrom<T>(a: seq<T>, b: seq<T>, lo: nat)
  {
    |a| == |b| && forall k :: lo <= k < |a| ==> a[k] == b[k]
  }

  /** Agreement from lo, then from hi >= lo, is agreement from hi. */
  lemma SameFromTrans<T>(a: seq<T>, b: seq<T>, c: seq<T>, lo: nat, hi: nat)
    requires SameFrom(a, b, lo) && SameFrom(b, c, hi) && lo <= hi
    ensures SameFrom(a, c, hi)
  {
  }

  /** Writing index lo keeps agreement from lo + 1. */
  lemma SameFromWrite<T>(a: seq<T>, b: seq<T>, lo: nat, x: T)
    requires SameFrom(a, b, lo) && lo < |b|
    ensures SameFrom(a, b[lo := x], lo + 1)
  {
  }

  /** Agreement from lo makes the suffixes from lo equal. */
  lemma SameFromSuffix<T>(a: seq<T>, b: seq<T>, lo: nat)
    requires SameFrom(a, b, lo) && lo <= |a|
    ensures a[lo..] == b[lo..]
  {
  }

  /** Taking all of a sequence gives it back. */
  lemma TakeAll<T>(s: seq<T>)
    ensures s[..|s|] == s
  {
  }

  function Abs(x: int): nat { if x < 0 then -x else x }

  lemma DivOfNat(x: nat, y: nat)
    requires y > 0
    ensures x / y >= 0
    ensures x / y > 0 ==> x > 0
  {
    if x == 0 {
      assert x / y == 0;
    }
  }

  /** C's `/` on `int`: the quotient truncated toward zero. */
  function CDiv(a: int, b: int): (q: int)
    requires b != 0
    ensures Abs(q) == Abs(a) / Abs(b)
    ensures q > 0 ==> (a > 0) == (b > 0)
    ensures q < 0 ==> (a > 0) != (b > 0)
  {
    var m := Abs(a) / Abs(b);
    assert m >= 0 && (m > 0 ==> a != 0) by { DivOfNat(Abs(a), Abs(b)); }
    if (a < 0) == (b < 0) then m else -m
  }

  /** C's `%` on `int`: the remainder carries the sign of the dividend. */
  function CMod(a: int, b: int): (r: int)
    requires b != 0
    ensures a == b * CDiv(a, b) + r
    ensures Abs(r) < Abs(b)
    ensures a >= 0 ==> r >= 0
    ensures a <= 0 ==> r <= 0
  {
    var m := Abs(a) % Abs(b);
    var q := Abs(a) / Abs(b);
    assert Abs(a) == Abs(b) * q + m;
    if a < 0 then -m else m
  }

  /** Exchanges a[i] and a[j]; nothing else changes. */
  method Swap<T>(a: array<T>, i: nat, j: nat)
    requires i < a.Length && j < a.Length
    modifies a
    ensures a[i] == old(a[j]) && a[j] == old(a[i])
    ensures forall k :: 0 <= k < a.Length && k != i && k != j ==> a[k] == old(a[k])
    ensures multiset(a[..]) == multiset(old(a[..]))
  {
    a[i], a[j] := a[j], a[i];
  }

  /** Permuting a prefix and keeping the rest permutes the whole. */
  lemma PrefixPermuted<T>(b: seq<T>, c: seq<T>, m: nat)
    requires m <= |b| == |c|
    requires multiset(c[..m]) == multiset(b[..m]) && c[m..] == b[m..]
    ensures multiset(c) == multiset(b)
  {
    assert b == b[..m] + b[m..] && c == c[..m] + c[m..];
  }

  /** A swap of two positions inside [lo, hi) permutes that range and keeps
      everything outside it. */
  lemma SwapInRange<T>(b: seq<T>, c: seq<T>, i: nat, j: nat, lo: nat, hi: nat)
    requires lo <= i < hi && lo <= j < hi && hi <= |b| == |c|
    requires c[i] == b[j] && c[j] == b[i]
    requires forall k :: 0 <= k < |b| && k != i && k != j ==> c[k] == b[k]
    ensures multiset(c[lo..hi]) == multiset(b[lo..hi])
    ensures c[..lo] == b[..lo] && c[hi..] == b[hi..]
  {
    assert c == b[i := b[j]][j := b[i]];
    assert c[lo..hi] == b[lo..hi][i - lo := b[j]][j - lo := b[i]];
  }

  /** c is b with the range [lo, hi) permuted and everything else kept. */
  ghost predicate PermutedWithin(c: seq<int>, b: seq<int>, lo: nat, hi: nat)
    requires lo <= hi <= |b| == |c|
  {
    multiset(c[lo..hi]) == multiset(b[lo..hi]) && c[..lo] == b[..lo] && c[hi..] == b[hi..]
  }

  lemma PermutedWithinTrans(a: seq<int>, b: seq<int>, c: seq<int>, lo: nat, hi: nat)
    requires lo <= hi <= |a| == |b| == |c|
    requires PermutedWithin(b, a, lo, hi) && PermutedWithin(c, b, lo, hi)
    ensures PermutedWithin(c, a, lo, hi)
  {
  }

  /** A permutation within [lo, hi) is one within any wider range. */
  lemma WidenPermuted(c: seq<int>, b: seq<int>, lo: nat, hi: nat, lo2: nat, hi2: nat)
    requires lo2 <= lo <= hi <= hi2 <= |b| == |c|
    requires PermutedWithin(c, b, lo, hi)
    ensures PermutedWithin(c, b, lo2, hi2)
  {
    assert c[lo2..hi2] == c[lo2..lo] + c[lo..hi] + c[hi..hi2];
    assert b[lo2..hi2] == b[lo2..lo] + b[lo..hi] + b[hi..hi2];
    assert c[lo2..lo] == c[..lo][lo2..] && b[lo2..lo] == b[..lo][lo2..];
    assert c[hi..hi2] == c[hi..][..hi2 - hi] && b[hi..hi2] == b[hi..][..hi2 - hi];
    assert c[..lo2] == c[..lo][..lo2] && b[..lo2] == b[..lo][..lo2];
    assert c[hi2..] == c[hi..][hi2 - hi..] && b[hi2..] == b[hi..][hi2 - hi..];
  }

  /** Two sequences that agree on a prefix agree on every slice of it. */
  lemma SliceOfPrefix(x: seq<int>, y: seq<int>, lo: nat, hi: nat, m: nat)
    requires lo <= hi <= m <= |x| && m <= |y| && x[..m] == y[..m]
    ensures x[lo..hi] == y[lo..hi]
  {
    assert x[lo..hi] == x[..m][lo..hi] && y[lo..hi] == y[..m][lo..hi];
  }

  /** Two sequences that agree on a suffix agree on every slice of it. */
  lemma SliceOfSuffix(x: seq<int>, y: seq<int>, lo: nat, hi: nat, m: nat)
    requires m <= lo <= hi <= |x| == |y| && x[m..] == y[m..]
    ensures x[lo..hi] == y[lo..hi]
  {
    forall k | lo <= k < hi ensures x[k] == y[k] {
      assert x[k] == x[m..][k - m] && y[k] == y[m..][k - m];
    }
  }

  /** The multiset of a range is the sum of the multisets of its two parts. */
  lemma SplitRange(x: seq<int>, lo: nat, mid: nat, hi: nat)
    requires lo <= mid <= hi <= |x|
    ensures multiset(x[lo..hi]) == multiset(x[lo..mid]) + multiset(x[mid..hi])
  {
    assert x[lo..hi] == x[lo..mid] + x[mid..hi];
  }
}
