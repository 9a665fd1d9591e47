/** The recursive classics of Algorithms/examples/07_recursion.c, on
    unbounded integers. */
module Recursion {
  import opened Common
  import opened NumberTheory

  /** factorial: 1 for n <= 1, else n * factorial(n - 1). */
  function Factorial(n: int): (r: int)
    ensures r >= 1
    ensures n >= 1 ==> r >= n
    decreases if n <= 1 then 0 else n
  {
    if n <= 1 then 1 else n * Factorial(n - 1)
  }

  /** n! is divisible by every k in [1, n]. */
  lemma {:induction false} FactorialDivisible(n: int, k: int)
    requires 1 <= k <= n
    ensures Divides(k, Factorial(n))
    decreases n
  {
    if k == n {
      MultipleDivisible(n, Factorial(n - 1));
    } else {
      FactorialDivisible(n - 1, k);
      DividesCombination(k, 0, Factorial(n - 1), n);
      assert Factorial(n) == 0 + Factorial(n - 1) * n;
    }
  }

  /** Factorial does not decrease as n grows. */
  lemma {:induction false} FactorialMonotone(m: int, n: int)
    requires m <= n
    ensures Factorial(m) <= Factorial(n)
    decreases n - m
  {
    if m < n {
      FactorialMonotone(m, n - 1);
      if n > 1 {
        ScaleUp(n, Factorial(n - 1));
      }
    }
  }

  /** A factor of at least 1 does not shrink a non-negative number. */
  lemma ScaleUp(k: int, x: int)
    requires k >= 1 && x >= 0
    ensures k * x >= x
  {
    assert k * x == x + (k - 1) * x;
  }

  /** The C int holds factorial(n) exactly for n <= 12; from 13 on the
      value exceeds INT_MAX, so the C multiplication overflows. */
  lemma FactorialFitsInt(n: int)
    ensures Factorial(n) <= INT_MAX <==> n <= 12
  {
    assert Factorial(12) == 479001600;
    assert Factorial(13) == 6227020800;
    if n <= 12 {
      FactorialMonotone(n, 12);
    } else {
      FactorialMonotone(13, n);
    }
  }

  /** fibonacci: the naive double recursion (it does not terminate for a
      negative argument, so n is a natural number). */
  function Fib(n: nat): (r: nat)
    ensures n >= 1 ==> r >= 1
  {
    if n == 0 then 0 else if n == 1 then 1 else Fib(n - 1) + Fib(n - 2)
  }

  /** Fibonacci numbers do not decrease as n grows. */
  lemma {:induction false} FibMonotone(m: nat, n: nat)
    requires m <= n
    ensures Fib(m) <= Fib(n)
    decreases n - m
  {
    if m < n {
      FibMonotone(m, n - 1);
    }
  }

  /** The C int holds fibonacci(n) exactly for n <= 46; fib(47) exceeds
      INT_MAX, so the C addition overflows from 47 on. The same bound
      holds for the memoized version, whose table entries are C ints. */
  lemma FibFitsInt(n: nat)
    ensures Fib(n) <= INT_MAX <==> n <= 46
  {
    FibValues();
    if n <= 46 {
      FibMonotone(n, 46);
    } else {
      FibMonotone(47, n);
    }
  }

  /** Fib(46) and Fib(47), unfolded one index at a time. */
  lemma FibValues()
    ensures Fib(46) == 1836311903 && Fib(47) == 2971215073
  {
    assert Fib(2) == 1;
    assert Fib(3) == 2;
    assert Fib(4) == 3;
    assert Fib(5) == 5;
    assert Fib(6) == 8;
    assert Fib(7) == 13;
    assert Fib(8) == 21;
    assert Fib(9) == 34;
    assert Fib(10) == 55;
    assert Fib(11) == 89;
    assert Fib(12) == 144;
    assert Fib(13) == 233;
    assert Fib(14) == 377;
    assert Fib(15) == 610;
    assert Fib(16) == 987;
    assert Fib(17) == 1597;
    assert Fib(18) == 2584;
    assert Fib(19) == 4181;
    assert Fib(20) == 6765;
    assert Fib(21) == 10946;
    assert Fib(22) == 17711;
    assert Fib(23) == 28657;
    assert Fib(24) == 46368;
    assert Fib(25) == 75025;
    assert Fib(26) == 121393;
    assert Fib(27) == 196418;
    assert Fib(28) == 317811;
    assert Fib(29) == 514229;
    assert Fib(30) == 832040;
    assert Fib(31) == 1346269;
    assert Fib(32) == 2178309;
    assert Fib(33) == 3524578;
    assert Fib(34) == 5702887;
    assert Fib(35) == 9227465;
    assert Fib(36) == 14930352;
    assert Fib(37) == 24157817;
    assert Fib(38) == 39088169;
    assert Fib(39) == 63245986;
    assert Fib(40) == 102334155;
    assert Fib(41) == 165580141;
    assert Fib(42) == 267914296;
    assert Fib(43) == 433494437;
    assert Fib(44) == 701408733;
    assert Fib(45) == 1134903170;
    assert Fib(46) == 1836311903;
    assert Fib(47) == 2971215073;
  }

  /** The memo table of fib_memo_helper: every entry is unset (-1) or the
      Fibonacci number of its index. */
  ghost predicate MemoOk(memo: array<int>)
    reads memo
  {
    forall i :: 0 <= i < memo.Length ==> memo[i] == -1 || memo[i] == Fib(i)
  }

  /** fib_memo_helper: fib(n), reading and filling the memo table. */
  method FibMemoHelper(n: nat, memo: array<int>) returns (r: int)
    requires n < memo.Length && MemoOk(memo)
    modifies memo
    ensures r == Fib(n) && MemoOk(memo)
    decreases n
  {
    if n <= 1 {
      return n;
    }
    if memo[n] != -1 {
      return memo[n];
    }
    var f1 := FibMemoHelper(n - 1, memo);
    var f2 := FibMemoHelper(n - 2, memo);
    memo[n] := f1 + f2;
    r := memo[n];
  }

  /** fibonacci_memoized: a fresh table of n + 1 unset entries, then the
      helper; it computes the same value as the naive recursion. */
  method FibonacciMemoized(n: nat) returns (r: int)
    ensures r == Fib(n)
  {
    var memo := new int[n + 1];
    for i := 0 to n + 1
      invariant forall k :: 0 <= k < i ==> memo[k] == -1
    {
      memo[i] := -1;
    }
    r := FibMemoHelper(n, memo);
  }

  /** sum_digits with C's truncating % and /: the digits of a negative
      number count negatively. */
  function SumDigits(n: int): (r: int)
    ensures n >= 0 ==> r >= 0
    ensures n <= 0 ==> r <= 0
    decreases Abs(n)
  {
    if n == 0 then 0 else CMod(n, 10) + SumDigits(CDiv(n, 10))
  }

  /** The decimal digits of n, least significant first. */
  function Digits(n: nat): (ds: seq<int>)
    ensures forall i :: 0 <= i < |ds| ==> 0 <= ds[i] <= 9
    ensures Value(ds) == n
  {
    if n == 0 then [] else [n % 10] + Digits(n / 10)
  }

  /** The number a digit sequence (least significant first) denotes. */
  function Value(ds: seq<int>): int
  {
    if ds == [] then 0 else ds[0] + 10 * Value(ds[1..])
  }

  function Sum(ds: seq<int>): int
  {
    if ds == [] then 0 else ds[0] + Sum(ds[1..])
  }

  /** For n >= 0, sum_digits is the sum of the decimal digits of n. */
  lemma {:induction false} SumDigitsIsDigitSum(n: nat)
    ensures SumDigits(n) == Sum(Digits(n))
    decreases n
  {
    if n > 0 {
      SumDigitsIsDigitSum(n / 10);
      assert CMod(n, 10) == n % 10 && CDiv(n, 10) == n / 10;
      assert Digits(n)[1..] == Digits(n / 10);
    }
  }

  /** Negating the argument negates the digit sum. */
  lemma {:induction false} SumDigitsNeg(n: int)
    ensures SumDigits(-n) == -SumDigits(n)
    decreases Abs(n)
  {
    if n != 0 {
      SumDigitsNeg(CDiv(n, 10));
      assert CDiv(-n, 10) == -CDiv(n, 10);
      assert CMod(-n, 10) == -CMod(n, 10);
    }
  }

  /** Casting out nines: a natural number and its digit sum agree mod 9. */
  lemma {:induction false} SumDigitsMod9(n: nat)
    ensures SumDigits(n) % 9 == n % 9
    decreases n
  {
    if n > 0 {
      var q, d := n / 10, n % 10;
      SumDigitsMod9(q);
      assert CMod(n, 10) == d && CDiv(n, 10) == q;
      assert n == 9 * q + (q + d);
      ModShift(q + d, q);
      ModAdd(SumDigits(q), q, d);
    }
  }

  /** Adding a multiple of 9 does not change the remainder mod 9. */
  lemma ModShift(x: int, q: int)
    ensures (9 * q + x) % 9 == x % 9
  {
    DivModUnique(9 * q + x, 9, q + x / 9, x % 9);
  }

  /** Numbers that agree mod 9 still agree after adding d. */
  lemma ModAdd(x: int, y: int, d: int)
    requires x % 9 == y % 9
    ensures (x + d) % 9 == (y + d) % 9
  {
    DivModUnique(x + d, 9, x / 9 + (x % 9 + d) / 9, (x % 9 + d) % 9);
    DivModUnique(y + d, 9, y / 9 + (y % 9 + d) / 9, (y % 9 + d) % 9);
  }

  /** reverse_string: reverses str[start..end] (inclusive) in place by
      swapping the ends and recursing on the middle. */
  method ReverseString(str: array<char>, start: int, end: int)
    requires 0 <= start && end < str.Length
    modifies str
    ensures forall k :: 0 <= k < str.Length ==>
      str[k] == if start <= k <= end then old(str[start + end - k]) else old(str[k])
    decreases end - start
  {
    if start >= end {
      return;
    }
    var temp := str[start];
    str[start] := str[end];
    str[end] := temp;
    ReverseString(str, start + 1, end - 1);
  }

  /** reverse_string(str, 0, strlen(str) - 1) reverses the whole string. */
  method ReverseWhole(str: array<char>)
    modifies str
    ensures str[..] == Reverse(old(str[..]))
  {
    ReverseString(str, 0, str.Length - 1);
  }

  /** is_palindrome: true exactly when s[start..end] (inclusive) reads the
      same from both ends. */
  function IsPalindrome(s: seq<char>, start: int, end: int): (r: bool)
    requires 0 <= start && end < |s|
    ensures r <==> forall k :: start <= k <= end ==> s[k] == s[start + end - k]
    decreases end - start
  {
    if start >= end then true
    else if s[start] != s[end] then false
    else IsPalindrome(s, start + 1, end - 1)
  }

  /** On the whole string, is_palindrome says the string equals its
      reverse. */
  lemma PalindromeIsReverse(s: seq<char>)
    ensures IsPalindrome(s, 0, |s| - 1) <==> s == Reverse(s)
  {
    if IsPalindrome(s, 0, |s| - 1) {
      assert forall k :: 0 <= k < |s| ==> s[k] == Reverse(s)[k];
    }
    if s == Reverse(s) {
      assert forall k :: 0 <= k < |s| ==> s[k] == Reverse(s)[k];
    }
  }

  /** power: x^|n| by halving n with C's truncating division; for n >= 0
      this is x^n. */
  function Power(x: int, n: int): (r: int)
    ensures r == Pow(x, Abs(n))
    decreases Abs(n)
  {
    if n == 0 then 1
    else if n == 1 then x
    else
      var h := CDiv(n, 2);
      var half := Power(x, h);
      HalveAbs(n);
      PowAdd(x, Abs(h), Abs(h));
      if CMod(n, 2) == 0 then half * half
      else
        PowAdd(x, 1, Abs(h) + Abs(h));
        assert x * half * half == x * (half * half);
        x * half * half
  }

  /** Truncating division by 2 halves |n|, with the remainder's magnitude
      left over. */
  lemma HalveAbs(n: int)
    ensures Abs(n) == Abs(CDiv(n, 2)) + Abs(CDiv(n, 2)) + Abs(CMod(n, 2))
  {
  }

  /** gcd: Euclid's algorithm with C's %. The result carries a sign from
      the operands; its absolute value is the greatest common divisor. */
  function Gcd(a: int, b: int): (r: int)
    ensures IsGcd(Abs(r), a, b)
    decreases Abs(b)
  {
    if b == 0 then
      GcdBase(a);
      a
    else
      var r := Gcd(b, CMod(a, b));
      GcdStep(Abs(r), a, b, CDiv(a, b));
      r
  }
}
