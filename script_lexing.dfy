/** Character classes, number values and the scanning loops shared by the
    lexers of ScriptingLanguage/examples/02_calculator.c, 03_variables.c and
    04_control_flow.c (01_tokenizer.c uses the classes and number values).
    Source text is a C string: a sequence of chars holding a NUL, of which
    only the part before the first NUL is read. */
module ScriptLexing {
  import opened Common

  /** The blanks skip_whitespace passes over in the later lexers. */
  predicate IsBlank(c: char) { c == ' ' || c == '\t' || c == '\n' || c == '\r' }

  /** A character that may start an identifier: isalpha(c) || c == '_'. */
  predicate IsIdentStart(c: char) { IsAlpha(c) || c == '_' }

  /** A character that may continue one: isalnum(c) || c == '_'. */
  predicate IsIdentChar(c: char) { IsAlnum(c) || c == '_' }

  /** Index of the first '.', or |t| when there is none. */
  function DotIndex(t: string): (k: nat)
    ensures k <= |t| && (k < |t| ==> t[k] == '.')
    ensures forall i :: 0 <= i < k ==> t[i] != '.'
  {
    if |t| == 0 || t[0] == '.' then 0 else 1 + DotIndex(t[1..])
  }

  /** The value of a string of decimal digits. */
  function DigitsValue(d: string): nat
  {
    if |d| == 0 then 0
    else DigitsValue(d[..|d| - 1]) * 10 + (if IsDigit(d[|d| - 1]) then d[|d| - 1] as int - '0' as int else 0)
  }

  function Pow10(n: nat): (p: nat)
    ensures p > 0
  {
    if n == 0 then 1 else 10 * Pow10(n - 1)
  }

  /** atof on the lexemes the scanners produce: digits, then optionally a
      '.' and more digits (either part may be empty). Rounding to double is
      not modelled: the value is the exact decimal. */
  function Atof(t: string): real
  {
    var k := DotIndex(t);
    DigitsValue(t[..k]) as real
      + (if k < |t| then DigitsValue(t[k + 1..]) as real / Pow10(|t| - k - 1) as real else 0.0)
  }

  /** s[i..j) is the longest run of digits starting at i. */
  predicate DigitRun(s: string, i: nat, j: nat)
    requires i <= j < |s|
  {
    (forall k :: i <= k < j ==> IsDigit(s[k])) && !IsDigit(s[j])
  }

  /** A digit run from i ends at one place only. */
  lemma DigitRunUnique(s: string, i: nat, j1: nat, j2: nat)
    requires i <= j1 < |s| && i <= j2 < |s|
    requires DigitRun(s, i, j1) && DigitRun(s, i, j2)
    ensures j1 == j2
  {
  }

  /** The identifier a scan from i takes: the longest run of [A-Za-z0-9_]. */
  predicate WordRun(s: string, i: nat, j: nat)
    requires i <= j < |s|
  {
    (forall k :: i <= k < j ==> IsIdentChar(s[k])) && !IsIdentChar(s[j])
  }

  lemma WordRunUnique(s: string, i: nat, j1: nat, j2: nat)
    requires i <= j1 < |s| && i <= j2 < |s|
    requires WordRun(s, i, j1) && WordRun(s, i, j2)
    ensures j1 == j2
  {
  }

  /** The number the later lexers take from i: a digit run, then, when a
      '.' follows, the '.' and a second (possibly empty) digit run. */
  predicate NumberRun(s: string, i: nat, j: nat)
    requires i <= j < |s|
  {
    (DigitRun(s, i, j) && s[j] != '.')
    || exists d :: i <= d < j && DigitRun(s, i, d) && s[d] == '.' && DigitRun(s, d + 1, j)
  }

  /** The number run from i ends at one place only. */
  lemma NumberRunUnique(s: string, i: nat, j1: nat, j2: nat)
    requires i <= j1 < |s| && i <= j2 < |s|
    requires NumberRun(s, i, j1) && NumberRun(s, i, j2)
    ensures j1 == j2
  {
    if !(DigitRun(s, i, j1) && s[j1] != '.') && !(DigitRun(s, i, j2) && s[j2] != '.') {
      var d1 :| i <= d1 < j1 && DigitRun(s, i, d1) && s[d1] == '.' && DigitRun(s, d1 + 1, j1);
      var d2 :| i <= d2 < j2 && DigitRun(s, i, d2) && s[d2] == '.' && DigitRun(s, d2 + 1, j2);
      DigitRunUnique(s, i, d1, d2);
      DigitRunUnique(s, d1 + 1, j1, j2);
    }
  }

  /** Where the blanks from i end: the first other character, the NUL at
      the latest. */
  function BlanksEnd(s: string, i: nat): (k: nat)
    requires '\0' in s && i <= StrLen(s)
    ensures i <= k <= StrLen(s) && !IsBlank(s[k])
    ensures forall m :: i <= m < k ==> IsBlank(s[m])
    decreases StrLen(s) - i
  {
    if IsBlank(s[i]) then BlanksEnd(s, i + 1) else i
  }

  /** skip_whitespace of the later lexers: passes blanks, stops at the first
      other character. */
  method SkipBlanks(s: string, i: nat) returns (j: nat)
    requires '\0' in s && i <= StrLen(s)
    ensures j == BlanksEnd(s, i)
  {
    j := i;
    while IsBlank(s[j])
      invariant i <= j <= StrLen(s)
      invariant forall k :: i <= k < j ==> IsBlank(s[k])
      decreases StrLen(s) - j
    {
      j := j + 1;
    }
  }

  /** The digit loop `while (isdigit(peek(lex))) advance(lex);`. */
  method ScanDigits(s: string, i: nat) returns (j: nat)
    requires '\0' in s && i <= StrLen(s)
    ensures i <= j <= StrLen(s) && DigitRun(s, i, j)
  {
    j := i;
    while IsDigit(s[j])
      invariant i <= j <= StrLen(s) && forall k :: i <= k < j ==> IsDigit(s[k])
      decreases StrLen(s) - j
    {
      j := j + 1;
    }
  }

  /** The number scan of the later lexers: digits, then a '.' and digits
      if a '.' follows (whatever comes after the '.'). */
  method ScanNumber(s: string, i: nat) returns (j: nat)
    requires '\0' in s && i <= StrLen(s)
    ensures i <= j <= StrLen(s) && NumberRun(s, i, j)
  {
    j := ScanDigits(s, i);
    if s[j] == '.' {
      var dot := j;
      j := ScanDigits(s, j + 1);
      assert DigitRun(s, i, dot) && s[dot] == '.' && DigitRun(s, dot + 1, j);
    }
  }

  /** The identifier loop `while (isalnum(peek(lex)) || peek(lex) == '_')`. */
  method ScanWord(s: string, i: nat) returns (j: nat)
    requires '\0' in s && i <= StrLen(s)
    ensures i <= j <= StrLen(s) && WordRun(s, i, j)
  {
    j := i;
    while IsIdentChar(s[j])
      invariant i <= j <= StrLen(s) && forall k :: i <= k < j ==> IsIdentChar(s[k])
      decreases StrLen(s) - j
    {
      j := j + 1;
    }
  }
}
