/** The lexer of ScriptingLanguage/examples/01_tokenizer.c: a cursor over a
    C string that counts lines, skips blanks and `//` comments, and cuts
    the text into numbers, identifiers and one-character operators. */
module Tokenizer {
  import opened Common
  import opened ScriptLexing

  datatype Kind =
    | Number | Identifier
    | Plus | Minus | Star | Slash | LParen | RParen | Equals | Semicolon
    | Eof | Error

  /** A token: `number` is atof of the lexeme for a Number and 0 for the
      others (the C field is left unset there). */
  datatype Token = Token(kind: Kind, lexeme: string, number: real, line: nat)

  /** The blanks of this lexer; '\n' is handled apart since it counts a line. */
  predicate IsSpace(c: char) { c == ' ' || c == '\t' || c == '\r' || c == '\n' }

  /** A `//` comment starts at i. */
  predicate StartsComment(s: string, i: nat)
  {
    i + 1 < |s| && s[i] == '/' && s[i + 1] == '/'
  }

  /** Where a comment that starts at i ends: the next '\n' or the NUL. */
  function CommentEnd(s: string, i: nat): (e: nat)
    requires '\0' in s && i <= StrLen(s)
    ensures i <= e <= StrLen(s) && (s[e] == '\n' || s[e] == '\0')
    ensures forall k :: i <= k < e ==> s[k] != '\n' && s[k] != '\0'
    decreases StrLen(s) - i
  {
    if s[i] == '\n' || s[i] == '\0' then i else CommentEnd(s, i + 1)
  }

  /** s[i..j) is made of blanks and whole comments (a comment running to its
      '\n' or to the end of the text). */
  ghost predicate Skipped(s: string, i: nat, j: nat)
    requires '\0' in s && i <= j <= StrLen(s)
    decreases j - i
  {
    i == j
    || (i < j && IsSpace(s[i]) && Skipped(s, i + 1, j))
    || (i < j && StartsComment(s, i) && CommentEnd(s, i) <= j && Skipped(s, CommentEnd(s, i), j))
  }

  /** At j there is neither a blank nor the start of a comment. */
  predicate Stops(s: string, j: nat)
    requires j < |s|
  {
    !IsSpace(s[j]) && !StartsComment(s, j)
  }

  /** Blanks and comments can be chained. */
  lemma {:induction false} SkippedTrans(s: string, i: nat, j: nat, k: nat)
    requires '\0' in s && i <= j <= k <= StrLen(s)
    requires Skipped(s, i, j) && Skipped(s, j, k)
    ensures Skipped(s, i, k)
    decreases j - i
  {
    if i < j {
      if IsSpace(s[i]) && Skipped(s, i + 1, j) {
        SkippedTrans(s, i + 1, j, k);
      } else {
        SkippedTrans(s, CommentEnd(s, i), j, k);
      }
    }
  }

  /** Skipping blanks and comments from i can stop at only one place. */
  lemma {:induction false} SkipUnique(s: string, i: nat, j1: nat, j2: nat)
    requires '\0' in s && i <= j1 <= StrLen(s) && i <= j2 <= StrLen(s)
    requires Skipped(s, i, j1) && Stops(s, j1) && Skipped(s, i, j2) && Stops(s, j2)
    ensures j1 == j2
    decreases j1 - i
  {
    if i < j1 && i < j2 {
      if IsSpace(s[i]) {
        SkipUnique(s, i + 1, j1, j2);
      } else {
        SkipUnique(s, CommentEnd(s, i), j1, j2);
      }
    }
  }

  /** The number of line breaks in t. */
  function Newlines(t: string): nat
  {
    if |t| == 0 then 0 else Newlines(t[..|t| - 1]) + (if t[|t| - 1] == '\n' then 1 else 0)
  }

  lemma NewlinesNext(s: string, i: nat, j: nat)
    requires i <= j < |s|
    ensures Newlines(s[i..j + 1]) == Newlines(s[i..j]) + (if s[j] == '\n' then 1 else 0)
  {
    assert s[i..j + 1][..j - i] == s[i..j];
  }

  /** A blank at i extends the skipped text by one character. */
  lemma SkipSpace(s: string, start: nat, i: nat)
    requires '\0' in s && start <= i < StrLen(s) && IsSpace(s[i])
    requires Skipped(s, start, i)
    ensures Skipped(s, start, i + 1)
    ensures Newlines(s[start..i + 1]) == Newlines(s[start..i]) + (if s[i] == '\n' then 1 else 0)
  {
    assert Skipped(s, i + 1, i + 1);
    SkippedTrans(s, start, i, i + 1);
    NewlinesNext(s, start, i);
  }

  /** The comment loop of skip_whitespace: runs to the comment's end,
      passing no line break. */
  method PassComment(s: string, ghost i0: nat, i: nat) returns (j: nat)
    requires '\0' in s && i0 <= i <= StrLen(s)
    ensures j == CommentEnd(s, i)
    ensures Newlines(s[i0..j]) == Newlines(s[i0..i])
  {
    j := i;
    while s[j] != '\n' && s[j] != '\0'
      invariant i <= j <= CommentEnd(s, i)
      invariant CommentEnd(s, j) == CommentEnd(s, i)
      invariant Newlines(s[i0..j]) == Newlines(s[i0..i])
      decreases StrLen(s) - j
    {
      NewlinesNext(s, i0, j);
      j := j + 1;
    }
  }

  /** A comment at i extends the skipped text to the comment's end. */
  lemma SkipComment(s: string, start: nat, i: nat)
    requires '\0' in s && start <= i < StrLen(s) && StartsComment(s, i)
    requires Skipped(s, start, i)
    ensures Skipped(s, start, CommentEnd(s, i))
  {
    assert Skipped(s, CommentEnd(s, i), CommentEnd(s, i));
    SkippedTrans(s, start, i, CommentEnd(s, i));
  }

  /** s[i..j) is the number scan_number takes: a digit run, and a '.' with
      a second digit run only when a digit follows the '.'. */
  predicate NumberAt(s: string, i: nat, j: nat)
    requires '\0' in s && i <= j <= StrLen(s)
  {
    WholeAt(s, i, j) || exists d :: i <= d < j && FractionAt(s, i, d, j)
  }

  /** A number without a fraction: the digits end at j and no '.' followed
      by a digit comes next. */
  predicate WholeAt(s: string, i: nat, j: nat)
    requires '\0' in s && i <= j <= StrLen(s)
  {
    DigitRun(s, i, j) && !(s[j] == '.' && IsDigit(s[j + 1]))
  }

  /** A number with a fraction: digits to the '.' at d, then digits to j. */
  predicate FractionAt(s: string, i: nat, d: nat, j: nat)
    requires '\0' in s && i <= d < j <= StrLen(s)
  {
    DigitRun(s, i, d) && s[d] == '.' && IsDigit(s[d + 1]) && DigitRun(s, d + 1, j)
  }

  /** scan_number stops at one place only. */
  lemma NumberAtUnique(s: string, i: nat, j1: nat, j2: nat)
    requires '\0' in s && i <= j1 <= StrLen(s) && i <= j2 <= StrLen(s)
    requires NumberAt(s, i, j1) && NumberAt(s, i, j2)
    ensures j1 == j2
  {
    if !WholeAt(s, i, j1) && !WholeAt(s, i, j2) {
      var d1 :| i <= d1 < j1 && FractionAt(s, i, d1, j1);
      var d2 :| i <= d2 < j2 && FractionAt(s, i, d2, j2);
      DigitRunUnique(s, i, d1, d2);
      DigitRunUnique(s, d1 + 1, j1, j2);
    }
  }

  /** The token type of a one-character token; any other character is an
      error. */
  function OperatorKind(c: char): Kind
  {
    match c
    case '+' => Plus
    case '-' => Minus
    case '*' => Star
    case '/' => Slash
    case '(' => LParen
    case ')' => RParen
    case '=' => Equals
    case ';' => Semicolon
    case _ => Error
  }

  predicate IsOperator(k: Kind)
  {
    k in {Plus, Minus, Star, Slash, LParen, RParen, Equals, Semicolon}
  }

  /** The character each one-character token is written with. */
  function Symbol(k: Kind): char
    requires IsOperator(k)
  {
    match k
    case Plus => '+'
    case Minus => '-'
    case Star => '*'
    case Slash => '/'
    case LParen => '('
    case RParen => ')'
    case Equals => '='
    case Semicolon => ';'
  }

  /** The eight operators and their token types determine each other, and
      every other character is an error. */
  lemma OperatorRoundTrip(c: char, k: Kind)
    ensures IsOperator(k) ==> OperatorKind(Symbol(k)) == k
    ensures OperatorKind(c) == Error || (IsOperator(OperatorKind(c)) && Symbol(OperatorKind(c)) == c)
  {
  }

  /** The token next_token returns when, after skipping, it starts at
      `start` and leaves the lexer at `end`. */
  ghost predicate Lexes(s: string, start: nat, end: nat, token: Token, line: nat)
    requires '\0' in s && start <= end <= StrLen(s)
  {
    token.line == line
    && if s[start] == '\0' then
         end == start && token == Token(Eof, "EOF", 0.0, line)
       else if IsDigit(s[start]) then
         NumberAt(s, start, end) && token == Token(Number, s[start..end], Atof(s[start..end]), line)
       else if IsIdentStart(s[start]) then
         WordRun(s, start, end) && token == Token(Identifier, s[start..end], 0.0, line)
       else
         end == start + 1
         && token.kind == OperatorKind(s[start])
         && token.lexeme == (if token.kind == Error then "Unexpected '" + [s[start]] + "'" else [s[start]])
         && token.number == 0.0
  }

  /** The lexer state of lexer_init and the functions after it. */
  class Lexer {
    const source: string
    var current: nat
    var line: nat

    ghost predicate Valid()
      reads this
    {
      '\0' in source && current <= StrLen(source) && line >= 1
    }

    /** lexer_init: at the start of the text, on line 1. */
    constructor (source: string)
      requires '\0' in source
      ensures Valid() && this.source == source && current == 0 && line == 1
    {
      this.source := source;
      current := 0;
      line := 1;
    }

    /** skip_whitespace: passes blanks and comments, counting the line
        breaks among them, and stops at the first other character. */
    method SkipWhitespace()
      requires Valid()
      modifies this
      ensures Valid() && old(current) <= current
      ensures Skipped(source, old(current), current) && Stops(source, current)
      ensures line == old(line) + Newlines(source[old(current)..current])
    {
      var s, i, ln := source, current, line;
      ghost var i0, ln0 := i, ln;
      while true
        invariant i0 <= i <= StrLen(s)
        invariant Skipped(s, i0, i)
        invariant ln == ln0 + Newlines(s[i0..i])
        decreases StrLen(s) - i
      {
        var c := s[i];
        if c == ' ' || c == '\t' || c == '\r' {
          SkipSpace(s, i0, i);
          i := i + 1;
        } else if c == '\n' {
          SkipSpace(s, i0, i);
          ln := ln + 1;
          i := i + 1;
        } else if c == '/' && s[i + 1] == '/' {
          ghost var from := i;
          i := PassComment(s, i0, i);
          SkipComment(s, i0, from);
        } else {
          break;
        }
      }
      current, line := i, ln;
    }

    /** scan_number: the digits, then a '.' and more digits if a digit
        follows the '.'. */
    method ScanNumber() returns (token: Token)
      requires Valid()
      modifies this
      ensures Valid() && line == old(line) && old(current) <= current
      ensures NumberAt(source, old(current), current)
      ensures token == Token(Number, source[old(current)..current], Atof(source[old(current)..current]), line)
    {
      var start := current;
      current := ScanDigits(source, current);
      if source[current] == '.' && IsDigit(source[current + 1]) {
        var dot := current;
        current := current + 1;
        current := ScanDigits(source, current);
        assert FractionAt(source, start, dot, current);
      }
      var lexeme := source[start..current];
      token := Token(Number, lexeme, Atof(lexeme), line);
    }

    /** scan_identifier: the longest run of letters, digits and '_'. */
    method ScanIdentifier() returns (token: Token)
      requires Valid()
      modifies this
      ensures Valid() && line == old(line) && old(current) <= current
      ensures WordRun(source, old(current), current)
      ensures token == Token(Identifier, source[old(current)..current], 0.0, line)
    {
      var start := current;
      current := ScanWord(source, current);
      token := Token(Identifier, source[start..current], 0.0, line);
    }

    /** next_token: skips blanks and comments to `start`, then reads one
        token; at the end of the text it returns EOF and stays put, and
        otherwise it moves on by at least one character. */
    method NextToken() returns (token: Token, ghost start: nat)
      requires Valid()
      modifies this
      ensures Valid() && old(current) <= start <= current
      ensures Skipped(source, old(current), start) && Stops(source, start)
      ensures line == old(line) + Newlines(source[old(current)..start])
      ensures Lexes(source, start, current, token, line)
      ensures token.kind == Eof <==> current == start
    {
      SkipWhitespace();
      start := current;
      var c := source[current];
      if c == '\0' {
        token := Token(Eof, "EOF", 0.0, line);
        return;
      }
      if IsDigit(c) {
        token := ScanNumber();
        return;
      }
      if IsAlpha(c) || c == '_' {
        token := ScanIdentifier();
        return;
      }
      current := current + 1;
      var kind := OperatorKind(c);
      var lexeme := if kind == Error then "Unexpected '" + [c] + "'" else [c];
      token := Token(kind, lexeme, 0.0, line);
    }
  }

  /** next_token is a function of the text and the position: whatever the
      lexer did before, the same position yields the same token and the
      same next position. */
  lemma LexesUnique(s: string, i: nat, start1: nat, end1: nat, t1: Token, start2: nat, end2: nat, t2: Token, line: nat)
    requires '\0' in s && i <= start1 <= end1 <= StrLen(s) && i <= start2 <= end2 <= StrLen(s)
    requires Skipped(s, i, start1) && Stops(s, start1) && Lexes(s, start1, end1, t1, line)
    requires Skipped(s, i, start2) && Stops(s, start2) && Lexes(s, start2, end2, t2, line)
    ensures start1 == start2 && end1 == end2 && t1 == t2
  {
    SkipUnique(s, i, start1, start2);
    if IsDigit(s[start1]) {
      NumberAtUnique(s, start1, end1, end2);
    } else if IsIdentStart(s[start1]) {
      WordRunUnique(s, start1, end1, end2);
    }
  }
}
