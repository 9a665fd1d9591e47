/** The text statistics of FileIO/examples/02_word_count.c: the wc-style
    scan of count_file (characters, words, lines) and the word frequency
    table of analyze_words (normalise, deduplicate, sort by count). The file
    is given as its text; opening and reading it is not part of this model. */
module TextStats {
  import opened Common

  /** is_separator: isspace in the C locale (space, and '\t' through '\r');
      the extra tests for '\n', '\t' and '\r' are among these already. */
  predicate IsSeparator(c: char)
  {
    c == ' ' || '\t' <= c <= '\r'
  }

  /** What count_file reports. */
  datatype Stats = Stats(lines: int, words: int, chars: int)

  // ---------------------------------------------------------------------
  // Words: maximal runs of non-separators

  /** The length of the run of non-separators s starts with. */
  function RunLength(s: string): (n: nat)
    ensures n <= |s|
    ensures forall j :: 0 <= j < n ==> !IsSeparator(s[j])
    ensures n == |s| || IsSeparator(s[n])
  {
    if s == [] || IsSeparator(s[0]) then 0 else 1 + RunLength(s[1..])
  }

  /** The words of s: its maximal runs of non-separators, in order. */
  function Tokens(s: string): (ts: seq<string>)
    ensures forall t :: t in ts ==> |t| > 0 && forall j :: 0 <= j < |t| ==> !IsSeparator(t[j])
    decreases |s|
  {
    if s == [] then []
    else if IsSeparator(s[0]) then Tokens(s[1..])
    else
      var n := RunLength(s);
      [s[..n]] + Tokens(s[n..])
  }

  /** The words the scan counts in s, in_word being the flag it enters s
      with: one at every non-separator that follows a separator, or the
      start when in_word is false. */
  function Starts(s: string, inWord: bool): nat
  {
    if s == [] then 0
    else if IsSeparator(s[0]) then Starts(s[1..], false)
    else (if inWord then 0 else 1) + Starts(s[1..], true)
  }

  /** Inside a word, the scan counts nothing until the word ends. */
  lemma {:induction false} RunStarts(s: string)
    requires s != [] && !IsSeparator(s[0])
    ensures Starts(s[1..], true) == Starts(s[RunLength(s)..], false)
    decreases |s|
  {
    var t := s[1..];
    if t != [] && !IsSeparator(t[0]) {
      RunStarts(t);
      assert t[RunLength(t)..] == s[RunLength(s)..];
      assert t[1..] == s[2..];
    }
  }

  /** The scan's word count is the number of maximal runs of
      non-separators. */
  lemma {:induction false} StartsAreTokens(s: string)
    ensures Starts(s, false) == |Tokens(s)|
    decreases |s|
  {
    if s != [] {
      if IsSeparator(s[0]) {
        StartsAreTokens(s[1..]);
      } else {
        RunStarts(s);
        StartsAreTokens(s[RunLength(s)..]);
      }
    }
  }

  // ---------------------------------------------------------------------
  // Lines

  function NewlineCount(s: string): nat
  {
    if s == [] then 0 else (if s[0] == '\n' then 1 else 0) + NewlineCount(s[1..])
  }

  /** The length of the line s starts with, up to its '\n' or the end. */
  function LineLength(s: string): (n: nat)
    ensures n <= |s| && (n == |s| || s[n] == '\n')
    ensures forall j :: 0 <= j < n ==> s[j] != '\n'
  {
    if s == [] || s[0] == '\n' then 0 else 1 + LineLength(s[1..])
  }

  /** The lines of s without their '\n': every '\n' ends one, and the text
      after the last '\n', when there is any, is one more. */
  function LinesOf(s: string): (ls: seq<string>)
    ensures forall l :: l in ls ==> '\n' !in l
    decreases |s|
  {
    if s == [] then []
    else
      var n := LineLength(s);
      assert '\n' !in s[..n] by {
        forall j | 0 <= j < n ensures s[..n][j] != '\n' { }
      }
      if n == |s| then [s] else [s[..n]] + LinesOf(s[n + 1..])
  }

  /** A prefix without '\n' adds nothing to the newline count. */
  lemma {:induction false} NoNewlinePrefix(s: string, n: nat)
    requires n <= |s| && forall j :: 0 <= j < n ==> s[j] != '\n'
    ensures NewlineCount(s) == NewlineCount(s[n..])
    decreases n
  {
    if n > 0 {
      NoNewlinePrefix(s[1..], n - 1);
      assert s[1..][n - 1..] == s[n..];
    }
  }

  /** The number of lines is the number of '\n' plus one for a last line
      that has no '\n'. */
  lemma {:induction false} LinesCounted(s: string)
    ensures |LinesOf(s)| == NewlineCount(s) + (if |s| > 0 && s[|s| - 1] != '\n' then 1 else 0)
    decreases |s|
  {
    if s != [] {
      var n := LineLength(s);
      NoNewlinePrefix(s, n);
      if n < |s| {
        var rest := s[n + 1..];
        LinesCounted(rest);
        assert s[n..][1..] == rest;
        if rest != [] {
          assert rest[|rest| - 1] == s[|s| - 1];
        }
      }
    }
  }

  /** The line count as count_file computes it: c is always EOF after the
      loop, so the final test adds one line whenever the text is not
      empty, even after a final '\n'. */
  function LineCountAsWritten(s: string): (n: nat)
    ensures n == |LinesOf(s)| + (if |s| > 0 && s[|s| - 1] == '\n' then 1 else 0)
  {
    LinesCounted(s);
    NewlineCount(s) + (if |s| > 0 then 1 else 0)
  }

  /** A text of one line with its '\n' is counted as two lines. */
  lemma TrailingNewlineCountedTwice()
    ensures |LinesOf("a\n")| == 1 && LineCountAsWritten("a\n") == 2
  {
    assert LineLength("a\n") == 1;
    assert "a\n"[2..] == [];
  }

  /** count_file's scan over the text, with the final test made on the
      last character read: chars is the text's length, words the number of
      maximal runs of non-separators, lines the number of lines. */
  method CountFile(text: string) returns (stats: Stats)
    ensures stats.chars == |text|
    ensures stats.words == |Tokens(text)|
    ensures stats.lines == |LinesOf(text)|
  {
    var lines, words, chars := 0, 0, 0;
    var inWord := false;
    var last := '\n';
    var i := 0;
    while i < |text|
      invariant 0 <= i <= |text| && chars == i
      invariant lines + NewlineCount(text[i..]) == NewlineCount(text)
      invariant words + Starts(text[i..], inWord) == Starts(text, false)
      invariant i > 0 ==> last == text[i - 1]
    {
      var c := text[i];
      assert text[i..][1..] == text[i + 1..];
      chars := chars + 1;
      if c == '\n' {
        lines := lines + 1;
      }
      if IsSeparator(c) {
        inWord := false;
      } else {
        if !inWord {
          words := words + 1;
          inWord := true;
        }
      }
      last := c;
      i := i + 1;
    }
    if chars > 0 && last != '\n' {
      lines := lines + 1;
    }
    StartsAreTokens(text);
    LinesCounted(text);
    stats := Stats(lines, words, chars);
  }

  // ---------------------------------------------------------------------
  // The words analyze_words reads

  /** fscanf's "%63s": a word longer than 63 characters is read as pieces
      of 63, the last one shorter. */
  function Pieces(t: string): (ps: seq<string>)
    requires |t| > 0
    ensures forall p :: p in ps ==> 0 < |p| <= 63
    decreases |t|
  {
    if |t| <= 63 then [t] else [t[..63]] + Pieces(t[63..])
  }

  function Join(ps: seq<string>): string
  {
    if ps == [] then [] else ps[0] + Join(ps[1..])
  }

  /** The pieces of a word put back together are the word. */
  lemma {:induction false} PiecesJoin(t: string)
    requires |t| > 0
    ensures Join(Pieces(t)) == t
    decreases |t|
  {
    if |t| > 63 {
      PiecesJoin(t[63..]);
      assert ([t[..63]] + Pieces(t[63..]))[1..] == Pieces(t[63..]);
    }
  }

  /** The strings analyze_words reads from the text, in order. */
  function ScanfWords(ts: seq<string>): (ws: seq<string>)
    requires forall t :: t in ts ==> |t| > 0
    ensures forall w :: w in ws ==> 0 < |w| <= 63
  {
    if ts == [] then [] else Pieces(ts[0]) + ScanfWords(ts[1..])
  }

  // ---------------------------------------------------------------------
  // Normalisation

  /** tolower in the C locale. */
  function Lower(c: char): char
  {
    if 'A' <= c <= 'Z' then (c as int + 32) as char else c
  }

  /** isalnum in the C locale. */
  predicate IsAlnum(c: char)
  {
    '0' <= c <= '9' || 'a' <= c <= 'z' || 'A' <= c <= 'Z'
  }

  /** The length of w once its trailing non-alphanumerics are removed. */
  function TrimLength(w: string): (n: nat)
    ensures n <= |w|
    ensures n == 0 || IsAlnum(w[n - 1])
    ensures forall j :: n <= j < |w| ==> !IsAlnum(w[j])
  {
    if w == [] || IsAlnum(w[|w| - 1]) then |w| else TrimLength(w[..|w| - 1])
  }

  /** The word analyze_words keeps of w: w lowercased, cut before its
      trailing non-alphanumerics. */
  function Normalized(w: string): (r: string)
    ensures |r| <= |w|
    ensures forall j :: 0 <= j < |r| ==> r[j] == Lower(w[j])
    ensures r == [] || IsAlnum(r[|r| - 1])
    ensures forall j :: |r| <= j < |w| ==> !IsAlnum(w[j])
  {
    var lowered := seq(|w|, j requires 0 <= j < |w| => Lower(w[j]));
    assert forall j :: 0 <= j < |w| ==> (IsAlnum(lowered[j]) <==> IsAlnum(w[j]));
    lowered[..TrimLength(lowered)]
  }

  /** A word is stored in normal form: no upper-case letters, nothing
      non-alphanumeric at the end, and normalising it again changes
      nothing. */
  predicate IsNormal(w: string)
  {
    (forall j :: 0 <= j < |w| ==> !('A' <= w[j] <= 'Z')) && (w == [] || IsAlnum(w[|w| - 1]))
  }

  lemma NormalizedIsNormal(w: string)
    ensures IsNormal(Normalized(w))
    ensures Normalized(Normalized(w)) == Normalized(w)
  {
    var r := Normalized(w);
    assert forall j :: 0 <= j < |r| ==> Lower(r[j]) == r[j];
    assert TrimLength(r) == |r|;
    assert Normalized(r) == r;
  }

  /** The two loops that normalise the word buffer in place: lowercase
      every character, then drop trailing non-alphanumerics. */
  method NormalizeWord(raw: string) returns (word: string)
    ensures word == Normalized(raw)
  {
    var buf := new char[|raw|](j requires 0 <= j < |raw| => raw[j]);
    var i := 0;
    while i < buf.Length
      invariant 0 <= i <= buf.Length
      invariant forall j :: 0 <= j < i ==> buf[j] == Lower(raw[j])
      invariant forall j :: i <= j < buf.Length ==> buf[j] == raw[j]
    {
      buf[i] := Lower(buf[i]);
      i := i + 1;
    }
    ghost var lowered := buf[..];
    assert lowered == seq(|raw|, j requires 0 <= j < |raw| => Lower(raw[j]));
    var len := buf.Length;
    assert lowered[..len] == lowered;
    while len > 0 && !IsAlnum(buf[len - 1])
      invariant 0 <= len <= buf.Length
      invariant TrimLength(lowered[..len]) == TrimLength(lowered)
    {
      assert lowered[..len][..len - 1] == lowered[..len - 1];
      len := len - 1;
    }
    assert TrimLength(lowered[..len]) == len;
    word := buf[..len];
  }

  // ---------------------------------------------------------------------
  // The frequency table

  /** One entry of the words array. */
  datatype WordCount = WordCount(word: string, count: int)

  /** The number of entries the words array holds. */
  const Capacity: nat := 1000

  /** The first position of w in the table, or -1. */
  function IndexOf(t: seq<WordCount>, w: string): (i: int)
    ensures -1 <= i < |t|
    ensures i >= 0 ==> t[i].word == w && forall j :: 0 <= j < i ==> t[j].word != w
    ensures i < 0 ==> forall j :: 0 <= j < |t| ==> t[j].word != w
  {
    if t == [] then -1
    else
      var i := IndexOf(t[..|t| - 1], w);
      if i >= 0 then i else if t[|t| - 1].word == w then |t| - 1 else -1
  }

  /** One word read by analyze_words: an empty word is skipped, a known
      word's count goes up, a new word is appended with count 1 while there
      is room and dropped when the table is full. */
  function Add(t: seq<WordCount>, w: string): seq<WordCount>
  {
    if w == [] then t
    else
      var i := IndexOf(t, w);
      if i >= 0 then t[i := WordCount(w, t[i].count + 1)]
      else if |t| < Capacity then t + [WordCount(w, 1)]
      else t
  }

  /** The table after the strings raws have been read. */
  function Tally(raws: seq<string>): seq<WordCount>
  {
    if raws == [] then [] else Add(Tally(raws[..|raws| - 1]), Normalized(raws[|raws| - 1]))
  }

  /** The number of strings in raws that normalise to w. */
  function Occurrences(raws: seq<string>, w: string): nat
  {
    if raws == [] then 0
    else Occurrences(raws[..|raws| - 1], w) + (if Normalized(raws[|raws| - 1]) == w then 1 else 0)
  }

  /** The table's invariant: at most Capacity entries, words non-empty, in
      normal form and pairwise distinct, each counted at least once. */
  ghost predicate WellFormed(t: seq<WordCount>)
  {
    && |t| <= Capacity
    && (forall i :: 0 <= i < |t| ==> t[i].word != [] && IsNormal(t[i].word) && t[i].count >= 1)
    && (forall i, j :: 0 <= i < j < |t| ==> t[i].word != t[j].word)
  }

  /** The table only grows, and an entry keeps its word. */
  lemma AddKeeps(t: seq<WordCount>, w: string)
    ensures |Add(t, w)| >= |t|
    ensures forall i :: 0 <= i < |t| ==> Add(t, w)[i].word == t[i].word
  {
  }

  /** Every table is well formed. */
  lemma {:induction false} TallyWellFormed(raws: seq<string>)
    ensures WellFormed(Tally(raws))
    decreases |raws|
  {
    if raws != [] {
      TallyWellFormed(raws[..|raws| - 1]);
      NormalizedIsNormal(raws[|raws| - 1]);
      AddWellFormed(Tally(raws[..|raws| - 1]), Normalized(raws[|raws| - 1]));
    }
  }

  /** Reading a word in normal form keeps the table well formed. */
  lemma AddWellFormed(t: seq<WordCount>, w: string)
    requires WellFormed(t) && IsNormal(w)
    ensures WellFormed(Add(t, w))
  {
    var t' := Add(t, w);
    if w != [] {
      var at := IndexOf(t, w);
      if at >= 0 {
        assert forall i :: 0 <= i < |t| ==> t'[i].word == t[i].word;
      } else if |t| < Capacity {
        assert t' == t + [WordCount(w, 1)];
      }
    }
  }

  /** A word with no entry in a table that still has room was never read. */
  lemma {:induction false} TallyAbsent(raws: seq<string>, w: string)
    requires |Tally(raws)| < Capacity && w != [] && IndexOf(Tally(raws), w) < 0
    ensures Occurrences(raws, w) == 0
    decreases |raws|
  {
    if raws != [] {
      var prefix := raws[..|raws| - 1];
      var t := Tally(prefix);
      AddKeeps(t, Normalized(raws[|raws| - 1]));
      TallyAbsent(prefix, w);
    }
  }

  /** Every entry's count is the number of strings read that normalise to
      its word. */
  lemma {:induction false} TallyCounts(raws: seq<string>)
    ensures forall i :: 0 <= i < |Tally(raws)| ==> Tally(raws)[i].count == Occurrences(raws, Tally(raws)[i].word)
    decreases |raws|
  {
    if raws != [] {
      var prefix := raws[..|raws| - 1];
      var w := Normalized(raws[|raws| - 1]);
      TallyCounts(prefix);
      TallyWellFormed(prefix);
      var t := Tally(prefix);
      var t' := Tally(raws);
      assert t' == Add(t, w);
      var at := IndexOf(t, w);
      if w != [] && at < 0 && |t| < Capacity {
        TallyAbsent(prefix, w);
      }
      forall i | 0 <= i < |t'|
        ensures t'[i].count == Occurrences(raws, t'[i].word)
      {
        if i < |t| && i != at {
          assert t'[i] == t[i];
        }
      }
    }
  }

  /** While the table has room, every word read has an entry. */
  lemma {:induction false} TallyComplete(raws: seq<string>)
    requires |Tally(raws)| < Capacity
    ensures forall r :: r in raws && Normalized(r) != [] ==> IndexOf(Tally(raws), Normalized(r)) >= 0
    decreases |raws|
  {
    if raws != [] {
      var prefix := raws[..|raws| - 1];
      var last := raws[|raws| - 1];
      var t := Tally(prefix);
      AddKeeps(t, Normalized(last));
      TallyComplete(prefix);
      forall r | r in raws && Normalized(r) != []
        ensures IndexOf(Tally(raws), Normalized(r)) >= 0
      {
        if r in prefix {
          var i := IndexOf(t, Normalized(r));
          assert Tally(raws)[i].word == Normalized(r);
        } else {
          assert r == last;
        }
      }
    }
  }

  /** The search loop over the table: the first entry holding w, or -1. */
  method Find(table: seq<WordCount>, w: string) returns (found: int)
    ensures found == IndexOf(table, w)
  {
    found := -1;
    var i := 0;
    while i < |table|
      invariant 0 <= i <= |table|
      invariant forall j :: 0 <= j < i ==> table[j].word != w
    {
      if table[i].word == w {
        found := i;
        break;
      }
      i := i + 1;
    }
    IndexOfFirst(table, w, found);
  }

  /** IndexOf is the first matching position. */
  lemma IndexOfFirst(t: seq<WordCount>, w: string, i: int)
    requires -1 <= i < |t|
    requires i >= 0 ==> t[i].word == w && forall j :: 0 <= j < i ==> t[j].word != w
    requires i < 0 ==> forall j :: 0 <= j < |t| ==> t[j].word != w
    ensures IndexOf(t, w) == i
  {
  }

  /** One iteration of the reading loop: normalise the string, skip it if
      empty, count it if known, append it if new and there is room. */
  method ReadWord(table: seq<WordCount>, raw: string) returns (next: seq<WordCount>)
    ensures next == Add(table, Normalized(raw))
  {
    next := table;
    var word := NormalizeWord(raw);
    if |word| != 0 {
      var i := Find(table, word);
      if i >= 0 {
        next := table[i := WordCount(word, table[i].count + 1)];
      } else if |table| < Capacity {
        next := table + [WordCount(word, 1)];
      }
    }
  }

  /** The reading loop of analyze_words over the strings fscanf returns. */
  method CollectWords(raws: seq<string>) returns (table: seq<WordCount>)
    ensures table == Tally(raws)
  {
    table := [];
    var n := 0;
    while n < |raws|
      invariant 0 <= n <= |raws|
      invariant table == Tally(raws[..n])
    {
      assert raws[..n + 1][..n] == raws[..n];
      table := ReadWord(table, raws[n]);
      n := n + 1;
    }
    assert raws[..n] == raws;
  }

  // ---------------------------------------------------------------------
  // Sorting by count

  predicate NonIncreasing(s: seq<WordCount>)
  {
    forall i, j :: 0 <= i < j < |s| ==> s[i].count >= s[j].count
  }

  /** After i passes: the entries from m on are in final place, in
      non-increasing order and no larger than anything before m. */
  ghost predicate SuffixPlaced(s: seq<WordCount>, m: nat)
    requires m <= |s|
  {
    && (forall k, l :: m <= k < l < |s| ==> s[k].count >= s[l].count)
    && (forall k, l :: 0 <= k < m <= l < |s| ==> s[k].count >= s[l].count)
  }

  /** The inner loop of the sort: one pass over a[..len] that swaps each
      adjacent pair whose counts increase, carrying the smallest count of
      the prefix to position len - 1. */
  method SinkPass(a: array<WordCount>, len: nat)
    requires 1 <= len <= a.Length
    modifies a
    ensures multiset(a[..len]) == multiset(old(a[..len]))
    ensures a[len..] == old(a[len..])
    ensures forall k :: 0 <= k < len ==> a[k].count >= a[len - 1].count
  {
    var j := 0;
    while j < len - 1
      invariant 0 <= j <= len - 1
      invariant multiset(a[..len]) == multiset(old(a[..len]))
      invariant a[len..] == old(a[len..])
      invariant forall k :: 0 <= k <= j ==> a[k].count >= a[j].count
    {
      if a[j].count < a[j + 1].count {
        ghost var b := a[..];
        Swap(a, j, j + 1);
        SwapInRange(b, a[..], j, j + 1, 0, len);
      }
      j := j + 1;
    }
  }

  /** A pass that keeps the prefix's multiset and moves its smallest count
      to the end extends the placed suffix by one. */
  lemma PassExtends(before: seq<WordCount>, after: seq<WordCount>, len: nat)
    requires 1 <= len <= |before| == |after|
    requires SuffixPlaced(before, len)
    requires multiset(after[..len]) == multiset(before[..len])
    requires after[len..] == before[len..]
    requires forall k :: 0 <= k < len ==> after[k].count >= after[len - 1].count
    ensures SuffixPlaced(after, len - 1)
  {
    forall k | len <= k < |after| ensures after[k] == before[k] {
      assert after[k] == after[len..][k - len];
    }
    forall k, l | 0 <= k < len <= l < |after| ensures after[k].count >= after[l].count {
      assert after[k] in multiset(before[..len]) by { assert after[k] == after[..len][k]; }
      var k' :| 0 <= k' < len && before[..len][k'] == after[k];
    }
  }

  /** One pass of the outer loop: the placed suffix grows by one. */
  method SortPass(a: array<WordCount>, len: nat)
    requires 1 <= len <= a.Length && SuffixPlaced(a[..], len)
    modifies a
    ensures multiset(a[..]) == multiset(old(a[..]))
    ensures SuffixPlaced(a[..], len - 1)
  {
    ghost var before := a[..];
    SinkPass(a, len);
    PassExtends(before, a[..], len);
    PrefixPermuted(before, a[..], len);
  }

  /** The bubble sort of analyze_words: passes i = 0 .. n - 2, each over
      the first n - i entries; the counts end up non-increasing and the
      entries are a permutation of the old ones. */
  method SortByCount(a: array<WordCount>)
    modifies a
    ensures NonIncreasing(a[..])
    ensures multiset(a[..]) == multiset(old(a[..]))
  {
    var n := a.Length;
    var i := 0;
    while i < n - 1
      invariant 0 <= i <= n && (n > 0 ==> i <= n - 1)
      invariant multiset(a[..]) == multiset(old(a[..]))
      invariant SuffixPlaced(a[..], n - i)
    {
      SortPass(a, n - i);
      i := i + 1;
    }
    PlacedSorted(a[..], n - i);
  }

  /** With at most one entry left unplaced, the whole is in order. */
  lemma PlacedSorted(s: seq<WordCount>, m: nat)
    requires m <= 1 && m <= |s| && SuffixPlaced(s, m)
    ensures NonIncreasing(s)
  {
  }

  /** analyze_words: the table of the words of the text sorted by count,
      and the (at most ten) entries it prints. Every entry not printed has
      a count no larger than any printed one. */
  method AnalyzeWords(text: string) returns (top: seq<WordCount>)
    ensures var table := Tally(ScanfWords(Tokens(text)));
      && |top| == (if |table| < 10 then |table| else 10)
      && NonIncreasing(top)
      && (forall e :: e in top ==> e in table)
      && (forall e, i :: e in multiset(table) - multiset(top) && 0 <= i < |top| ==> e.count <= top[i].count)
  {
    var raws := ScanfWords(Tokens(text));
    var table := CollectWords(raws);
    var a := new WordCount[|table|](i requires 0 <= i < |table| => table[i]);
    assert a[..] == table;
    SortByCount(a);
    var shown := if |table| < 10 then |table| else 10;
    top := a[..shown];
    ShownFirst(a[..], table, shown);
  }

  /** The first entries of a non-increasing permutation of the table are
      drawn from it, and every other entry's count is at most theirs. */
  lemma ShownFirst(s: seq<WordCount>, table: seq<WordCount>, shown: nat)
    requires shown <= |s| && NonIncreasing(s) && multiset(s) == multiset(table)
    ensures forall e :: e in s[..shown] ==> e in table
    ensures forall e, i :: e in multiset(table) - multiset(s[..shown]) && 0 <= i < shown ==> e.count <= s[..shown][i].count
  {
    assert s == s[..shown] + s[shown..];
    forall e | e in s[..shown] ensures e in table {
      assert e in multiset(s);
    }
    forall e, i | e in multiset(table) - multiset(s[..shown]) && 0 <= i < shown
      ensures e.count <= s[..shown][i].count
    {
      assert e in multiset(s[shown..]);
      var l :| 0 <= l < |s[shown..]| && s[shown..][l] == e;
      assert s[shown + l] == e;
    }
  }
}
