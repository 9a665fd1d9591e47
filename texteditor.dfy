/** The line buffer of TextEditor/examples/01_simple_editor.c: a growable
    array of lines, a line count and a modified flag, with the five edits
    the key handler performs on it. A line is the text of a C string, the
    characters before its NUL, so no line holds a NUL. */
module TextEditor {

  /** The text a C string holds: no NUL inside. */
  predicate IsLine(s: string) { '\0' !in s }

  /** s with x placed before s[i]; used for a line of a text (insert_line)
      and for a character of a line (insert_char). */
  function Insert<T>(s: seq<T>, i: nat, x: T): (r: seq<T>)
    requires i <= |s|
    ensures |r| == |s| + 1 && r[i] == x
    ensures forall k :: 0 <= k < i ==> r[k] == s[k]
    ensures forall k :: i < k < |r| ==> r[k] == s[k - 1]
  {
    s[..i] + [x] + s[i..]
  }

  /** s without s[i]. */
  function Remove<T>(s: seq<T>, i: nat): (r: seq<T>)
    requires i < |s|
    ensures |r| == |s| - 1
    ensures forall k :: 0 <= k < i ==> r[k] == s[k]
    ensures forall k :: i <= k < |r| ==> r[k] == s[k + 1]
  {
    s[..i] + s[i + 1..]
  }

  /** Removing what was just inserted gives back the sequence: deleting the
      character typed at a column restores the line. */
  lemma RemoveInsert<T>(s: seq<T>, i: nat, x: T)
    requires i <= |s|
    ensures Remove(Insert(s, i, x), i) == s
  {
    assert Remove(Insert(s, i, x), i) == s[..i] + s[i..];
    assert s[..i] + s[i..] == s;
  }

  /** Putting a removed element back where it was gives back the sequence. */
  lemma InsertRemove<T>(s: seq<T>, i: nat)
    requires i < |s|
    ensures Insert(Remove(s, i), i, s[i]) == s
  {
    var r := Insert(Remove(s, i), i, s[i]);
    assert forall k :: 0 <= k < |s| ==> r[k] == s[k];
  }

  /** The text with line row cut at column col, the right part becoming the
      next line. */
  function Split(t: seq<string>, row: nat, col: nat): (r: seq<string>)
    requires row < |t| && col <= |t[row]|
    ensures |r| == |t| + 1
  {
    t[..row] + [t[row][..col], t[row][col..]] + t[row + 1..]
  }

  /** The text with line row followed by line row + 1 on one line; the text
      itself when row is the last line. */
  function Join(t: seq<string>, row: nat): (r: seq<string>)
    ensures row + 1 < |t| ==> |r| == |t| - 1
    ensures row + 1 >= |t| ==> r == t
  {
    if row + 1 >= |t| then t else t[..row] + [t[row] + t[row + 1]] + t[row + 2..]
  }

  /** Enter then Backspace at the start of the new line: joining the two
      halves of a split line restores the text. */
  lemma JoinSplit(t: seq<string>, row: nat, col: nat)
    requires row < |t| && col <= |t[row]|
    ensures Join(Split(t, row, col), row) == t
  {
    var s := Split(t, row, col);
    assert s[row] + s[row + 1] == t[row];
    assert s[row + 2..] == t[row + 1..];
    assert t == t[..row] + [t[row]] + t[row + 1..];
  }

  /** Joining two lines and splitting at the join point restores the text. */
  lemma SplitJoin(t: seq<string>, row: nat)
    requires row + 1 < |t|
    ensures Split(Join(t, row), row, |t[row]|) == t
  {
    var j := Join(t, row);
    assert j[row] == t[row] + t[row + 1];
    assert j[row][..|t[row]|] == t[row] && j[row][|t[row]|..] == t[row + 1];
    assert j[row + 1..] == t[row + 2..];
    assert t == t[..row] + [t[row], t[row + 1]] + t[row + 2..];
  }

  /** Every line of a text is a C string's text. */
  predicate AllLines(t: seq<string>)
  {
    forall k :: 0 <= k < |t| ==> IsLine(t[k])
  }

  /** Splitting and joining never put a NUL into a line. */
  lemma EditsKeepLines(t: seq<string>, row: nat, col: nat)
    requires AllLines(t) && row < |t| && col <= |t[row]|
    ensures AllLines(Split(t, row, col)) && AllLines(Join(t, row))
  {
    assert forall m :: 0 <= m < col ==> t[row][..col][m] == t[row][m];
    assert forall m :: 0 <= m < |t[row]| - col ==> t[row][col..][m] == t[row][col + m];
    if row + 1 < |t| {
      var line := t[row] + t[row + 1];
      assert forall m :: 0 <= m < |line| ==> line[m] in t[row] || line[m] in t[row + 1];
    }
  }

  /** TextBuffer: lines[0..lineCount) hold the text, lines.Length is the
      capacity. */
  class TextBuffer {
    var lines: array<string>
    var lineCount: nat
    var modified: bool

    ghost predicate Valid()
      reads this, lines
    {
      1 <= lineCount <= lines.Length && forall k :: 0 <= k < lineCount ==> IsLine(lines[k])
    }

    /** The buffer's text, first line first. */
    ghost function Text(): (t: seq<string>)
      reads this, lines
      requires Valid()
      ensures |t| == lineCount && AllLines(t)
    {
      lines[..lineCount]
    }

    /** buffer_init: one empty line, a capacity of one, not modified. */
    constructor ()
      ensures Valid() && Text() == [""] && lines.Length == 1 && !modified
    {
      lines := new string[1];
      lineCount := 1;
      modified := false;
      new;
      lines[0] := "";
    }

    /** The realloc of buffer_insert_line: a new array of twice the
        capacity holding the same lines. */
    method Grow()
      requires Valid()
      modifies this
      ensures Valid() && fresh(lines) && lines.Length == 2 * old(lines.Length)
      ensures Text() == old(Text()) && modified == old(modified)
    {
      var grown := new string[2 * lines.Length];
      var k := 0;
      while k < lineCount
        invariant 0 <= k <= lineCount
        invariant forall m :: 0 <= m < k ==> grown[m] == lines[m]
        modifies grown
      {
        grown[k] := lines[k];
        k := k + 1;
      }
      lines := grown;
      assert Text() == old(Text());
    }

    /** The loop of buffer_insert_line: lines index..lineCount-1 move down
        one place, leaving line index free. */
    method ShiftDown(index: nat)
      requires index <= lineCount < lines.Length
      modifies lines
      ensures forall m :: 0 <= m < index ==> lines[m] == old(lines[m])
      ensures forall m :: index < m <= lineCount ==> lines[m] == old(lines[m - 1])
    {
      var i := lineCount;
      while i > index
        invariant index <= i <= lineCount
        invariant forall m :: 0 <= m < i ==> lines[m] == old(lines[m])
        invariant forall m :: i < m <= lineCount ==> lines[m] == old(lines[m - 1])
      {
        lines[i] := lines[i - 1];
        i := i - 1;
      }
    }

    /** buffer_insert_line: text becomes line index and the lines from index
        on move down one; a full array first doubles its capacity. */
    method InsertLine(index: nat, text: string)
      requires Valid() && index <= lineCount && IsLine(text)
      modifies this, lines
      ensures Valid() && modified
      ensures Text() == Insert(old(Text()), index, text)
      ensures lines == old(lines) || fresh(lines)
      ensures lines.Length == if old(lineCount) >= old(lines.Length) then 2 * old(lines.Length) else old(lines.Length)
    {
      ghost var t := Text();
      if lineCount >= lines.Length {
        Grow();
      }
      ShiftDown(index);
      lines[index] := text;
      lineCount := lineCount + 1;
      modified := true;
      ghost var r := Insert(t, index, text);
      assert forall m :: 0 <= m < lineCount ==> lines[m] == r[m];
      assert lines[..lineCount] == r;
    }

    /** buffer_insert_char: c goes into line row before column col; the
        other lines stay as they are. */
    method InsertChar(row: nat, col: nat, c: char)
      requires Valid() && row < lineCount && col <= |lines[row]| && c != '\0'
      modifies this, lines
      ensures Valid() && modified && lines == old(lines)
      ensures Text() == old(Text())[row := Insert(old(Text())[row], col, c)]
    {
      var line := lines[row];
      lines[row] := line[..col] + [c] + line[col..];
      modified := true;
    }

    /** buffer_delete_char: a column at or past the end of the line changes
        nothing; otherwise the character there is removed. */
    method DeleteChar(row: nat, col: nat)
      requires Valid() && row < lineCount
      modifies this, lines
      ensures Valid() && lines == old(lines)
      ensures col >= |old(Text())[row]| ==> Text() == old(Text()) && modified == old(modified)
      ensures col < |old(Text())[row]| ==> Text() == old(Text())[row := Remove(old(Text())[row], col)] && modified
    {
      var line := lines[row];
      if col >= |line| {
        return;
      }
      lines[row] := line[..col] + line[col + 1..];
      modified := true;
    }

    /** buffer_split_line: line row keeps its first col characters and the
        rest becomes a new line below it. */
    method SplitLine(row: nat, col: nat)
      requires Valid() && row < lineCount && col <= |lines[row]|
      modifies this, lines
      ensures Valid() && modified
      ensures Text() == Split(old(Text()), row, col)
      ensures lines == old(lines) || fresh(lines)
    {
      ghost var t := Text();
      var line := lines[row];
      var right := line[col..];
      lines[row] := line[..col];
      assert Text() == t[row := line[..col]];
      InsertLine(row + 1, right);
      assert Text() == Split(t, row, col);
    }

    /** buffer_join_lines: nothing on the last line; otherwise line row + 1
        is appended to line row and the lines below move up one. */
    method JoinLines(row: nat)
      requires Valid()
      modifies this, lines
      ensures Valid() && lines == old(lines)
      ensures Text() == Join(old(Text()), row)
      ensures row + 1 >= old(lineCount) ==> modified == old(modified)
      ensures row + 1 < old(lineCount) ==> lineCount == old(lineCount) - 1 && modified
    {
      if row + 1 >= lineCount {
        return;
      }
      ghost var t := Text();
      lines[row] := lines[row] + lines[row + 1];
      var i := row + 1;
      while i < lineCount - 1
        invariant row + 1 <= i <= lineCount - 1
        invariant forall m :: 0 <= m < row ==> lines[m] == t[m]
        invariant lines[row] == t[row] + t[row + 1]
        invariant forall m :: row < m < i ==> lines[m] == t[m + 1]
        invariant forall m :: i < m < lineCount ==> lines[m] == t[m]
        modifies lines
      {
        lines[i] := lines[i + 1];
        i := i + 1;
      }
      lineCount := lineCount - 1;
      modified := true;
      EditsKeepLines(t, row, 0);
      assert forall m :: 0 <= m < lineCount ==> lines[m] == Join(t, row)[m];
    }
  }

  /** Enter at a column then Backspace at the start of the new line leaves
      the buffer's text as it was. */
  method SplitThenJoin(buffer: TextBuffer, row: nat, col: nat)
    requires buffer.Valid() && row < buffer.lineCount && col <= |buffer.lines[row]|
    modifies buffer, buffer.lines
    ensures buffer.Valid() && buffer.Text() == old(buffer.Text()) && buffer.modified
  {
    ghost var t := buffer.Text();
    buffer.SplitLine(row, col);
    buffer.JoinLines(row);
    JoinSplit(t, row, col);
  }
}
