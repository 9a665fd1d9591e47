/** N-Queens by backtracking (Algorithms/examples/08_backtracking.c). The
    board is an int matrix with 1 for a queen and 0 for an empty square;
    a placement is described by the column of the queen in each filled
    row. */
module NQueens {
  import opened Common

  const MAX_N := 20

  /** The queens in rows 0..|cols|-1 stand at columns cols, no two of them
      attack each other, and all columns are on the board. */
  ghost predicate Placement(n: nat, cols: seq<int>)
  {
    (forall i :: 0 <= i < |cols| ==> 0 <= cols[i] < n) &&
    (forall i, j :: 0 <= i < j < |cols| ==>
       cols[i] != cols[j] && cols[j] - cols[i] != j - i && cols[i] - cols[j] != j - i)
  }

  /** A queen in the next row, at column c, is attacked by none of cols:
      not in the same column nor on either diagonal. */
  ghost predicate SafeCol(cols: seq<int>, c: int)
  {
    forall i :: 0 <= i < |cols| ==>
      cols[i] != c && cols[i] != c - (|cols| - i) && cols[i] != c + (|cols| - i)
  }

  /** Adding a queen keeps a placement valid exactly when it is on the
      board and safe. */
  lemma PlacementExtend(n: nat, cols: seq<int>, c: int)
    requires Placement(n, cols)
    ensures Placement(n, cols + [c]) <==> 0 <= c < n && SafeCol(cols, c)
  {
    var s := cols + [c];
    if Placement(n, s) {
      forall i | 0 <= i < |cols| ensures cols[i] != c && cols[i] != c - (|cols| - i) && cols[i] != c + (|cols| - i) {
        assert s[i] == cols[i] && s[|cols|] == c;
      }
    }
  }

  /** The board holds exactly the queens of cols in its top n x n square. */
  ghost predicate BoardIs(board: array2<int>, n: nat, cols: seq<int>)
    reads board
  {
    n <= board.Length0 && n <= board.Length1 && |cols| <= n &&
    forall i, j :: 0 <= i < n && 0 <= j < n ==>
      board[i, j] == if i < |cols| && cols[i] == j then 1 else 0
  }

  /** What is_safe checks: no queen in column col above row, and none on
      the two diagonals going up from (row, col), that square included. */
  ghost predicate SafeOnBoard(board: array2<int>, n: nat, row: nat, col: nat)
    requires row < board.Length0 && col < n <= board.Length1
    reads board
  {
    (forall i :: 0 <= i < row ==> board[i, col] == 0) &&
    (forall i, j :: 0 <= i <= row && 0 <= j && row - i == col - j ==> board[i, j] == 0) &&
    (forall i, j :: 0 <= i <= row && j < n && row - i == j - col ==> board[i, j] == 0)
  }

  /** is_safe: the three scans of the column and the two upper diagonals. */
  method IsSafe(board: array2<int>, n: nat, row: nat, col: nat) returns (safe: bool)
    requires row < board.Length0 && col < n <= board.Length1
    ensures safe <==> SafeOnBoard(board, n, row, col)
  {
    for i := 0 to row
      invariant forall k :: 0 <= k < i ==> board[k, col] == 0
    {
      if board[i, col] != 0 {
        return false;
      }
    }
    var i: int, j: int := row, col;
    while i >= 0 && j >= 0
      invariant -1 <= i <= row && row - i == col - j
      invariant forall i', j' :: i < i' <= row && 0 <= j' && row - i' == col - j' ==> board[i', j'] == 0
    {
      if board[i, j] != 0 {
        return false;
      }
      i, j := i - 1, j - 1;
    }
    i, j := row, col;
    while i >= 0 && j < n
      invariant -1 <= i <= row && row - i == j - col && j <= n
      invariant forall i', j' :: i < i' <= row && j' < n && row - i' == j' - col ==> board[i', j'] == 0
    {
      if board[i, j] != 0 {
        return false;
      }
      i, j := i - 1, j + 1;
    }
    return true;
  }

  /** On a board holding a placement for the rows above, is_safe answers
      whether a queen at (row, col) would be attacked. */
  lemma SafeIffNoAttack(board: array2<int>, n: nat, cols: seq<int>, col: nat)
    requires BoardIs(board, n, cols) && Placement(n, cols) && |cols| < n && col < n
    ensures SafeOnBoard(board, n, |cols|, col) <==> SafeCol(cols, col)
  {
    var row := |cols|;
    if SafeOnBoard(board, n, row, col) {
      forall i | 0 <= i < row ensures cols[i] != col && cols[i] != col - (row - i) && cols[i] != col + (row - i) {
        assert board[i, cols[i]] == 1;
      }
    }
  }

  /** The complete placements of n queens that extend cols, in the order
      the search finds them. */
  ghost function Completions(n: nat, cols: seq<int>): seq<seq<int>>
    decreases n - |cols|, n + 1
  {
    if |cols| >= n then [cols] else Extend(n, cols, 0)
  }

  /** The completions that put the next queen at a column in [c, n). */
  ghost function Extend(n: nat, cols: seq<int>, c: nat): seq<seq<int>>
    requires |cols| < n
    decreases n - |cols|, n - c
  {
    if c >= n then []
    else (if SafeCol(cols, c) then Completions(n, cols + [c]) else []) + Extend(n, cols, c + 1)
  }

  /** The search is sound and complete: from a valid placement of the top
      rows, it finds exactly the valid full placements extending it. */
  lemma {:induction false} CompletionsExact(n: nat, cols: seq<int>, s: seq<int>)
    requires Placement(n, cols) && |cols| <= n
    ensures s in Completions(n, cols) <==> |s| == n && Placement(n, s) && s[..|cols|] == cols
    decreases n - |cols|, n + 1
  {
    if |cols| < n {
      ExtendExact(n, cols, 0, s);
      if |s| == n && Placement(n, s) && s[..|cols|] == cols {
        assert 0 <= s[|cols|];
      }
    } else if |s| == n && s[..|cols|] == cols {
      assert s == s[..|cols|];
    }
  }

  /** The completions found from column c on are the valid full
      placements extending cols whose next queen is at column c or later. */
  lemma {:induction false} ExtendExact(n: nat, cols: seq<int>, c: nat, s: seq<int>)
    requires Placement(n, cols) && |cols| < n
    ensures s in Extend(n, cols, c) <==>
      |s| == n && Placement(n, s) && s[..|cols|] == cols && s[|cols|] >= c
    decreases n - |cols|, n - c
  {
    var k := |cols|;
    if c < n {
      ExtendExact(n, cols, c + 1, s);
      var here := |s| == n && Placement(n, s) && s[..k] == cols && s[k] == c;
      assert s in Extend(n, cols, c) <==> here || s in Extend(n, cols, c + 1) by {
        ExtendHere(n, cols, c, s);
      }
    } else if |s| == n && Placement(n, s) && s[..k] == cols {
      assert s[k] < n;
    }
  }

  /** The first part of Extend(n, cols, c) holds exactly the valid full
      placements extending cols + [c]. */
  lemma ExtendHere(n: nat, cols: seq<int>, c: nat, s: seq<int>)
    requires Placement(n, cols) && |cols| < n && c < n
    ensures var first := if SafeCol(cols, c) then Completions(n, cols + [c]) else [];
      s in first <==> |s| == n && Placement(n, s) && s[..|cols|] == cols && s[|cols|] == c
    decreases n - |cols|, 0
  {
    var k := |cols|;
    var next := cols + [c];
    PlacementExtend(n, cols, c);
    if SafeCol(cols, c) {
      CompletionsExact(n, next, s);
      if |s| == n && s[..k + 1] == next {
        assert s[..k] == next[..k] && s[k] == next[k];
      }
      if |s| == n && s[..k] == cols && s[k] == c {
        assert s[..k + 1] == s[..k] + [s[k]];
      }
    } else if |s| == n && Placement(n, s) && s[..k] == cols && s[k] == c {
      PlacementPrefix(n, s, k + 1);
    }
  }

  ghost predicate NoDuplicates(ss: seq<seq<int>>)
  {
    forall i, j :: 0 <= i < j < |ss| ==> ss[i] != ss[j]
  }

  /** The search never finds the same placement twice, so its count is the
      number of distinct solutions. */
  lemma {:induction false} CompletionsDistinct(n: nat, cols: seq<int>)
    requires Placement(n, cols) && |cols| <= n
    ensures NoDuplicates(Completions(n, cols))
    decreases n - |cols|, n + 1
  {
    if |cols| < n {
      ExtendDistinct(n, cols, 0);
    }
  }

  lemma {:induction false} ExtendDistinct(n: nat, cols: seq<int>, c: nat)
    requires Placement(n, cols) && |cols| < n
    ensures NoDuplicates(Extend(n, cols, c))
    decreases n - |cols|, n - c
  {
    if c < n {
      var k := |cols|;
      var first := if SafeCol(cols, c) then Completions(n, cols + [c]) else [];
      var rest := Extend(n, cols, c + 1);
      ExtendDistinct(n, cols, c + 1);
      if SafeCol(cols, c) {
        PlacementExtend(n, cols, c);
        CompletionsDistinct(n, cols + [c]);
      }
      forall x | x in first ensures x !in rest {
        ExtendHere(n, cols, c, x);
        ExtendExact(n, cols, c + 1, x);
      }
      JoinDistinct(first, rest);
    }
  }

  lemma JoinDistinct(a: seq<seq<int>>, b: seq<seq<int>>)
    requires NoDuplicates(a) && NoDuplicates(b)
    requires forall x :: x in a ==> x !in b
    ensures NoDuplicates(a + b)
  {
    var s := a + b;
    forall i, j | 0 <= i < j < |s| ensures s[i] != s[j] {
      if j < |a| { assert s[i] == a[i] && s[j] == a[j]; }
      else if i >= |a| { assert s[i] == b[i - |a|] && s[j] == b[j - |a|]; }
      else { assert s[i] == a[i] && s[j] == b[j - |a|] && s[j] in b; }
    }
  }

  /** A prefix of a placement is a placement. */
  lemma PlacementPrefix(n: nat, s: seq<int>, m: nat)
    requires Placement(n, s) && m <= |s|
    ensures Placement(n, s[..m])
  {
  }

  /** Writing a queen at (row, col) on a board for cols gives the board
      for cols + [col]. */
  lemma PlaceQueen(board: array2<int>, n: nat, cols: seq<int>, col: nat)
    requires |cols| < n <= board.Length0 && n <= board.Length1 && col < n
    requires board[|cols|, col] == 1
    requires forall i, j :: 0 <= i < n && 0 <= j < n && !(i == |cols| && j == col) ==>
      board[i, j] == if i < |cols| && cols[i] == j then 1 else 0
    ensures BoardIs(board, n, cols + [col])
  {
  }

  /** solve_n_queens: counts the solutions found from row on (the source
      counts them through the solutions_found pointer and prints each), and
      returns whether row is already past the last row. The board is the
      same on return as on entry. */
  method Solve(board: array2<int>, n: nat, row: nat, ghost cols: seq<int>) returns (found: bool, count: nat)
    requires row == |cols| <= n && BoardIs(board, n, cols) && Placement(n, cols)
    modifies board
    ensures found == (row >= n)
    ensures count == |Completions(n, cols)|
    ensures forall i, j :: 0 <= i < board.Length0 && 0 <= j < board.Length1 ==> board[i, j] == old(board[i, j])
    decreases n - row, 1
  {
    if row >= n {
      return true, 1;
    }
    count := 0;
    var col := 0;
    while col < n
      invariant 0 <= col <= n
      invariant count + |Extend(n, cols, col)| == |Extend(n, cols, 0)|
      invariant forall i, j :: 0 <= i < board.Length0 && 0 <= j < board.Length1 ==> board[i, j] == old(board[i, j])
    {
      var c := TryColumn(board, n, row, col, cols);
      count := count + c;
      col := col + 1;
    }
    return false, count;
  }

  /** One iteration of the column loop of solve_n_queens: if a queen at
      (row, col) is safe, place it, search the rows below and take it back. */
  method TryColumn(board: array2<int>, n: nat, row: nat, col: nat, ghost cols: seq<int>) returns (count: nat)
    requires row == |cols| < n && col < n && BoardIs(board, n, cols) && Placement(n, cols)
    modifies board
    ensures count == |if SafeCol(cols, col) then Completions(n, cols + [col]) else []|
    ensures forall i, j :: 0 <= i < board.Length0 && 0 <= j < board.Length1 ==> board[i, j] == old(board[i, j])
    decreases n - row, 0
  {
    var safe := IsSafe(board, n, row, col);
    SafeIffNoAttack(board, n, cols, col);
    count := 0;
    if safe {
      board[row, col] := 1;
      PlaceQueen(board, n, cols, col);
      PlacementExtend(n, cols, col);
      var _, c := Solve(board, n, row + 1, cols + [col]);
      count := c;
      board[row, col] := 0;
    }
  }

  /* The four-queens search tree, one lemma per placement it reaches:
     Dead* placements have no completion, Found* ones have one. */

  lemma Dead02() ensures Completions(4, [0, 2]) == []
  {
    var p := [0, 2];
    assert !SafeCol(p, 0) by { assert p[0] == 0; }
    assert !SafeCol(p, 1) by { assert p[1] == 2; }
    assert !SafeCol(p, 2) by { assert p[1] == 2; }
    assert !SafeCol(p, 3) by { assert p[1] == 2; }
    assert Extend(4, p, 3) == [];
    assert Extend(4, p, 2) == [];
    assert Extend(4, p, 1) == [];
  }

  lemma Dead031() ensures Completions(4, [0, 3, 1]) == []
  {
    var p := [0, 3, 1];
    assert !SafeCol(p, 0) by { assert p[0] == 0; }
    assert !SafeCol(p, 1) by { assert p[2] == 1; }
    assert !SafeCol(p, 2) by { assert p[2] == 1; }
    assert !SafeCol(p, 3) by { assert p[1] == 3; }
    assert Extend(4, p, 3) == [];
    assert Extend(4, p, 2) == [];
    assert Extend(4, p, 1) == [];
  }

  lemma Dead03() ensures Completions(4, [0, 3]) == []
  {
    var p := [0, 3];
    assert !SafeCol(p, 0) by { assert p[0] == 0; }
    assert SafeCol(p, 1);
    assert p + [1] == [0, 3, 1];
    Dead031();
    assert !SafeCol(p, 2) by { assert p[1] == 3; }
    assert !SafeCol(p, 3) by { assert p[1] == 3; }
    assert Extend(4, p, 3) == [];
    assert Extend(4, p, 2) == [];
    assert Extend(4, p, 1) == [];
  }

  lemma Dead0() ensures Completions(4, [0]) == []
  {
    var p := [0];
    assert !SafeCol(p, 0) by { assert p[0] == 0; }
    assert !SafeCol(p, 1) by { assert p[0] == 0; }
    assert SafeCol(p, 2);
    assert SafeCol(p, 3);
    Dead02();
    Dead03();
    calc {
      Completions(4, p);
      Extend(4, p, 0);
      Extend(4, p, 1);
      Extend(4, p, 2);
      { assert p + [2] == [0, 2]; }
      [] + Extend(4, p, 3);
      { assert p + [3] == [0, 3]; }
      [] + ([] + Extend(4, p, 4));
      [];
    }
  }

  lemma Found130() ensures Completions(4, [1, 3, 0]) == [[1, 3, 0, 2]]
  {
    var p := [1, 3, 0];
    assert !SafeCol(p, 0) by { assert p[2] == 0; }
    assert !SafeCol(p, 1) by { assert p[2] == 0; }
    assert SafeCol(p, 2);
    assert !SafeCol(p, 3) by { assert p[1] == 3; }
    calc {
      Completions(4, p);
      Extend(4, p, 0);
      Extend(4, p, 1);
      Extend(4, p, 2);
      { assert p + [2] == [1, 3, 0, 2]; }
      [[1, 3, 0, 2]] + Extend(4, p, 3);
      [[1, 3, 0, 2]] + ([] + Extend(4, p, 4));
      [[1, 3, 0, 2]];
    }
  }

  lemma Found13() ensures Completions(4, [1, 3]) == [[1, 3, 0, 2]]
  {
    var p := [1, 3];
    assert SafeCol(p, 0);
    assert !SafeCol(p, 1) by { assert p[0] == 1; }
    assert !SafeCol(p, 2) by { assert p[1] == 3; }
    assert !SafeCol(p, 3) by { assert p[1] == 3; }
    Found130();
    calc {
      Completions(4, p);
      Extend(4, p, 0);
      { assert p + [0] == [1, 3, 0]; }
      [[1, 3, 0, 2]] + Extend(4, p, 1);
      [[1, 3, 0, 2]] + Extend(4, p, 2);
      [[1, 3, 0, 2]] + Extend(4, p, 3);
      [[1, 3, 0, 2]] + ([] + Extend(4, p, 4));
      [[1, 3, 0, 2]];
    }
  }

  lemma Found1() ensures Completions(4, [1]) == [[1, 3, 0, 2]]
  {
    var p := [1];
    assert !SafeCol(p, 0) by { assert p[0] == 1; }
    assert !SafeCol(p, 1) by { assert p[0] == 1; }
    assert !SafeCol(p, 2) by { assert p[0] == 1; }
    assert SafeCol(p, 3);
    Found13();
    calc {
      Completions(4, p);
      Extend(4, p, 0);
      Extend(4, p, 1);
      Extend(4, p, 2);
      Extend(4, p, 3);
      { assert p + [3] == [1, 3]; }
      [[1, 3, 0, 2]] + Extend(4, p, 4);
      [[1, 3, 0, 2]];
    }
  }

  lemma Found203() ensures Completions(4, [2, 0, 3]) == [[2, 0, 3, 1]]
  {
    var p := [2, 0, 3];
    assert !SafeCol(p, 0) by { assert p[1] == 0; }
    assert SafeCol(p, 1);
    assert !SafeCol(p, 2) by { assert p[0] == 2; }
    assert !SafeCol(p, 3) by { assert p[2] == 3; }
    calc {
      Completions(4, p);
      Extend(4, p, 0);
      Extend(4, p, 1);
      { assert p + [1] == [2, 0, 3, 1]; }
      [[2, 0, 3, 1]] + Extend(4, p, 2);
      [[2, 0, 3, 1]] + Extend(4, p, 3);
      [[2, 0, 3, 1]] + ([] + Extend(4, p, 4));
      [[2, 0, 3, 1]];
    }
  }

  lemma Found20() ensures Completions(4, [2, 0]) == [[2, 0, 3, 1]]
  {
    var p := [2, 0];
    assert !SafeCol(p, 0) by { assert p[1] == 0; }
    assert !SafeCol(p, 1) by { assert p[1] == 0; }
    assert !SafeCol(p, 2) by { assert p[0] == 2; }
    assert SafeCol(p, 3);
    Found203();
    calc {
      Completions(4, p);
      Extend(4, p, 0);
      Extend(4, p, 1);
      Extend(4, p, 2);
      Extend(4, p, 3);
      { assert p + [3] == [2, 0, 3]; }
      [[2, 0, 3, 1]] + Extend(4, p, 4);
      [[2, 0, 3, 1]];
    }
  }

  lemma Found2() ensures Completions(4, [2]) == [[2, 0, 3, 1]]
  {
    var p := [2];
    assert SafeCol(p, 0);
    assert !SafeCol(p, 1) by { assert p[0] == 2; }
    assert !SafeCol(p, 2) by { assert p[0] == 2; }
    assert !SafeCol(p, 3) by { assert p[0] == 2; }
    Found20();
    calc {
      Completions(4, p);
      Extend(4, p, 0);
      { assert p + [0] == [2, 0]; }
      [[2, 0, 3, 1]] + Extend(4, p, 1);
      [[2, 0, 3, 1]] + Extend(4, p, 2);
      [[2, 0, 3, 1]] + Extend(4, p, 3);
      [[2, 0, 3, 1]] + ([] + Extend(4, p, 4));
      [[2, 0, 3, 1]];
    }
  }

  lemma Dead302() ensures Completions(4, [3, 0, 2]) == []
  {
    var p := [3, 0, 2];
    assert !SafeCol(p, 0) by { assert p[1] == 0; }
    assert !SafeCol(p, 1) by { assert p[2] == 2; }
    assert !SafeCol(p, 2) by { assert p[2] == 2; }
    assert !SafeCol(p, 3) by { assert p[0] == 3; }
    assert Extend(4, p, 3) == [];
    assert Extend(4, p, 2) == [];
    assert Extend(4, p, 1) == [];
  }

  lemma Dead30() ensures Completions(4, [3, 0]) == []
  {
    var p := [3, 0];
    assert !SafeCol(p, 0) by { assert p[1] == 0; }
    assert !SafeCol(p, 1) by { assert p[1] == 0; }
    assert SafeCol(p, 2);
    assert !SafeCol(p, 3) by { assert p[0] == 3; }
    Dead302();
    calc {
      Completions(4, p);
      Extend(4, p, 0);
      Extend(4, p, 1);
      Extend(4, p, 2);
      { assert p + [2] == [3, 0, 2]; }
      [] + Extend(4, p, 3);
      [] + ([] + Extend(4, p, 4));
      [];
    }
  }

  lemma Dead31() ensures Completions(4, [3, 1]) == []
  {
    var p := [3, 1];
    assert !SafeCol(p, 0) by { assert p[1] == 1; }
    assert !SafeCol(p, 1) by { assert p[1] == 1; }
    assert !SafeCol(p, 2) by { assert p[1] == 1; }
    assert !SafeCol(p, 3) by { assert p[0] == 3; }
    assert Extend(4, p, 3) == [];
    assert Extend(4, p, 2) == [];
    assert Extend(4, p, 1) == [];
  }

  lemma Dead3() ensures Completions(4, [3]) == []
  {
    var p := [3];
    assert SafeCol(p, 0);
    assert SafeCol(p, 1);
    assert !SafeCol(p, 2) by { assert p[0] == 3; }
    assert !SafeCol(p, 3) by { assert p[0] == 3; }
    Dead30();
    Dead31();
    calc {
      Completions(4, p);
      Extend(4, p, 0);
      { assert p + [0] == [3, 0]; }
      [] + Extend(4, p, 1);
      { assert p + [1] == [3, 1]; }
      [] + ([] + Extend(4, p, 2));
      [] + ([] + Extend(4, p, 3));
      [] + ([] + ([] + Extend(4, p, 4)));
      [];
    }
  }

  lemma FromTwo(p: seq<int>)
    requires p == []
    ensures Extend(4, p, 2) == [[2, 0, 3, 1]]
  {
    assert SafeCol(p, 2) && SafeCol(p, 3);
    Found2();
    Dead3();
    assert p + [2] == [2];
    assert p + [3] == [3];
    assert Extend(4, p, 3) == [];
  }

  lemma FromOne(p: seq<int>)
    requires p == []
    ensures Extend(4, p, 1) == [[1, 3, 0, 2], [2, 0, 3, 1]]
  {
    assert SafeCol(p, 1);
    Found1();
    FromTwo(p);
    assert p + [1] == [1];
  }

  lemma FromZero(p: seq<int>)
    requires p == []
    ensures Completions(4, p) == [[1, 3, 0, 2], [2, 0, 3, 1]]
  {
    assert SafeCol(p, 0);
    Dead0();
    FromOne(p);
    assert p + [0] == [0];
  }

  /** The two solutions of the four-queens problem, in the order the
      search finds them. */
  lemma FourQueens()
    ensures Completions(4, []) == [[1, 3, 0, 2], [2, 0, 3, 1]]
  {
    FromZero([]);
  }

  /** find_all_solutions: runs the search on an empty MAX_N x MAX_N board;
      the count is the number of valid placements of n queens. */
  method FindAllSolutions(n: nat) returns (count: nat)
    requires n <= MAX_N
    ensures count == |Completions(n, [])|
    ensures n == 4 ==> count == 2
  {
    if n == 4 {
      FourQueens();
    }
    var board := new int[MAX_N, MAX_N]((i, j) => 0);
    var _, c := Solve(board, n, 0, []);
    count := c;
  }
}
