/** The language of ScriptingLanguage/examples/04_control_flow.c:
    statements (`let`, assignment, `print`, `if`, `while`) and blocks over
    expressions with '<' and '>' on the level of '+' and '-'. A `while`
    whose condition never becomes 0 makes the C program run forever; here
    every evaluation carries a fuel bound on loop turns and reports "Out of
    fuel" when it is used up. The symbol table is the one of
    03_variables.c, with its 100-variable bound (see SlotAsWritten for the
    table_set of this file). */
module ControlFlow {
  import opened Common
  import opened ScriptLexing
  import Variables

  // ------------------------------------------------------------- tokens

  datatype Kind =
    | Number | Identifier
    | Plus | Minus | Star | Slash | Equals | Less | Greater
    | LParen | RParen | LBrace | RBrace | Semicolon | Comma
    | Let | If | While | Print
    | Eof | Error

  /** A token; the C fields next_token leaves unset are "" and 0 here. */
  datatype Token = Token(kind: Kind, lexeme: string, number: real)

  /** The token type of a one-character token; any other character is an
      error. */
  function OperatorKind(c: char): (k: Kind)
    ensures k !in {Number, Identifier, Let, If, While, Print, Eof}
    ensures k == Error <==> c !in "+-*/=<>(){};,"
  {
    match c
    case '+' => Plus
    case '-' => Minus
    case '*' => Star
    case '/' => Slash
    case '=' => Equals
    case '<' => Less
    case '>' => Greater
    case '(' => LParen
    case ')' => RParen
    case '{' => LBrace
    case '}' => RBrace
    case ';' => Semicolon
    case ',' => Comma
    case _ => Error
  }

  /** The four keywords; every other word is an identifier. */
  function WordKind(w: string): (k: Kind)
    ensures k == Let <==> w == "let"
    ensures k == If <==> w == "if"
    ensures k == While <==> w == "while"
    ensures k == Print <==> w == "print"
    ensures k == Identifier <==> w !in {"let", "if", "while", "print"}
  {
    if w == "let" then Let
    else if w == "if" then If
    else if w == "while" then While
    else if w == "print" then Print
    else Identifier
  }

  /** The token next_token reads when, after the blanks, it starts at
      `start` and leaves the lexer at `end`. A number starts with a digit
      here. */
  ghost predicate Lexes(s: string, start: nat, end: nat, token: Token)
    requires '\0' in s && start <= end <= StrLen(s)
  {
    if s[start] == '\0' then
      end == start && token == Token(Eof, "", 0.0)
    else if IsDigit(s[start]) then
      NumberRun(s, start, end) && token == Token(Number, s[start..end], Atof(s[start..end]))
    else if IsIdentStart(s[start]) then
      WordRun(s, start, end) && token == Token(WordKind(s[start..end]), s[start..end], 0.0)
    else
      end == start + 1 && token == Token(OperatorKind(s[start]), [s[start]], 0.0)
  }

  /** next_token: skips the blanks from i and reads one token. At the NUL it
      returns EOF and stays there; otherwise it moves on. */
  method NextToken(s: string, i: nat) returns (token: Token, j: nat)
    requires '\0' in s && i <= StrLen(s)
    ensures BlanksEnd(s, i) <= j <= StrLen(s)
    ensures Lexes(s, BlanksEnd(s, i), j, token)
    ensures token.kind == Eof <==> j == BlanksEnd(s, i)
  {
    var k := SkipBlanks(s, i);
    var c := s[k];
    if c == '\0' {
      return Token(Eof, "", 0.0), k;
    }
    if IsDigit(c) {
      j := ScanNumber(s, k);
      var lexeme := s[k..j];
      return Token(Number, lexeme, Atof(lexeme)), j;
    }
    if IsAlpha(c) || c == '_' {
      j := ScanWord(s, k);
      var lexeme := s[k..j];
      return Token(WordKind(lexeme), lexeme, 0.0), j;
    }
    return Token(OperatorKind(c), [c], 0.0), k + 1;
  }

  /** The same text and position always give the same token and the same
      next position. */
  lemma LexesUnique(s: string, i: nat, end1: nat, t1: Token, end2: nat, t2: Token)
    requires '\0' in s && i <= end1 <= StrLen(s) && i <= end2 <= StrLen(s)
    requires Lexes(s, i, end1, t1) && Lexes(s, i, end2, t2)
    ensures end1 == end2 && t1 == t2
  {
    if s[i] != '\0' && IsDigit(s[i]) {
      NumberRunUnique(s, i, end1, end2);
    } else if s[i] != '\0' && IsIdentStart(s[i]) {
      WordRunUnique(s, i, end1, end2);
    }
  }

  // ---------------------------------------------------------------- AST

  datatype BinOp = Add | Sub | Mul | Div | Below | Above

  /** The tree the parser builds; `let` and assignment both become
      Assign. */
  datatype Expr =
    | Num(value: real)
    | Var(name: string)
    | Binary(op: BinOp, left: Expr, right: Expr)
    | Assign(name: string, bound: Expr)
    | Output(printed: Expr)
    | IfThen(cond: Expr, body: Expr)
    | Loop(cond: Expr, body: Expr)
    | Block(stmts: seq<Expr>)

  /** The six operator tokens of the expression grammar. */
  predicate IsBinaryKind(k: Kind)
  {
    k in {Plus, Minus, Star, Slash, Less, Greater}
  }

  function OpOf(k: Kind): BinOp
    requires IsBinaryKind(k)
  {
    match k
    case Plus => Add
    case Minus => Sub
    case Star => Mul
    case Slash => Div
    case Less => Below
    case Greater => Above
  }

  // ------------------------------------------------------------ grammar

  /** A derivation, keeping every token it covers. The tokens the parser
      consumes without looking ('(' ')' '=' ';' and a `let` name) may be
      any token. */
  datatype Syntax =
    | SNumber(token: Token)
    | SVar(token: Token)
    | SParen(open: Token, inner: Syntax, close: Token)
    | SBinary(left: Syntax, op: Token, right: Syntax)
    | SLet(keyword: Token, target: Token, eq: Token, value: Syntax, semi: Token)
    | SAssign(target: Token, eq: Token, value: Syntax, semi: Token)
    | SPrint(keyword: Token, open: Token, value: Syntax, close: Token, semi: Token)
    | SIf(keyword: Token, open: Token, cond: Syntax, close: Token, body: Syntax)
    | SWhile(keyword: Token, open: Token, cond: Syntax, close: Token, body: Syntax)
    | SBlock(open: Token, stmts: seq<Syntax>, close: Token)

  ghost function Yield(t: Syntax): seq<Token>
  {
    match t
    case SNumber(tok) => [tok]
    case SVar(tok) => [tok]
    case SParen(open, e, close) => [open] + Yield(e) + [close]
    case SBinary(l, op, r) => Yield(l) + [op] + Yield(r)
    case SLet(keyword, target, eq, v, semi) => [keyword, target, eq] + Yield(v) + [semi]
    case SAssign(target, eq, v, semi) => [target, eq] + Yield(v) + [semi]
    case SPrint(keyword, open, v, close, semi) => [keyword, open] + Yield(v) + [close, semi]
    case SIf(keyword, open, c, close, b) => [keyword, open] + Yield(c) + [close] + Yield(b)
    case SWhile(keyword, open, c, close, b) => [keyword, open] + Yield(c) + [close] + Yield(b)
    case SBlock(open, stmts, close) => [open] + YieldAll(stmts) + [close]
  }

  /** The tokens of a run of derivations, one after another. */
  ghost function YieldAll(ts: seq<Syntax>): seq<Token>
  {
    if |ts| == 0 then [] else YieldAll(ts[..|ts| - 1]) + Yield(ts[|ts| - 1])
  }

  /** factor → NUMBER | IDENTIFIER | '(' expression any */
  ghost predicate IsFactor(t: Syntax)
    decreases t, 0
  {
    match t
    case SNumber(tok) => tok.kind == Number
    case SVar(tok) => tok.kind == Identifier
    case SParen(open, e, _) => open.kind == LParen && IsExpression(e)
    case _ => false
  }

  /** term → factor (('*' | '/') factor)*, as a left-leaning tree. */
  ghost predicate IsTerm(t: Syntax)
    decreases t, 1
  {
    match t
    case SBinary(l, op, r) => op.kind in {Star, Slash} && IsTerm(l) && IsFactor(r)
    case _ => IsFactor(t)
  }

  /** expression → term (('+' | '-' | '<' | '>') term)*: parse_expression
      is parse_comparison, one level for the four operators. */
  ghost predicate IsExpression(t: Syntax)
    decreases t, 2
  {
    match t
    case SBinary(l, op, r) =>
      if op.kind in {Plus, Minus, Less, Greater} then IsExpression(l) && IsTerm(r) else IsTerm(t)
    case _ => IsFactor(t)
  }

  /** statement → 'let' any any expression any
                | 'print' any expression any any
                | 'if' any expression any block
                | 'while' any expression any block
                | IDENTIFIER any expression any */
  ghost predicate IsStatement(t: Syntax)
  {
    match t
    case SLet(keyword, _, _, v, _) => keyword.kind == Let && IsExpression(v)
    case SAssign(target, _, v, _) => target.kind == Identifier && IsExpression(v)
    case SPrint(keyword, _, v, _, _) => keyword.kind == Print && IsExpression(v)
    case SIf(keyword, _, c, _, b) => keyword.kind == If && IsExpression(c) && IsBlock(b)
    case SWhile(keyword, _, c, _, b) => keyword.kind == While && IsExpression(c) && IsBlock(b)
    case _ => false
  }

  /** block → any statement* ('}' | EOF): the statements run until a '}'
      or the end of the text. */
  ghost predicate IsBlock(t: Syntax)
  {
    t.SBlock? && t.close.kind in {RBrace, Eof}
    && forall i :: 0 <= i < |t.stmts| ==> IsStatement(t.stmts[i])
  }

  /** The tree the parser returns for a derivation. */
  ghost function Ast(t: Syntax): Expr
  {
    match t
    case SNumber(tok) => Num(tok.number)
    case SVar(tok) => Var(tok.lexeme)
    case SParen(_, e, _) => Ast(e)
    case SBinary(l, op, r) =>
      // a derivation's operator token is always one of the six
      if IsBinaryKind(op.kind) then Binary(OpOf(op.kind), Ast(l), Ast(r)) else Ast(l)
    case SLet(_, target, _, v, _) => Assign(target.lexeme, Ast(v))
    case SAssign(target, _, v, _) => Assign(target.lexeme, Ast(v))
    case SPrint(_, _, v, _, _) => Output(Ast(v))
    case SIf(_, _, c, _, b) => IfThen(Ast(c), Ast(b))
    case SWhile(_, _, c, _, b) => Loop(Ast(c), Ast(b))
    case SBlock(_, stmts, _) => Block(AstAll(stmts))
  }

  ghost function AstAll(ts: seq<Syntax>): (r: seq<Expr>)
    ensures |r| == |ts|
  {
    if |ts| == 0 then [] else AstAll(ts[..|ts| - 1]) + [Ast(ts[|ts| - 1])]
  }

  /** A factor is a term, a term an expression. */
  lemma Lift(t: Syntax)
    ensures IsFactor(t) ==> IsTerm(t)
    ensures IsTerm(t) ==> IsExpression(t)
  {
  }

  /** The two readings of a binary derivation: an expression joined by one
      of '+' '-' '<' '>' to a term, or a term joined by '*' or '/' to a
      factor. */
  lemma BinaryParts(t: Syntax)
    requires IsExpression(t) && t.SBinary?
    ensures t.op.kind in {Plus, Minus, Less, Greater} ==> IsExpression(t.left) && IsTerm(t.right)
    ensures t.op.kind !in {Plus, Minus, Less, Greater} ==> t.op.kind in {Star, Slash} && IsTerm(t.left) && IsFactor(t.right)
    ensures IsExpression(t.left) && IsExpression(t.right)
  {
    Lift(t.left);
    Lift(t.right);
  }

  /** Every expression derivation covers at least one token, and the first
      can start a factor. */
  lemma {:induction false} YieldStart(t: Syntax)
    requires IsExpression(t)
    ensures |Yield(t)| >= 1 && Yield(t)[0].kind in {Number, Identifier, LParen}
  {
    match t
    case SBinary(l, _, r) =>
      BinaryParts(t);
      YieldStart(l);
    case _ =>
  }

  /** A derivation of a single number token is that number. */
  lemma OneToken(t: Syntax)
    requires IsExpression(t) && |Yield(t)| == 1 && Yield(t)[0].kind == Number
    ensures t == SNumber(Yield(t)[0]) && Ast(t) == Num(Yield(t)[0].number)
  {
    if t.SBinary? {
      BinaryParts(t);
      YieldStart(t.left);
      YieldStart(t.right);
    }
  }

  /** Where the parts of a binary derivation sit in its tokens. */
  lemma Split(t: Syntax)
    requires t.SBinary?
    ensures |Yield(t.left)| < |Yield(t)|
    ensures Yield(t)[..|Yield(t.left)|] == Yield(t.left)
    ensures Yield(t)[|Yield(t.left)|] == t.op
    ensures Yield(t)[|Yield(t.left)| + 1..] == Yield(t.right)
  {
  }

  /** A derivation of a number, an operator and a number joins the two
      numbers. */
  lemma ThreeTokens(t: Syntax, a: Token, o: Token, b: Token)
    requires IsExpression(t) && Yield(t) == [a, o, b] && a.kind == Number && b.kind == Number
    ensures t == SBinary(SNumber(a), o, SNumber(b)) && IsBinaryKind(o.kind)
    ensures IsTerm(t) <==> o.kind in {Star, Slash}
    ensures Ast(t) == Binary(OpOf(o.kind), Num(a.number), Num(b.number))
  {
    YieldStart(t);
    match t
    case SBinary(l, _, r) =>
      BinaryParts(t);
      Split(t);
      YieldStart(l);
      YieldStart(r);
      assert Yield(l) == [a] && Yield(r) == [b];
      OneToken(l);
      OneToken(r);
    case _ =>
  }

  /** One precedence level for '+' '-' '<' '>': any two of them in
      `a o1 b o2 c` group to the left, as do '*' and '/'; so `a < b + c`
      compares a with b first and adds c to the 0 or 1. */
  lemma LeftAssociative(t: Syntax, a: Token, o1: Token, b: Token, o2: Token, c: Token)
    requires a.kind == Number && b.kind == Number && c.kind == Number
    requires (o1.kind in {Plus, Minus, Less, Greater} && o2.kind in {Plus, Minus, Less, Greater})
          || (o1.kind in {Star, Slash} && o2.kind in {Star, Slash})
    requires IsExpression(t) && Yield(t) == [a, o1, b, o2, c]
    ensures Ast(t) == Binary(OpOf(o2.kind), Binary(OpOf(o1.kind), Num(a.number), Num(b.number)), Num(c.number))
  {
    YieldStart(t);
    match t
    case SBinary(l, op, r) =>
      BinaryParts(t);
      Split(t);
      YieldStart(l);
      YieldStart(r);
      var n := |Yield(l)|;
      assert op == Yield(t)[n] && Yield(r)[0] == Yield(t)[n + 1];
      if n == 1 {
        assert Yield(l) == [a] && Yield(r) == [b, o2, c];
        ThreeTokens(r, b, o2, c);
      } else {
        assert n == 3 && Yield(l) == [a, o1, b] && Yield(r) == [c];
        ThreeTokens(l, a, o1, b);
        OneToken(r);
        assert Ast(t) == Binary(OpOf(o2.kind), Ast(l), Ast(r));
      }
    case _ =>
  }

  // ------------------------------------------------------------- parser

  /** The parser: the lexer's text and position and the current token;
      `consumed` records, for the proofs, every token consume handed out. */
  class Parser {
    const source: string
    var pos: nat
    var current: Token
    ghost var consumed: seq<Token>

    ghost predicate Valid()
      reads this
    {
      '\0' in source && pos <= StrLen(source)
      && (current.kind == Eof ==> pos == StrLen(source))
    }

    /** Decreases with every token other than EOF consumed. */
    ghost function Measure(): nat
      reads this
      requires Valid()
    {
      2 * (StrLen(source) - pos) + (if current.kind == Eof then 0 else 1)
    }

    /** parser_init: starts the lexer at 0 and reads the first token. */
    constructor (source: string)
      requires '\0' in source
      ensures Valid() && this.source == source && consumed == []
      ensures BlanksEnd(source, 0) <= pos && Lexes(source, BlanksEnd(source, 0), pos, current)
    {
      this.source := source;
      var token, j := NextToken(source, 0);
      pos, current := j, token;
      consumed := [];
    }

    /** consume: hands out the current token and reads the next one. */
    method Consume() returns (token: Token)
      requires Valid()
      modifies this
      ensures Valid() && token == old(current) && consumed == old(consumed) + [token]
      ensures BlanksEnd(source, old(pos)) <= pos && Lexes(source, BlanksEnd(source, old(pos)), pos, current)
      ensures Measure() <= old(Measure())
      ensures token.kind != Eof ==> Measure() < old(Measure())
    {
      token := current;
      var next, j := NextToken(source, pos);
      pos, current := j, next;
      consumed := consumed + [token];
    }

    /** parse_factor. On success it has consumed the tokens of a factor
        derivation and returns that derivation's tree; where this returns
        an error the C program exits. */
    method ParseFactor() returns (r: Result<Expr>, ghost tree: Syntax)
      requires Valid()
      modifies this
      ensures Valid() && Measure() <= old(Measure())
      ensures r.Success? ==> IsFactor(tree) && consumed == old(consumed) + Yield(tree)
                             && r.value == Ast(tree) && Measure() < old(Measure())
      ensures r.Failure? ==> r.error == "Unexpected token"
      decreases Measure(), 0
    {
      if current.kind == Number {
        var token := Consume();
        return Success(Num(token.number)), SNumber(token);
      }
      if current.kind == Identifier {
        var token := Consume();
        return Success(Var(token.lexeme)), SVar(token);
      }
      if current.kind == LParen {
        var open := Consume();
        r, tree := ParseParenthesised(old(consumed), open);
        return;
      }
      return Failure("Unexpected token"), SNumber(current);
    }

    /** The rest of parse_factor after a '(': an expression, then whatever
        token follows it is consumed as the ')'. */
    method ParseParenthesised(ghost before: seq<Token>, ghost open: Token) returns (r: Result<Expr>, ghost tree: Syntax)
      requires Valid() && open.kind == LParen && consumed == before + [open]
      modifies this
      ensures Valid() && Measure() <= old(Measure())
      ensures r.Success? ==> IsFactor(tree) && consumed == before + Yield(tree)
                             && r.value == Ast(tree) && Measure() < old(Measure())
      ensures r.Failure? ==> r.error == "Unexpected token"
      decreases Measure(), 4
    {
      var inner, t := ParseExpression();
      if inner.Failure? {
        return inner, t;
      }
      var close := Consume();
      tree := SParen(open, t, close);
      ConcatAssoc(before, [open], Yield(t));
      ConcatAssoc(before, [open] + Yield(t), [close]);
      return inner, tree;
    }

    /** parse_term: a factor, then factors joined by '*' and '/'. */
    method ParseTerm() returns (r: Result<Expr>, ghost tree: Syntax)
      requires Valid()
      modifies this
      ensures Valid() && Measure() <= old(Measure())
      ensures r.Success? ==> IsTerm(tree) && consumed == old(consumed) + Yield(tree)
                             && r.value == Ast(tree) && Measure() < old(Measure())
                             && current.kind !in {Star, Slash}
      ensures r.Failure? ==> r.error == "Unexpected token"
      decreases Measure(), 1
    {
      r, tree := ParseFactor();
      if r.Failure? {
        return;
      }
      while current.kind == Star || current.kind == Slash
        invariant Valid() && Measure() < old(Measure())
        invariant r.Success? && IsTerm(tree) && consumed == old(consumed) + Yield(tree) && r.value == Ast(tree)
        decreases Measure()
      {
        r, tree := TermStep(old(consumed), r.value, tree);
        if r.Failure? {
          return;
        }
      }
    }

    /** One turn of parse_term's loop. */
    method TermStep(ghost before: seq<Token>, left: Expr, ghost lt: Syntax) returns (r: Result<Expr>, ghost tree: Syntax)
      requires Valid() && current.kind in {Star, Slash}
      requires IsTerm(lt) && consumed == before + Yield(lt) && left == Ast(lt)
      modifies this
      ensures Valid() && Measure() < old(Measure())
      ensures r.Success? ==> IsTerm(tree) && consumed == before + Yield(tree) && r.value == Ast(tree)
      ensures r.Failure? ==> r.error == "Unexpected token"
      decreases Measure(), 4
    {
      var op := Consume();
      var right, t := ParseFactor();
      if right.Failure? {
        return right, t;
      }
      tree := SBinary(lt, op, t);
      ConcatAssoc(before, Yield(lt), [op]);
      ConcatAssoc(before, Yield(lt) + [op], Yield(t));
      return Success(Binary(OpOf(op.kind), left, right.value)), tree;
    }

    /** parse_comparison: a term, then terms joined by '+', '-', '<' and
        '>'. */
    method ParseComparison() returns (r: Result<Expr>, ghost tree: Syntax)
      requires Valid()
      modifies this
      ensures Valid() && Measure() <= old(Measure())
      ensures r.Success? ==> IsExpression(tree) && consumed == old(consumed) + Yield(tree)
                             && r.value == Ast(tree) && Measure() < old(Measure())
                             && !IsBinaryKind(current.kind)
      ensures r.Failure? ==> r.error == "Unexpected token"
      decreases Measure(), 2
    {
      r, tree := ParseTerm();
      if r.Failure? {
        return;
      }
      Lift(tree);
      while current.kind in {Plus, Minus, Less, Greater}
        invariant Valid() && Measure() < old(Measure())
        invariant r.Success? && IsExpression(tree) && consumed == old(consumed) + Yield(tree) && r.value == Ast(tree)
        invariant current.kind !in {Star, Slash}
        decreases Measure()
      {
        r, tree := ComparisonStep(old(consumed), r.value, tree);
        if r.Failure? {
          return;
        }
      }
    }

    /** One turn of parse_comparison's loop. */
    method ComparisonStep(ghost before: seq<Token>, left: Expr, ghost lt: Syntax) returns (r: Result<Expr>, ghost tree: Syntax)
      requires Valid() && current.kind in {Plus, Minus, Less, Greater}
      requires IsExpression(lt) && consumed == before + Yield(lt) && left == Ast(lt)
      modifies this
      ensures Valid() && Measure() < old(Measure())
      ensures r.Success? ==> IsExpression(tree) && consumed == before + Yield(tree) && r.value == Ast(tree)
                             && current.kind !in {Star, Slash}
      ensures r.Failure? ==> r.error == "Unexpected token"
      decreases Measure(), 4
    {
      var op := Consume();
      var right, t := ParseTerm();
      if right.Failure? {
        return right, t;
      }
      tree := SBinary(lt, op, t);
      ConcatAssoc(before, Yield(lt), [op]);
      ConcatAssoc(before, Yield(lt) + [op], Yield(t));
      return Success(Binary(OpOf(op.kind), left, right.value)), tree;
    }

    /** parse_expression: parse_comparison. */
    method ParseExpression() returns (r: Result<Expr>, ghost tree: Syntax)
      requires Valid()
      modifies this
      ensures Valid() && Measure() <= old(Measure())
      ensures r.Success? ==> IsExpression(tree) && consumed == old(consumed) + Yield(tree)
                             && r.value == Ast(tree) && Measure() < old(Measure())
                             && !IsBinaryKind(current.kind)
      ensures r.Failure? ==> r.error == "Unexpected token"
      decreases Measure(), 3
    {
      r, tree := ParseComparison();
    }

    /** parse_statement: the statement its first token selects; any other
        first token is "Unexpected statement". */
    method ParseStatement() returns (r: Result<Expr>, ghost tree: Syntax)
      requires Valid()
      modifies this
      ensures Valid() && Measure() <= old(Measure())
      ensures r.Success? ==> IsStatement(tree) && consumed == old(consumed) + Yield(tree)
                             && r.value == Ast(tree) && Measure() < old(Measure())
      ensures r.Failure? ==> r.error in {"Unexpected token", "Unexpected statement"}
      ensures r.Failure? && old(current).kind !in {Let, Print, If, While, Identifier} ==> r.error == "Unexpected statement"
      decreases Measure(), 5
    {
      var kind := current.kind;
      if kind !in {Let, Print, If, While, Identifier} {
        return Failure("Unexpected statement"), SNumber(current);
      }
      var first := Consume();
      if kind == Let {
        r, tree := ParseLet(old(consumed), first);
      } else if kind == Print {
        r, tree := ParsePrint(old(consumed), first);
      } else if kind == Identifier {
        r, tree := ParseAssign(old(consumed), first);
      } else {
        r, tree := ParseControl(old(consumed), first);
      }
    }

    /** `let` NAME '=' expression ';', with the three tokens around the
        expression consumed without looking. */
    method ParseLet(ghost before: seq<Token>, keyword: Token) returns (r: Result<Expr>, ghost tree: Syntax)
      requires Valid() && keyword.kind == Let && consumed == before + [keyword]
      modifies this
      ensures Valid() && Measure() <= old(Measure())
      ensures r.Success? ==> IsStatement(tree) && consumed == before + Yield(tree) && r.value == Ast(tree)
      ensures r.Failure? ==> r.error == "Unexpected token"
      decreases Measure(), 4
    {
      var target := Consume();
      var eq := Consume();
      assert consumed == before + [keyword, target, eq];
      var value, t := ParseExpression();
      if value.Failure? {
        return value, t;
      }
      var semi := Consume();
      tree := SLet(keyword, target, eq, t, semi);
      ConcatAssoc(before, [keyword, target, eq], Yield(t));
      ConcatAssoc(before, [keyword, target, eq] + Yield(t), [semi]);
      return Success(Assign(target.lexeme, value.value)), tree;
    }

    /** NAME '=' expression ';' after the name. */
    method ParseAssign(ghost before: seq<Token>, target: Token) returns (r: Result<Expr>, ghost tree: Syntax)
      requires Valid() && target.kind == Identifier && consumed == before + [target]
      modifies this
      ensures Valid() && Measure() <= old(Measure())
      ensures r.Success? ==> IsStatement(tree) && consumed == before + Yield(tree) && r.value == Ast(tree)
      ensures r.Failure? ==> r.error == "Unexpected token"
      decreases Measure(), 4
    {
      var eq := Consume();
      assert consumed == before + [target, eq];
      var value, t := ParseExpression();
      if value.Failure? {
        return value, t;
      }
      var semi := Consume();
      tree := SAssign(target, eq, t, semi);
      ConcatAssoc(before, [target, eq], Yield(t));
      ConcatAssoc(before, [target, eq] + Yield(t), [semi]);
      return Success(Assign(target.lexeme, value.value)), tree;
    }

    /** `print` '(' expression ')' ';' after the keyword. */
    method ParsePrint(ghost before: seq<Token>, keyword: Token) returns (r: Result<Expr>, ghost tree: Syntax)
      requires Valid() && keyword.kind == Print && consumed == before + [keyword]
      modifies this
      ensures Valid() && Measure() <= old(Measure())
      ensures r.Success? ==> IsStatement(tree) && consumed == before + Yield(tree) && r.value == Ast(tree)
      ensures r.Failure? ==> r.error == "Unexpected token"
      decreases Measure(), 4
    {
      var open := Consume();
      assert consumed == before + [keyword, open];
      var value, t := ParseExpression();
      if value.Failure? {
        return value, t;
      }
      var close := Consume();
      var semi := Consume();
      tree := SPrint(keyword, open, t, close, semi);
      ConcatAssoc(before, [keyword, open], Yield(t));
      ConcatAssoc(before, [keyword, open] + Yield(t), [close, semi]);
      return Success(Output(value.value)), tree;
    }

    /** `if` or `while` '(' expression ')' block, after the keyword. */
    method ParseControl(ghost before: seq<Token>, keyword: Token) returns (r: Result<Expr>, ghost tree: Syntax)
      requires Valid() && keyword.kind in {If, While} && consumed == before + [keyword]
      modifies this
      ensures Valid() && Measure() <= old(Measure())
      ensures r.Success? ==> IsStatement(tree) && consumed == before + Yield(tree) && r.value == Ast(tree)
      ensures r.Failure? ==> r.error in {"Unexpected token", "Unexpected statement"}
      decreases Measure(), 4
    {
      var open := Consume();
      assert consumed == before + [keyword, open];
      var cond, c := ParseExpression();
      if cond.Failure? {
        return cond, c;
      }
      var close := Consume();
      var body, b := ParseBlock();
      if body.Failure? {
        return body, b;
      }
      if keyword.kind == If {
        tree := SIf(keyword, open, c, close, b);
        r := Success(IfThen(cond.value, body.value));
      } else {
        tree := SWhile(keyword, open, c, close, b);
        r := Success(Loop(cond.value, body.value));
      }
      ControlYield(before, keyword, open, c, close, b, tree);
    }

    /** parse_block: consumes one token as the '{', parses statements up to
        a '}' or the end of the text, and consumes that token too. */
    method ParseBlock() returns (r: Result<Expr>, ghost tree: Syntax)
      requires Valid()
      modifies this
      ensures Valid() && Measure() <= old(Measure())
      ensures r.Success? ==> IsBlock(tree) && consumed == old(consumed) + Yield(tree) && r.value == Ast(tree)
      ensures r.Failure? ==> r.error in {"Unexpected token", "Unexpected statement"}
      decreases Measure(), 6
    {
      var open := Consume();
      var stmts: seq<Expr> := [];
      ghost var trees: seq<Syntax> := [];
      ghost var head := old(consumed) + [open];
      while current.kind != RBrace && current.kind != Eof
        invariant Valid() && Measure() <= old(Measure())
        invariant Measure() < old(Measure()) || current.kind == Eof
        invariant forall i :: 0 <= i < |trees| ==> IsStatement(trees[i])
        invariant consumed == head + YieldAll(trees)
        invariant stmts == AstAll(trees)
        decreases Measure()
      {
        var s, t := ParseStatement();
        if s.Failure? {
          return Failure(s.error), t;
        }
        Extend(head, trees, t);
        trees := trees + [t];
        stmts := stmts + [s.value];
      }
      var close := Consume();
      tree := SBlock(open, trees, close);
      BlockYield(old(consumed), open, trees, close);
      return Success(Block(stmts)), tree;
    }
  }

  /** Appending a derivation to a run appends its tokens and its tree. */
  lemma Extend(head: seq<Token>, trees: seq<Syntax>, t: Syntax)
    ensures head + YieldAll(trees) + Yield(t) == head + YieldAll(trees + [t])
    ensures AstAll(trees + [t]) == AstAll(trees) + [Ast(t)]
  {
    assert (trees + [t])[..|trees|] == trees;
    ConcatAssoc(head, YieldAll(trees), Yield(t));
  }

  /** The tokens of a block derivation in the order the parser consumes
      them. */
  lemma BlockYield(before: seq<Token>, open: Token, trees: seq<Syntax>, close: Token)
    ensures before + [open] + YieldAll(trees) + [close] == before + Yield(SBlock(open, trees, close))
    ensures Ast(SBlock(open, trees, close)) == Block(AstAll(trees))
  {
    ConcatAssoc(before, [open], YieldAll(trees));
    ConcatAssoc(before, [open] + YieldAll(trees), [close]);
  }

  /** The tokens of an `if` or `while` derivation in the order the parser
      consumes them. */
  lemma ControlYield(before: seq<Token>, keyword: Token, open: Token, c: Syntax, close: Token, b: Syntax, tree: Syntax)
    requires tree == SIf(keyword, open, c, close, b) || tree == SWhile(keyword, open, c, close, b)
    ensures before + [keyword, open] + Yield(c) + [close] + Yield(b) == before + Yield(tree)
  {
    var y := [keyword, open] + Yield(c) + [close] + Yield(b);
    assert Yield(tree) == y;
    calc {
      before + [keyword, open] + Yield(c) + [close] + Yield(b);
      { ConcatAssoc(before, [keyword, open], Yield(c));
        ConcatAssoc(before, [keyword, open] + Yield(c), [close]);
        ConcatAssoc(before, [keyword, open] + Yield(c) + [close], Yield(b)); }
      before + y;
    }
  }

  // ---------------------------------------------------------- evaluator

  /** What an evaluation yields: its value, the table afterwards and the
      values it printed, in order. */
  datatype Outcome = Outcome(value: real, vars: seq<Variables.Variable>, printed: seq<real>)

  /** An outcome with `earlier` printed before its own output. */
  function Then(earlier: seq<real>, r: Result<Outcome>): (s: Result<Outcome>)
    ensures s.Failure? <==> r.Failure?
    ensures s.Failure? ==> s.error == r.error
    ensures s.Success? ==> s.value.value == r.value.value && s.value.vars == r.value.vars
                           && s.value.printed == earlier + r.value.printed
  {
    if r.Failure? then r else Success(Outcome(r.value.value, r.value.vars, earlier + r.value.printed))
  }

  lemma ThenNothing(r: Result<Outcome>)
    ensures Then([], r) == r
  {
    if r.Success? {
      assert [] + r.value.printed == r.value.printed;
    }
  }

  lemma ThenThen(p: seq<real>, q: seq<real>, r: Result<Outcome>)
    ensures Then(p, Then(q, r)) == Then(p + q, r)
  {
    if r.Success? {
      ConcatAssoc(p, q, r.value.printed);
    }
  }

  /** One binary operator on two values: '<' and '>' give 1 or 0. C's
      division by zero gives an infinity or NaN, which reals cannot hold:
      it is an error here. */
  function Apply(op: BinOp, x: real, y: real): (r: Result<real>)
    ensures r.Failure? <==> op == Div && y == 0.0
    ensures op == Below ==> r.Success? && (r.value == 1.0 <==> x < y) && (r.value == 0.0 <==> !(x < y))
    ensures op == Above ==> r.Success? && (r.value == 1.0 <==> x > y) && (r.value == 0.0 <==> !(x > y))
  {
    match op
    case Add => Success(x + y)
    case Sub => Success(x - y)
    case Mul => Success(x * y)
    case Div => if y == 0.0 then Failure("Division by zero") else Success(x / y)
    case Below => Success(if x < y then 1.0 else 0.0)
    case Above => Success(if x > y then 1.0 else 0.0)
  }

  /** The errors evaluation can stop with. */
  predicate RunError(error: string)
  {
    error in {"Undefined variable", "Too many variables", "Division by zero", "Out of fuel"}
  }

  /** evaluate as a function of the tree, the table and the fuel (loop
      turns a `while` may still take). */
  function Eval(e: Expr, vars: seq<Variables.Variable>, fuel: nat): (r: Result<Outcome>)
    ensures r.Failure? ==> RunError(r.error)
    decreases fuel, e, 1, 0
  {
    match e
    case Num(v) => Success(Outcome(v, vars, []))
    case Var(name) =>
      var found := Variables.Lookup(vars, name);
      if found.None? then Failure("Undefined variable") else Success(Outcome(found.value, vars, []))
    case Binary(op, l, rt) =>
      var a := Eval(l, vars, fuel);
      if a.Failure? then a
      else
        var b := Eval(rt, a.value.vars, fuel);
        if b.Failure? then b
        else
          var c := Apply(op, a.value.value, b.value.value);
          if c.Failure? then Failure(c.error)
          else Success(Outcome(c.value, b.value.vars, a.value.printed + b.value.printed))
    case Assign(name, x) =>
      var a := Eval(x, vars, fuel);
      if a.Failure? then a
      else if Variables.Lookup(a.value.vars, name).None? && |a.value.vars| >= Variables.MAX_VARIABLES then Failure("Too many variables")
      else Success(Outcome(a.value.value, Variables.Bind(a.value.vars, name, a.value.value), a.value.printed))
    case Output(x) =>
      var a := Eval(x, vars, fuel);
      if a.Failure? then a
      else Success(Outcome(a.value.value, a.value.vars, a.value.printed + [a.value.value]))
    case IfThen(c, body) =>
      var a := Eval(c, vars, fuel);
      if a.Failure? then a
      else if a.value.value == 0.0 then Success(Outcome(0.0, a.value.vars, a.value.printed))
      else Then(a.value.printed, Eval(body, a.value.vars, fuel))
    case Loop(_, _) => EvalWhile(e, vars, 0.0, fuel)
    case Block(_) => EvalBlock(e, 0, vars, 0.0, fuel)
  }

  /** The `while` loop from a table on, `last` being the value of the body
      the last time it ran (0 before it has run). Each turn costs one unit
      of fuel. */
  function EvalWhile(w: Expr, vars: seq<Variables.Variable>, last: real, fuel: nat): (r: Result<Outcome>)
    requires w.Loop?
    ensures r.Failure? ==> RunError(r.error)
    decreases fuel, w, 0, 0
  {
    var c := Eval(w.cond, vars, fuel);
    if c.Failure? then c
    else if c.value.value == 0.0 then Success(Outcome(last, c.value.vars, c.value.printed))
    else if fuel == 0 then Failure("Out of fuel")
    else
      var b := Eval(w.body, c.value.vars, fuel - 1);
      if b.Failure? then b
      else Then(c.value.printed + b.value.printed, EvalWhile(w, b.value.vars, b.value.value, fuel - 1))
  }

  /** The statements of a block from the i-th on, `last` being the value
      of the one before (0 at the start). */
  function EvalBlock(b: Expr, i: nat, vars: seq<Variables.Variable>, last: real, fuel: nat): (r: Result<Outcome>)
    requires b.Block? && i <= |b.stmts|
    ensures r.Failure? ==> RunError(r.error)
    decreases fuel, b, 0, |b.stmts| - i
  {
    if i == |b.stmts| then Success(Outcome(last, vars, []))
    else
      var s := Eval(b.stmts[i], vars, fuel);
      if s.Failure? then s
      else Then(s.value.printed, EvalBlock(b, i + 1, s.value.vars, s.value.value, fuel))
  }

  /** An `if` whose condition is 0 yields 0 and never evaluates its body:
      any two bodies give the same outcome. */
  lemma IfFalseSkipsBody(c: Expr, body1: Expr, body2: Expr, vars: seq<Variables.Variable>, fuel: nat)
    requires Eval(c, vars, fuel).Success? && Eval(c, vars, fuel).value.value == 0.0
    ensures Eval(IfThen(c, body1), vars, fuel) == Eval(IfThen(c, body2), vars, fuel)
    ensures Eval(IfThen(c, body1), vars, fuel).Success? && Eval(IfThen(c, body1), vars, fuel).value.value == 0.0
  {
  }

  /** A `while` whose condition is 0 at once yields 0 and never evaluates
      its body. */
  lemma WhileFalseSkipsBody(c: Expr, body1: Expr, body2: Expr, vars: seq<Variables.Variable>, fuel: nat)
    requires Eval(c, vars, fuel).Success? && Eval(c, vars, fuel).value.value == 0.0
    ensures Eval(Loop(c, body1), vars, fuel) == Eval(Loop(c, body2), vars, fuel)
    ensures Eval(Loop(c, body1), vars, fuel).Success? && Eval(Loop(c, body1), vars, fuel).value.value == 0.0
  {
  }

  /** The body ran from `vars` and yielded v, after which the condition
      was 0: the loop's final turn. */
  ghost predicate FinalTurn(w: Expr, vars: seq<Variables.Variable>, f: nat, v: real)
    requires w.Loop?
  {
    var b := Eval(w.body, vars, f);
    b.Success? && b.value.value == v
    && var c := Eval(w.cond, b.value.vars, f);
       c.Success? && c.value.value == 0.0
  }

  /** The value of a loop is `last` when its condition is 0 at once, and
      otherwise the value of the body on its final turn. */
  lemma {:induction false} WhileValue(w: Expr, vars: seq<Variables.Variable>, last: real, fuel: nat)
    requires w.Loop? && EvalWhile(w, vars, last, fuel).Success?
    ensures var v := EvalWhile(w, vars, last, fuel).value.value;
            (Eval(w.cond, vars, fuel).Success? && Eval(w.cond, vars, fuel).value.value == 0.0 && v == last)
            || exists vs: seq<Variables.Variable>, f: nat :: f < fuel && FinalTurn(w, vs, f, v)
    decreases fuel
  {
    var c := Eval(w.cond, vars, fuel);
    if c.value.value != 0.0 {
      var b := Eval(w.body, c.value.vars, fuel - 1);
      var rest := EvalWhile(w, b.value.vars, b.value.value, fuel - 1);
      WhileValue(w, b.value.vars, b.value.value, fuel - 1);
      if Eval(w.cond, b.value.vars, fuel - 1).Success? && Eval(w.cond, b.value.vars, fuel - 1).value.value == 0.0
         && rest.value.value == b.value.value {
        assert FinalTurn(w, c.value.vars, fuel - 1, rest.value.value);
      }
    }
  }

  /** A `while` yields 0 if its body never ran, and otherwise the value
      its body had on the final turn. */
  lemma WhileYieldsLastBody(c: Expr, body: Expr, vars: seq<Variables.Variable>, fuel: nat)
    requires Eval(Loop(c, body), vars, fuel).Success?
    ensures var v := Eval(Loop(c, body), vars, fuel).value.value;
            (Eval(c, vars, fuel).Success? && Eval(c, vars, fuel).value.value == 0.0 && v == 0.0)
            || exists vs: seq<Variables.Variable>, f: nat :: f < fuel && FinalTurn(Loop(c, body), vs, f, v)
  {
    WhileValue(Loop(c, body), vars, 0.0, fuel);
  }

  /** An empty block yields 0 and changes nothing. */
  lemma EmptyBlock(vars: seq<Variables.Variable>, fuel: nat)
    ensures Eval(Block([]), vars, fuel) == Success(Outcome(0.0, vars, []))
  {
  }

  /** From the i-th statement on, a block yields `last` when there are no
      statements left, and otherwise the value of its last statement. */
  lemma {:induction false} BlockValue(b: Expr, i: nat, vars: seq<Variables.Variable>, last: real, fuel: nat)
    requires b.Block? && i <= |b.stmts| && EvalBlock(b, i, vars, last, fuel).Success?
    ensures var v := EvalBlock(b, i, vars, last, fuel).value.value;
            if i == |b.stmts| then v == last
            else exists vs: seq<Variables.Variable> :: LastStatementYields(b, vs, fuel, v)
    decreases |b.stmts| - i
  {
    if i < |b.stmts| {
      var s := Eval(b.stmts[i], vars, fuel);
      var v := EvalBlock(b, i, vars, last, fuel).value.value;
      BlockValue(b, i + 1, s.value.vars, s.value.value, fuel);
      if i + 1 == |b.stmts| {
        assert LastStatementYields(b, vars, fuel, v);
      }
    }
  }

  /** The last statement of a non-empty block evaluates to v from vs. */
  ghost predicate LastStatementYields(b: Expr, vs: seq<Variables.Variable>, fuel: nat, v: real)
    requires b.Block? && |b.stmts| > 0
  {
    var s := Eval(b.stmts[|b.stmts| - 1], vs, fuel);
    s.Success? && s.value.value == v
  }

  /** A non-empty block yields the value of its last statement. */
  lemma BlockYieldsLast(stmts: seq<Expr>, vars: seq<Variables.Variable>, fuel: nat)
    requires |stmts| > 0 && Eval(Block(stmts), vars, fuel).Success?
    ensures exists vs: seq<Variables.Variable> :: LastStatementYields(Block(stmts), vs, fuel, Eval(Block(stmts), vars, fuel).value.value)
  {
    BlockValue(Block(stmts), 0, vars, 0.0, fuel);
  }

  /** A block of one statement behaves as the statement. */
  lemma SingletonBlock(s: Expr, vars: seq<Variables.Variable>, fuel: nat)
    ensures Eval(Block([s]), vars, fuel) == Eval(s, vars, fuel)
  {
    var b := Block([s]);
    assert b.stmts[0] == s;
    var r := Eval(s, vars, fuel);
    if r.Success? {
      assert EvalBlock(b, 1, r.value.vars, r.value.value, fuel) == Success(Outcome(r.value.value, r.value.vars, []));
      assert r.value.printed + [] == r.value.printed;
    }
  }

  /** The value of a successful evaluation of an `Assign`: the name is then
      bound to the value, every other name keeps its value. */
  lemma AssignBinds(name: string, x: Expr, vars: seq<Variables.Variable>, fuel: nat, other: string)
    requires Eval(Assign(name, x), vars, fuel).Success?
    ensures var o := Eval(Assign(name, x), vars, fuel).value;
            var a := Eval(x, vars, fuel).value;
            o.value == a.value && Variables.Lookup(o.vars, name) == Some(o.value)
            && (other != name ==> Variables.Lookup(o.vars, other) == Variables.Lookup(a.vars, other))
  {
    var a := Eval(x, vars, fuel).value;
    Variables.LookupBind(a.vars, name, a.value);
    if other != name {
      Variables.LookupBindOther(a.vars, name, a.value, other);
    }
  }

  /** The table_set of this file as written: the slot it writes for a
      name is the name's binding, or vars[count] for a new name, with no
      check that count is below 100. */
  function SlotAsWritten(vars: seq<Variables.Variable>, name: string): (i: nat)
    ensures i <= |vars|
    ensures i < |vars| <==> Variables.Lookup(vars, name).Some?
    ensures i < |vars| ==> vars[i].name == name
  {
    Variables.IndexOf(vars, name)
  }

  /** With 100 variables bound, a new name is written to vars[100], one
      past the end of the table's array. */
  lemma HundredFirstNameOverflows(vars: seq<Variables.Variable>, name: string)
    requires |vars| == Variables.MAX_VARIABLES && Variables.Lookup(vars, name).None?
    ensures SlotAsWritten(vars, name) == Variables.MAX_VARIABLES
  {
  }

  /** A finished evaluation (a value, or an error other than running out of
      fuel). */
  predicate Finished(r: Result<Outcome>)
  {
    r.Success? || r.error != "Out of fuel"
  }

  /** More fuel never changes a finished evaluation. */
  lemma {:induction false} EvalMoreFuel(e: Expr, vars: seq<Variables.Variable>, fuel: nat, more: nat)
    requires fuel <= more && Finished(Eval(e, vars, fuel))
    ensures Eval(e, vars, more) == Eval(e, vars, fuel)
    decreases fuel, e, 1, 0
  {
    match e
    case Num(_) =>
    case Var(_) =>
    case Binary(_, l, rt) =>
      EvalMoreFuel(l, vars, fuel, more);
      var a := Eval(l, vars, fuel);
      if a.Success? {
        EvalMoreFuel(rt, a.value.vars, fuel, more);
      }
    case Assign(_, x) => EvalMoreFuel(x, vars, fuel, more);
    case Output(x) => EvalMoreFuel(x, vars, fuel, more);
    case IfThen(c, body) =>
      EvalMoreFuel(c, vars, fuel, more);
      var a := Eval(c, vars, fuel);
      if a.Success? && a.value.value != 0.0 {
        EvalMoreFuel(body, a.value.vars, fuel, more);
      }
    case Loop(_, _) => WhileMoreFuel(e, vars, 0.0, fuel, more);
    case Block(_) => BlockMoreFuel(e, 0, vars, 0.0, fuel, more);
  }

  lemma {:induction false} WhileMoreFuel(w: Expr, vars: seq<Variables.Variable>, last: real, fuel: nat, more: nat)
    requires w.Loop? && fuel <= more && Finished(EvalWhile(w, vars, last, fuel))
    ensures EvalWhile(w, vars, last, more) == EvalWhile(w, vars, last, fuel)
    decreases fuel, w, 0, 0
  {
    EvalMoreFuel(w.cond, vars, fuel, more);
    var c := Eval(w.cond, vars, fuel);
    if c.Success? && c.value.value != 0.0 {
      var b := Eval(w.body, c.value.vars, fuel - 1);
      EvalMoreFuel(w.body, c.value.vars, fuel - 1, more - 1);
      if b.Success? {
        WhileMoreFuel(w, b.value.vars, b.value.value, fuel - 1, more - 1);
      }
    }
  }

  lemma {:induction false} BlockMoreFuel(b: Expr, i: nat, vars: seq<Variables.Variable>, last: real, fuel: nat, more: nat)
    requires b.Block? && i <= |b.stmts| && fuel <= more && Finished(EvalBlock(b, i, vars, last, fuel))
    ensures EvalBlock(b, i, vars, last, more) == EvalBlock(b, i, vars, last, fuel)
    decreases fuel, b, 0, |b.stmts| - i
  {
    if i < |b.stmts| {
      EvalMoreFuel(b.stmts[i], vars, fuel, more);
      var s := Eval(b.stmts[i], vars, fuel);
      if s.Success? {
        BlockMoreFuel(b, i + 1, s.value.vars, s.value.value, fuel, more);
      }
    }
  }

  /** The outcome a method reports: its result, the table it left and
      what it printed. */
  function Report(r: Result<real>, vars: seq<Variables.Variable>, printed: seq<real>): Result<Outcome>
  {
    if r.Failure? then Failure(r.error) else Success(Outcome(r.value, vars, printed))
  }

  /** evaluate: walks the tree against the table and returns the outcome
      Eval describes, with `printed` the values print wrote. */
  method Evaluate(e: Expr, table: Variables.SymbolTable, fuel: nat) returns (r: Result<real>, printed: seq<real>)
    requires table.Valid()
    modifies table
    ensures table.Valid()
    ensures Eval(e, old(table.vars), fuel) == Report(r, table.vars, printed)
    decreases fuel, e, 1, 0
  {
    match e
    case Num(v) =>
      return Success(v), [];
    case Var(name) =>
      var found := table.Get(name);
      if found.None? {
        return Failure("Undefined variable"), [];
      }
      return Success(found.value), [];
    case Binary(op, l, rt) =>
      r, printed := EvaluateBinary(e, table, fuel);
    case Assign(name, x) =>
      var a, ap := Evaluate(x, table, fuel);
      if a.Failure? {
        return a, ap;
      }
      var ok := table.Set(name, a.value);
      if !ok {
        return Failure("Too many variables"), ap;
      }
      return a, ap;
    case Output(x) =>
      var a, ap := Evaluate(x, table, fuel);
      if a.Failure? {
        return a, ap;
      }
      return a, ap + [a.value];
    case IfThen(c, body) =>
      var a, ap := Evaluate(c, table, fuel);
      if a.Failure? {
        return a, ap;
      }
      if a.value == 0.0 {
        return Success(0.0), ap;
      }
      var b, bp := Evaluate(body, table, fuel);
      return b, ap + bp;
    case Loop(_, _) =>
      r, printed := EvaluateWhile(e, table, fuel);
    case Block(_) =>
      r, printed := EvaluateBlock(e, table, fuel);
  }

  /** The binary-operator case of evaluate: left operand, right operand,
      then the operator. */
  method EvaluateBinary(e: Expr, table: Variables.SymbolTable, fuel: nat) returns (r: Result<real>, printed: seq<real>)
    requires e.Binary? && table.Valid()
    modifies table
    ensures table.Valid()
    ensures Eval(e, old(table.vars), fuel) == Report(r, table.vars, printed)
    decreases fuel, e, 0, 0
  {
    var a, ap := Evaluate(e.left, table, fuel);
    if a.Failure? {
      return a, ap;
    }
    var b, bp := Evaluate(e.right, table, fuel);
    if b.Failure? {
      return b, bp;
    }
    r := Apply(e.op, a.value, b.value);
    printed := ap + bp;
  }

  /** The `while` case of evaluate: the condition, and while it is not 0
      the body, each turn costing a unit of fuel. */
  method EvaluateWhile(w: Expr, table: Variables.SymbolTable, fuel: nat) returns (r: Result<real>, printed: seq<real>)
    requires w.Loop? && table.Valid()
    modifies table
    ensures table.Valid()
    ensures EvalWhile(w, old(table.vars), 0.0, fuel) == Report(r, table.vars, printed)
    decreases fuel, w, 0, 0
  {
    var result := 0.0;
    var f: nat := fuel;
    printed := [];
    ThenNothing(EvalWhile(w, table.vars, result, f));
    while true
      invariant table.Valid() && f <= fuel
      invariant EvalWhile(w, old(table.vars), 0.0, fuel) == Then(printed, EvalWhile(w, table.vars, result, f))
      decreases f
    {
      var c, cp := Evaluate(w.cond, table, f);
      if c.Failure? {
        return c, printed;
      }
      if c.value == 0.0 {
        ThenThen(printed, cp, Success(Outcome(result, table.vars, [])));
        return Success(result), printed + cp;
      }
      if f == 0 {
        return Failure("Out of fuel"), printed;
      }
      var b, bp := Evaluate(w.body, table, f - 1);
      if b.Failure? {
        return b, printed;
      }
      ThenThen(printed, cp + bp, EvalWhile(w, table.vars, b.value, f - 1));
      printed := printed + (cp + bp);
      result := b.value;
      f := f - 1;
    }
  }

  /** The block case of evaluate: each statement in turn; the value is the
      last statement's, 0 for an empty block. */
  method EvaluateBlock(b: Expr, table: Variables.SymbolTable, fuel: nat) returns (r: Result<real>, printed: seq<real>)
    requires b.Block? && table.Valid()
    modifies table
    ensures table.Valid()
    ensures EvalBlock(b, 0, old(table.vars), 0.0, fuel) == Report(r, table.vars, printed)
    decreases fuel, b, 0, 0
  {
    var result := 0.0;
    printed := [];
    ThenNothing(EvalBlock(b, 0, table.vars, result, fuel));
    for i := 0 to |b.stmts|
      invariant table.Valid()
      invariant EvalBlock(b, 0, old(table.vars), 0.0, fuel) == Then(printed, EvalBlock(b, i, table.vars, result, fuel))
    {
      var s, sp := Evaluate(b.stmts[i], table, fuel);
      if s.Failure? {
        return s, printed;
      }
      ThenThen(printed, sp, EvalBlock(b, i + 1, table.vars, s.value, fuel));
      printed := printed + sp;
      result := s.value;
    }
    assert printed + [] == printed;
    return Success(result), printed;
  }

  // ------------------------------------------------------------ program

  /** The statements of a program run one after another from a table: the
      table at the end and everything printed. */
  function RunAll(stmts: seq<Expr>, vars: seq<Variables.Variable>, fuel: nat): (r: Result<Outcome>)
    ensures r.Failure? ==> RunError(r.error)
  {
    if |stmts| == 0 then Success(Outcome(0.0, vars, []))
    else
      var a := RunAll(stmts[..|stmts| - 1], vars, fuel);
      if a.Failure? then a
      else Then(a.value.printed, Eval(stmts[|stmts| - 1], a.value.vars, fuel))
  }

  /** Running one more statement after a run. */
  lemma RunAllAppend(stmts: seq<Expr>, x: Expr, vars: seq<Variables.Variable>, fuel: nat)
    requires RunAll(stmts, vars, fuel).Success?
    ensures RunAll(stmts + [x], vars, fuel)
         == Then(RunAll(stmts, vars, fuel).value.printed, Eval(x, RunAll(stmts, vars, fuel).value.vars, fuel))
  {
    assert (stmts + [x])[..|stmts|] == stmts;
  }

  /** The driver of main: parses a statement and evaluates it, until the
      current token is EOF. On success every statement parsed is a
      statement derivation, and running their trees in order leaves the
      table as it is now and prints `printed`. */
  method RunProgram(source: string, table: Variables.SymbolTable, fuel: nat) returns (r: Result<seq<real>>, ghost trees: seq<Syntax>)
    requires '\0' in source && table.Valid()
    modifies table
    ensures table.Valid()
    ensures r.Success? ==> (forall i :: 0 <= i < |trees| ==> IsStatement(trees[i]))
                           && RunAll(AstAll(trees), old(table.vars), fuel).Success?
                           && RunAll(AstAll(trees), old(table.vars), fuel).value.vars == table.vars
                           && RunAll(AstAll(trees), old(table.vars), fuel).value.printed == r.value
    ensures r.Failure? ==> r.error in {"Unexpected token", "Unexpected statement"} || RunError(r.error)
  {
    var p := new Parser(source);
    var printed: seq<real> := [];
    var result := 0.0;
    trees := [];
    ghost var start := table.vars;
    while p.current.kind != Eof
      invariant p.Valid() && table.Valid() && fresh(p)
      invariant forall i :: 0 <= i < |trees| ==> IsStatement(trees[i])
      invariant RunAll(AstAll(trees), start, fuel) == Success(Outcome(result, table.vars, printed))
      decreases p.Measure()
    {
      var s, t := p.ParseStatement();
      if s.Failure? {
        return Failure(s.error), trees;
      }
      var v, vp := Evaluate(s.value, table, fuel);
      if v.Failure? {
        return Failure(v.error), trees;
      }
      Extend([], trees, t);
      RunAllAppend(AstAll(trees), Ast(t), start, fuel);
      trees := trees + [t];
      printed := printed + vp;
      result := v.value;
    }
    return Success(printed), trees;
  }
}
