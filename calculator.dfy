/** The calculator of ScriptingLanguage/examples/02_calculator.c: a lexer
    for numbers and one-character operators, a recursive-descent parser for

      expression → term (('+' | '-') term)*
      term       → factor (('*' | '/') factor)*
      factor     → NUMBER | '-' factor | '(' expression ')'

    that builds a syntax tree, and an evaluator over that tree. Numbers are
    exact reals: rounding to double is not modelled. */
module Calculator {
  import opened Common
  import opened ScriptLexing

  // ------------------------------------------------------------- tokens

  datatype Kind = Number | Plus | Minus | Star | Slash | LParen | RParen | Eof | Error

  /** A token; the C fields next_token leaves unset (the lexeme of EOF, the
      number of a non-number) are "" and 0 here. */
  datatype Token = Token(kind: Kind, lexeme: string, number: real)

  /** The token type of a one-character token; any other character is an
      error. */
  function OperatorKind(c: char): (k: Kind)
    ensures k != Number && k != Eof
  {
    match c
    case '+' => Plus
    case '-' => Minus
    case '*' => Star
    case '/' => Slash
    case '(' => LParen
    case ')' => RParen
    case _ => Error
  }

  /** The token next_token reads when, after the blanks, it starts at
      `start` and leaves the lexer at `end`: EOF at the NUL without moving;
      a number (a digit run, then '.' and a second digit run if a '.'
      follows) when the text starts with a digit or '.'; otherwise one
      character. */
  ghost predicate Lexes(s: string, start: nat, end: nat, token: Token)
    requires '\0' in s && start <= end <= StrLen(s)
  {
    if s[start] == '\0' then
      end == start && token == Token(Eof, "", 0.0)
    else if IsDigit(s[start]) || s[start] == '.' then
      NumberRun(s, start, end) && token == Token(Number, s[start..end], Atof(s[start..end]))
    else
      end == start + 1 && token == Token(OperatorKind(s[start]), [s[start]], 0.0)
  }

  /** next_token: skips the blanks from i and reads one token, returning it
      and the lexer's new position. At the NUL it returns EOF and stays
      there; otherwise it moves past at least one character. */
  method NextToken(s: string, i: nat) returns (token: Token, j: nat)
    requires '\0' in s && i <= StrLen(s)
    ensures BlanksEnd(s, i) <= j <= StrLen(s)
    ensures Lexes(s, BlanksEnd(s, i), j, token)
    ensures token.kind == Eof <==> j == BlanksEnd(s, i)
  {
    var k := SkipBlanks(s, i);
    var c := s[k];
    if c == '\0' {
      return Token(Eof, "", 0.0), k;
    }
    if IsDigit(c) || c == '.' {
      j := ScanNumber(s, k);
      var lexeme := s[k..j];
      return Token(Number, lexeme, Atof(lexeme)), j;
    }
    return Token(OperatorKind(c), [c], 0.0), k + 1;
  }

  /** The same text and position always give the same token and the same
      next position. */
  lemma LexesUnique(s: string, i: nat, end1: nat, t1: Token, end2: nat, t2: Token)
    requires '\0' in s && i <= end1 <= StrLen(s) && i <= end2 <= StrLen(s)
    requires Lexes(s, i, end1, t1) && Lexes(s, i, end2, t2)
    ensures end1 == end2 && t1 == t2
  {
    if s[i] != '\0' && (IsDigit(s[i]) || s[i] == '.') {
      NumberRunUnique(s, i, end1, end2);
    }
  }

  // ---------------------------------------------------------------- AST

  datatype BinOp = Add | Sub | Mul | Div

  /** The tree the parser builds: make_number, make_unary('-', ...) and
      make_binary(op, ...). */
  datatype Expr =
    | Num(value: real)
    | Neg(operand: Expr)
    | Binary(op: BinOp, left: Expr, right: Expr)

  /** The operator a binary operator token stands for. */
  function OpOf(k: Kind): BinOp
    requires k in {Plus, Minus, Star, Slash}
  {
    match k
    case Plus => Add
    case Minus => Sub
    case Star => Mul
    case Slash => Div
  }

  // ------------------------------------------------------------ grammar

  /** A derivation in the grammar, keeping every token it covers. */
  datatype Syntax =
    | SNumber(token: Token)
    | SNeg(minus: Token, operand: Syntax)
    | SParen(open: Token, inner: Syntax, close: Token)
    | SBinary(left: Syntax, op: Token, right: Syntax)

  /** The tokens a derivation covers, in order. */
  ghost function Yield(t: Syntax): seq<Token>
  {
    match t
    case SNumber(tok) => [tok]
    case SNeg(minus, f) => [minus] + Yield(f)
    case SParen(open, e, close) => [open] + Yield(e) + [close]
    case SBinary(l, op, r) => Yield(l) + [op] + Yield(r)
  }

  /** factor → NUMBER | '-' factor | '(' expression ')' */
  ghost predicate IsFactor(t: Syntax)
    decreases t, 0
  {
    match t
    case SNumber(tok) => tok.kind == Number
    case SNeg(minus, f) => minus.kind == Minus && IsFactor(f)
    case SParen(open, e, close) => open.kind == LParen && IsExpression(e) && close.kind == RParen
    case SBinary(_, _, _) => false
  }

  /** term → factor (('*' | '/') factor)*, read as a left-leaning tree: a
      term is a factor, or a term, a '*' or '/', and a factor. */
  ghost predicate IsTerm(t: Syntax)
    decreases t, 1
  {
    match t
    case SBinary(l, op, r) => op.kind in {Star, Slash} && IsTerm(l) && IsFactor(r)
    case _ => IsFactor(t)
  }

  /** expression → term (('+' | '-') term)*, read the same way: an
      expression is a term, or an expression, a '+' or '-', and a term. */
  ghost predicate IsExpression(t: Syntax)
    decreases t, 2
  {
    match t
    case SBinary(l, op, r) =>
      if op.kind in {Plus, Minus} then IsExpression(l) && IsTerm(r) else IsTerm(t)
    case _ => IsFactor(t)
  }

  /** The tree the parser returns for a derivation: parentheses leave no
      node, operators become nodes in the derivation's shape. */
  ghost function Ast(t: Syntax): Expr
  {
    match t
    case SNumber(tok) => Num(tok.number)
    case SNeg(_, f) => Neg(Ast(f))
    case SParen(_, e, _) => Ast(e)
    case SBinary(l, op, r) =>
      // a derivation's operator token is always one of the four
      if op.kind in {Plus, Minus, Star, Slash} then Binary(OpOf(op.kind), Ast(l), Ast(r)) else Ast(l)
  }

  /** A factor is a term, and a term an expression. */
  lemma Lift(t: Syntax)
    ensures IsFactor(t) ==> IsTerm(t)
    ensures IsTerm(t) ==> IsExpression(t)
  {
  }

  /** The parts of a derivation are derivations. */
  lemma Parts(t: Syntax)
    requires IsExpression(t)
    ensures t.SNeg? ==> IsExpression(t.operand)
    ensures t.SParen? ==> IsExpression(t.inner)
    ensures t.SBinary? ==> IsExpression(t.left) && IsExpression(t.right)
  {
    match t
    case SNumber(_) =>
    case SNeg(_, f) => Lift(f);
    case SParen(_, _, _) =>
    case SBinary(l, _, r) => Lift(l); Lift(r);
  }

  /** The two readings of a binary derivation: an expression joined by
      '+' or '-' to a term, or a term joined by '*' or '/' to a factor. */
  lemma BinaryParts(t: Syntax)
    requires IsExpression(t) && t.SBinary?
    ensures t.op.kind in {Plus, Minus} ==> IsExpression(t.left) && IsTerm(t.right)
    ensures t.op.kind !in {Plus, Minus} ==> t.op.kind in {Star, Slash} && IsTerm(t.left) && IsFactor(t.right)
  {
  }

  /** Every derivation covers at least one token, starts with a token that
      can start a factor and ends with a number or ')'. */
  lemma {:induction false} YieldEnds(t: Syntax)
    requires IsExpression(t)
    ensures |Yield(t)| >= 1
    ensures Yield(t)[0].kind in {Number, Minus, LParen}
    ensures Yield(t)[|Yield(t)| - 1].kind in {Number, RParen}
  {
    Parts(t);
    match t
    case SNumber(_) =>
    case SNeg(_, f) => YieldEnds(f);
    case SParen(_, e, _) =>
    case SBinary(l, _, r) => YieldEnds(l); YieldEnds(r);
  }

  /** A derivation of a single token is that number. */
  lemma OneToken(t: Syntax)
    requires IsExpression(t) && |Yield(t)| == 1
    ensures t == SNumber(Yield(t)[0]) && Yield(t)[0].kind == Number
    ensures Ast(t) == Num(Yield(t)[0].number)
  {
    Parts(t);
    if t.SBinary? {
      YieldEnds(t.left);
    } else if t.SNeg? {
      YieldEnds(t.operand);
    }
  }

  /** Where the parts of a binary derivation sit in its tokens. */
  lemma Split(t: Syntax)
    requires t.SBinary?
    ensures |Yield(t.left)| < |Yield(t)|
    ensures Yield(t)[..|Yield(t.left)|] == Yield(t.left)
    ensures Yield(t)[|Yield(t.left)|] == t.op
    ensures Yield(t)[|Yield(t.left)| + 1..] == Yield(t.right)
  {
  }

  /** A derivation of a number, an operator and a number joins the two
      numbers. */
  lemma ThreeTokens(t: Syntax, a: Token, o: Token, b: Token)
    requires IsExpression(t) && Yield(t) == [a, o, b] && a.kind == Number && b.kind == Number
    ensures t == SBinary(SNumber(a), o, SNumber(b)) && o.kind in {Plus, Minus, Star, Slash}
    ensures IsTerm(t) <==> o.kind in {Star, Slash}
    ensures Ast(t) == Binary(OpOf(o.kind), Num(a.number), Num(b.number))
  {
    YieldEnds(t);
    Parts(t);
    match t
    case SNumber(_) =>
    case SNeg(_, _) =>
    case SParen(_, _, _) =>
    case SBinary(l, _, r) =>
      Split(t);
      YieldEnds(l);
      YieldEnds(r);
      assert |Yield(l)| == 1 && |Yield(r)| == 1;
      assert Yield(l) == [a] && Yield(r) == [b];
      OneToken(l);
      OneToken(r);
  }

  /** Precedence: in `a + b * c` (any of '+' and '-' with any of '*' and
      '/') the product binds first. */
  lemma ProductBindsFirst(t: Syntax, a: Token, p: Token, b: Token, m: Token, c: Token)
    requires a.kind == Number && b.kind == Number && c.kind == Number
    requires p.kind in {Plus, Minus} && m.kind in {Star, Slash}
    requires IsExpression(t) && Yield(t) == [a, p, b, m, c]
    ensures Ast(t) == Binary(OpOf(p.kind), Num(a.number), Binary(OpOf(m.kind), Num(b.number), Num(c.number)))
  {
    YieldEnds(t);
    Parts(t);
    match t
    case SNumber(_) =>
    case SNeg(_, _) =>
    case SParen(_, _, _) =>
    case SBinary(l, op, r) =>
      BinaryParts(t);
      Split(t);
      YieldEnds(l);
      YieldEnds(r);
      var n := |Yield(l)|;
      assert Yield(l)[n - 1] == Yield(t)[n - 1] && op == Yield(t)[n];
      if n == 1 {
        assert Yield(l) == [a] && Yield(r) == [b, m, c];
        OneToken(l);
        ThreeTokens(r, b, m, c);
        assert Ast(t) == Binary(OpOf(p.kind), Ast(l), Ast(r));
      } else {
        assert n == 3 && Yield(l) == [a, p, b];
        ThreeTokens(l, a, p, b);
      }
  }

  /** Precedence the other way round: in `a * b + c` the product is the left
      operand of the sum. */
  lemma ProductBindsFirstLeft(t: Syntax, a: Token, m: Token, b: Token, p: Token, c: Token)
    requires a.kind == Number && b.kind == Number && c.kind == Number
    requires p.kind in {Plus, Minus} && m.kind in {Star, Slash}
    requires IsExpression(t) && Yield(t) == [a, m, b, p, c]
    ensures Ast(t) == Binary(OpOf(p.kind), Binary(OpOf(m.kind), Num(a.number), Num(b.number)), Num(c.number))
  {
    YieldEnds(t);
    Parts(t);
    match t
    case SNumber(_) =>
    case SNeg(_, _) =>
    case SParen(_, _, _) =>
    case SBinary(l, op, r) =>
      BinaryParts(t);
      Split(t);
      YieldEnds(l);
      YieldEnds(r);
      var n := |Yield(l)|;
      assert Yield(l)[n - 1] == Yield(t)[n - 1] && op == Yield(t)[n];
      if n != 1 {
        // n == 1 would make '*' or '/' join a number to a sum
        assert n == 3 && Yield(l) == [a, m, b] && Yield(r) == [c];
        ThreeTokens(l, a, m, b);
        OneToken(r);
        assert Ast(t) == Binary(OpOf(p.kind), Ast(l), Ast(r));
      }
  }

  /** Left associativity: `a - b - c` (any two operators of one level) is
      (a - b) - c. */
  lemma LeftAssociative(t: Syntax, a: Token, o1: Token, b: Token, o2: Token, c: Token)
    requires a.kind == Number && b.kind == Number && c.kind == Number
    requires (o1.kind in {Plus, Minus} && o2.kind in {Plus, Minus})
          || (o1.kind in {Star, Slash} && o2.kind in {Star, Slash})
    requires IsExpression(t) && Yield(t) == [a, o1, b, o2, c]
    ensures Ast(t) == Binary(OpOf(o2.kind), Binary(OpOf(o1.kind), Num(a.number), Num(b.number)), Num(c.number))
  {
    YieldEnds(t);
    Parts(t);
    match t
    case SNumber(_) =>
    case SNeg(_, _) =>
    case SParen(_, _, _) =>
    case SBinary(l, op, r) =>
      BinaryParts(t);
      Split(t);
      YieldEnds(l);
      YieldEnds(r);
      var n := |Yield(l)|;
      assert Yield(l)[n - 1] == Yield(t)[n - 1] && op == Yield(t)[n];
      if n == 1 {
        assert Yield(l) == [a] && Yield(r) == [b, o2, c];
        ThreeTokens(r, b, o2, c);
      } else {
        assert n == 3 && Yield(l) == [a, o1, b] && Yield(r) == [c];
        ThreeTokens(l, a, o1, b);
        OneToken(r);
        assert Ast(t) == Binary(OpOf(o2.kind), Ast(l), Ast(r));
      }
  }

  // ------------------------------------------------------------- parser

  /** Why a parse stopped, and at which token: an unexpected token where a
      factor must start, or something other than ')' after a parenthesised
      expression. */
  predicate Stuck(error: string, at: Token)
  {
    (error == "Unexpected token" && at.kind !in {Minus, Number, LParen})
    || (error == "Expected ')'" && at.kind != RParen)
  }

  /** The parser: the lexer's text and position (`pos` is lexer.current)
      and the current token. `consumed` records, for the proofs, every
      token consume has handed out. */
  class Parser {
    const source: string
    var pos: nat
    var current: Token
    ghost var consumed: seq<Token>

    ghost predicate Valid()
      reads this
    {
      '\0' in source && pos <= StrLen(source)
      && (current.kind == Eof ==> pos == StrLen(source))
    }

    /** Decreases with every token consumed: the characters left, counted
        twice, plus one while the current token is not EOF. */
    ghost function Measure(): nat
      reads this
      requires Valid()
    {
      2 * (StrLen(source) - pos) + (if current.kind == Eof then 0 else 1)
    }

    /** parser_init: starts the lexer at 0 and reads the first token. */
    constructor (source: string)
      requires '\0' in source
      ensures Valid() && this.source == source && consumed == []
      ensures BlanksEnd(source, 0) <= pos && Lexes(source, BlanksEnd(source, 0), pos, current)
    {
      this.source := source;
      var token, j := NextToken(source, 0);
      pos, current := j, token;
      consumed := [];
    }

    /** consume: hands out the current token and reads the next one. */
    method Consume() returns (token: Token)
      requires Valid()
      modifies this
      ensures Valid() && token == old(current) && consumed == old(consumed) + [token]
      ensures BlanksEnd(source, old(pos)) <= pos && Lexes(source, BlanksEnd(source, old(pos)), pos, current)
      ensures Measure() <= old(Measure())
      ensures token.kind != Eof ==> Measure() < old(Measure())
    {
      token := current;
      var next, j := NextToken(source, pos);
      pos, current := j, next;
      consumed := consumed + [token];
    }

    /** parse_factor. On success it has consumed the tokens of a factor
        derivation and returns that derivation's tree; the C program exits
        where this returns an error. */
    method ParseFactor() returns (r: Result<Expr>, ghost tree: Syntax)
      requires Valid()
      modifies this
      ensures Valid() && Measure() <= old(Measure())
      ensures r.Success? ==> IsFactor(tree) && consumed == old(consumed) + Yield(tree)
                             && r.value == Ast(tree) && Measure() < old(Measure())
      ensures r.Failure? ==> Stuck(r.error, current)
      decreases Measure(), 0
    {
      if current.kind == Minus {
        var minus := Consume();
        r, tree := ParseNegated(old(consumed), minus);
        return;
      }
      if current.kind == Number {
        var token := Consume();
        return Success(Num(token.number)), SNumber(token);
      }
      if current.kind == LParen {
        var open := Consume();
        r, tree := ParseParenthesised(old(consumed), open);
        return;
      }
      return Failure("Unexpected token"), SNumber(current);
    }

    /** The rest of parse_factor once a '-' is consumed: the factor it
        negates. */
    method ParseNegated(ghost before: seq<Token>, ghost minus: Token) returns (r: Result<Expr>, ghost tree: Syntax)
      requires Valid() && minus.kind == Minus && consumed == before + [minus]
      modifies this
      ensures Valid() && Measure() <= old(Measure())
      ensures r.Success? ==> IsFactor(tree) && consumed == before + Yield(tree)
                             && r.value == Ast(tree) && Measure() < old(Measure())
      ensures r.Failure? ==> Stuck(r.error, current)
      decreases Measure(), 3
    {
      var operand, t := ParseFactor();
      if operand.Failure? {
        return operand, t;
      }
      tree := SNeg(minus, t);
      ConcatAssoc(before, [minus], Yield(t));
      return Success(Neg(operand.value)), tree;
    }

    /** The rest of parse_factor once a '(' is consumed: an expression and
        the ')' that must follow it. */
    method ParseParenthesised(ghost before: seq<Token>, ghost open: Token) returns (r: Result<Expr>, ghost tree: Syntax)
      requires Valid() && open.kind == LParen && consumed == before + [open]
      modifies this
      ensures Valid() && Measure() <= old(Measure())
      ensures r.Success? ==> IsFactor(tree) && consumed == before + Yield(tree)
                             && r.value == Ast(tree) && Measure() < old(Measure())
      ensures r.Failure? ==> Stuck(r.error, current)
      decreases Measure(), 3
    {
      var inner, t := ParseExpression();
      if inner.Failure? {
        return inner, t;
      }
      if current.kind != RParen {
        return Failure("Expected ')'"), t;
      }
      var close := Consume();
      tree := SParen(open, t, close);
      ConcatAssoc(before, [open], Yield(t));
      ConcatAssoc(before, [open] + Yield(t), [close]);
      return inner, tree;
    }

    /** parse_term: a factor, then factors joined by '*' and '/' for as
        long as one of them is the current token. */
    method ParseTerm() returns (r: Result<Expr>, ghost tree: Syntax)
      requires Valid()
      modifies this
      ensures Valid() && Measure() <= old(Measure())
      ensures r.Success? ==> IsTerm(tree) && consumed == old(consumed) + Yield(tree)
                             && r.value == Ast(tree) && Measure() < old(Measure())
                             && current.kind !in {Star, Slash}
      ensures r.Failure? ==> Stuck(r.error, current)
      decreases Measure(), 1
    {
      r, tree := ParseFactor();
      if r.Failure? {
        return;
      }
      while current.kind == Star || current.kind == Slash
        invariant Valid() && Measure() < old(Measure())
        invariant r.Success? && IsTerm(tree) && consumed == old(consumed) + Yield(tree) && r.value == Ast(tree)
        decreases Measure()
      {
        r, tree := TermStep(old(consumed), r.value, tree);
        if r.Failure? {
          return;
        }
      }
    }

    /** One turn of parse_term's loop: the operator and the next factor
        extend the term on the right. */
    method TermStep(ghost before: seq<Token>, left: Expr, ghost lt: Syntax) returns (r: Result<Expr>, ghost tree: Syntax)
      requires Valid() && current.kind in {Star, Slash}
      requires IsTerm(lt) && consumed == before + Yield(lt) && left == Ast(lt)
      modifies this
      ensures Valid() && Measure() < old(Measure())
      ensures r.Success? ==> IsTerm(tree) && consumed == before + Yield(tree) && r.value == Ast(tree)
      ensures r.Failure? ==> Stuck(r.error, current)
      decreases Measure(), 3
    {
      var op := Consume();
      var right, t := ParseFactor();
      if right.Failure? {
        return right, t;
      }
      tree := SBinary(lt, op, t);
      ConcatAssoc(before, Yield(lt), [op]);
      ConcatAssoc(before, Yield(lt) + [op], Yield(t));
      return Success(Binary(OpOf(op.kind), left, right.value)), tree;
    }

    /** parse_expression: a term, then terms joined by '+' and '-'. */
    method ParseExpression() returns (r: Result<Expr>, ghost tree: Syntax)
      requires Valid()
      modifies this
      ensures Valid() && Measure() <= old(Measure())
      ensures r.Success? ==> IsExpression(tree) && consumed == old(consumed) + Yield(tree)
                             && r.value == Ast(tree) && Measure() < old(Measure())
                             && current.kind !in {Plus, Minus, Star, Slash}
      ensures r.Failure? ==> Stuck(r.error, current)
      decreases Measure(), 2
    {
      r, tree := ParseTerm();
      if r.Failure? {
        return;
      }
      Lift(tree);
      while current.kind == Plus || current.kind == Minus
        invariant Valid() && Measure() < old(Measure())
        invariant r.Success? && IsExpression(tree) && consumed == old(consumed) + Yield(tree) && r.value == Ast(tree)
        invariant current.kind !in {Star, Slash}
        decreases Measure()
      {
        r, tree := ExpressionStep(old(consumed), r.value, tree);
        if r.Failure? {
          return;
        }
      }
    }

    /** One turn of parse_expression's loop: the operator and the next term
        extend the expression on the right. */
    method ExpressionStep(ghost before: seq<Token>, left: Expr, ghost lt: Syntax) returns (r: Result<Expr>, ghost tree: Syntax)
      requires Valid() && current.kind in {Plus, Minus}
      requires IsExpression(lt) && consumed == before + Yield(lt) && left == Ast(lt)
      modifies this
      ensures Valid() && Measure() < old(Measure())
      ensures r.Success? ==> IsExpression(tree) && consumed == before + Yield(tree) && r.value == Ast(tree)
                             && current.kind !in {Star, Slash}
      ensures r.Failure? ==> Stuck(r.error, current)
      decreases Measure(), 3
    {
      var op := Consume();
      var right, t := ParseTerm();
      if right.Failure? {
        return right, t;
      }
      tree := SBinary(lt, op, t);
      ConcatAssoc(before, Yield(lt), [op]);
      ConcatAssoc(before, Yield(lt) + [op], Yield(t));
      return Success(Binary(OpOf(op.kind), left, right.value)), tree;
    }
  }

  // ---------------------------------------------------------- evaluator

  /** One binary operator on two values; a zero divisor is an error. */
  function Apply(op: BinOp, x: real, y: real): (r: Result<real>)
    ensures r.Failure? <==> op == Div && y == 0.0
  {
    match op
    case Add => Success(x + y)
    case Sub => Success(x - y)
    case Mul => Success(x * y)
    case Div => if y == 0.0 then Failure("Division by zero") else Success(x / y)
  }

  /** evaluate: the value of a tree, left operand first; the first zero
      divisor met stops it with "Division by zero". */
  function Evaluate(e: Expr): (r: Result<real>)
    ensures r.Failure? ==> r.error == "Division by zero"
  {
    match e
    case Num(v) => Success(v)
    case Neg(x) =>
      var a := Evaluate(x);
      if a.Failure? then a else Success(-a.value)
    case Binary(op, l, r) =>
      var a := Evaluate(l);
      if a.Failure? then a
      else
        var b := Evaluate(r);
        if b.Failure? then b else Apply(op, a.value, b.value)
  }

  /** A tree holds a division somewhere. */
  predicate HasDivision(e: Expr)
  {
    match e
    case Num(_) => false
    case Neg(x) => HasDivision(x)
    case Binary(op, l, r) => op == Div || HasDivision(l) || HasDivision(r)
  }

  /** Only a division can fail: a tree without one always has a value. */
  lemma {:induction false} FailureNeedsDivision(e: Expr)
    ensures Evaluate(e).Failure? ==> HasDivision(e)
  {
    match e
    case Num(_) =>
    case Neg(x) => FailureNeedsDivision(x);
    case Binary(_, l, r) => FailureNeedsDivision(l); FailureNeedsDivision(r);
  }

  /** Unary minus is subtraction from zero. */
  lemma NegIsSubtraction(e: Expr)
    ensures Evaluate(Neg(e)) == Evaluate(Binary(Sub, Num(0.0), e))
  {
  }

  /** One line of the interactive loop: parse an expression, refuse a line
      whose first token is an error or that has tokens after the
      expression, and evaluate. On success the tokens read, up to EOF, are
      exactly one expression derivation, and the value is that
      derivation's. */
  method Calculate(line: string) returns (r: Result<real>, ghost tree: Syntax, ghost tokens: seq<Token>)
    requires '\0' in line
    ensures r.Success? ==> IsExpression(tree) && Evaluate(Ast(tree)) == r
    ensures r.Success? ==> |tokens| > 0 && tokens[..|tokens| - 1] == Yield(tree) && tokens[|tokens| - 1].kind == Eof
  {
    var p := new Parser(line);
    if p.current.kind == Error {
      return Failure("Invalid input"), SNumber(p.current), [];
    }
    var e;
    e, tree := p.ParseExpression();
    tokens := p.consumed + [p.current];
    if e.Failure? {
      return Failure(e.error), tree, tokens;
    }
    if p.current.kind != Eof {
      return Failure("Unexpected token after expression"), tree, tokens;
    }
    r := Evaluate(e.value);
    assert tokens[..|tokens| - 1] == p.consumed;
  }
}
