/** The language of ScriptingLanguage/examples/03_variables.c: the
    calculator's expressions plus identifiers, `let x = e` and `x = e`, a
    symbol table of at most 100 variables, and an evaluator that binds
    names in it. Numbers are exact reals: rounding to double is not
    modelled. */
module Variables {
  import opened Common
  import opened ScriptLexing

  // ------------------------------------------------------------- tokens

  datatype Kind =
    | Number | Identifier
    | Plus | Minus | Star | Slash | Equals | LParen | RParen | Semicolon
    | Let | Eof | Error

  /** A token; the C fields next_token leaves unset are "" and 0 here. */
  datatype Token = Token(kind: Kind, lexeme: string, number: real)

  /** The token type of a one-character token; any other character is an
      error. */
  function OperatorKind(c: char): (k: Kind)
    ensures k !in {Number, Identifier, Let, Eof}
  {
    match c
    case '+' => Plus
    case '-' => Minus
    case '*' => Star
    case '/' => Slash
    case '=' => Equals
    case '(' => LParen
    case ')' => RParen
    case ';' => Semicolon
    case _ => Error
  }

  /** A word is the keyword `let` or an identifier. */
  function WordKind(w: string): (k: Kind)
    ensures k == Let <==> w == "let"
    ensures k == Let || k == Identifier
  {
    if w == "let" then Let else Identifier
  }

  /** The token next_token reads when, after the blanks, it starts at
      `start` and leaves the lexer at `end`. */
  ghost predicate Lexes(s: string, start: nat, end: nat, token: Token)
    requires '\0' in s && start <= end <= StrLen(s)
  {
    if s[start] == '\0' then
      end == start && token == Token(Eof, "", 0.0)
    else if IsDigit(s[start]) || s[start] == '.' then
      NumberRun(s, start, end) && token == Token(Number, s[start..end], Atof(s[start..end]))
    else if IsIdentStart(s[start]) then
      WordRun(s, start, end) && token == Token(WordKind(s[start..end]), s[start..end], 0.0)
    else
      end == start + 1 && token == Token(OperatorKind(s[start]), [s[start]], 0.0)
  }

  /** next_token: skips the blanks from i and reads one token. At the NUL it
      returns EOF and stays there; otherwise it moves on. */
  method NextToken(s: string, i: nat) returns (token: Token, j: nat)
    requires '\0' in s && i <= StrLen(s)
    ensures BlanksEnd(s, i) <= j <= StrLen(s)
    ensures Lexes(s, BlanksEnd(s, i), j, token)
    ensures token.kind == Eof <==> j == BlanksEnd(s, i)
  {
    var k := SkipBlanks(s, i);
    var c := s[k];
    if c == '\0' {
      return Token(Eof, "", 0.0), k;
    }
    if IsDigit(c) || c == '.' {
      j := ScanNumber(s, k);
      var lexeme := s[k..j];
      return Token(Number, lexeme, Atof(lexeme)), j;
    }
    if IsAlpha(c) || c == '_' {
      j := ScanWord(s, k);
      var lexeme := s[k..j];
      return Token(WordKind(lexeme), lexeme, 0.0), j;
    }
    return Token(OperatorKind(c), [c], 0.0), k + 1;
  }

  /** The same text and position always give the same token and the same
      next position. */
  lemma LexesUnique(s: string, i: nat, end1: nat, t1: Token, end2: nat, t2: Token)
    requires '\0' in s && i <= end1 <= StrLen(s) && i <= end2 <= StrLen(s)
    requires Lexes(s, i, end1, t1) && Lexes(s, i, end2, t2)
    ensures end1 == end2 && t1 == t2
  {
    if s[i] != '\0' && (IsDigit(s[i]) || s[i] == '.') {
      NumberRunUnique(s, i, end1, end2);
    } else if s[i] != '\0' && IsIdentStart(s[i]) {
      WordRunUnique(s, i, end1, end2);
    }
  }

  // ------------------------------------------------------- symbol table

  /** A binding of the symbol table. */
  datatype Variable = Variable(name: string, value: real)

  /** The capacity of the table's array. */
  const MAX_VARIABLES: nat := 100

  /** The first binding of `name`, or |vars| when there is none: where
      table_set and table_get stop their scan. */
  function IndexOf(vars: seq<Variable>, name: string): (i: nat)
    ensures i <= |vars|
    ensures i < |vars| ==> vars[i].name == name
    ensures forall k :: 0 <= k < i ==> vars[k].name != name
  {
    if |vars| == 0 then 0
    else if vars[0].name == name then 0
    else 1 + IndexOf(vars[1..], name)
  }

  /** The value table_get finds for a name, if any. */
  function Lookup(vars: seq<Variable>, name: string): Option<real>
  {
    var i := IndexOf(vars, name);
    if i < |vars| then Some(vars[i].value) else None
  }

  /** The table after table_set(name, value), when there is room: the
      binding is overwritten in place, or appended when the name is new. */
  function Bind(vars: seq<Variable>, name: string, value: real): seq<Variable>
  {
    var i := IndexOf(vars, name);
    if i < |vars| then vars[i := Variable(name, value)] else vars + [Variable(name, value)]
  }

  /** No name is bound twice. */
  predicate DistinctNames(vars: seq<Variable>)
  {
    forall i, j :: 0 <= i < j < |vars| ==> vars[i].name != vars[j].name
  }

  /** After binding a name, looking it up gives the new value. */
  lemma LookupBind(vars: seq<Variable>, name: string, value: real)
    ensures Lookup(Bind(vars, name, value), name) == Some(value)
  {
    var b := Bind(vars, name, value);
    var i := IndexOf(vars, name);
    assert b[i].name == name;
    IndexOfAt(b, name, i);
  }

  /** Binding a name leaves every other name's value as it was. */
  lemma LookupBindOther(vars: seq<Variable>, name: string, value: real, other: string)
    requires other != name
    ensures Lookup(Bind(vars, name, value), other) == Lookup(vars, other)
  {
    var b := Bind(vars, name, value);
    var j := IndexOf(vars, other);
    if j < |vars| {
      IndexOfAt(b, other, j);
    } else {
      IndexOfAbsent(b, other);
    }
  }

  /** A new name adds one binding; a bound one keeps the length. */
  lemma BindLength(vars: seq<Variable>, name: string, value: real)
    ensures |Bind(vars, name, value)| == |vars| + (if Lookup(vars, name).None? then 1 else 0)
  {
  }

  /** Binding keeps the names distinct. */
  lemma BindDistinct(vars: seq<Variable>, name: string, value: real)
    ensures DistinctNames(vars) ==> DistinctNames(Bind(vars, name, value))
  {
  }

  /** The first binding of a name is where it is found. */
  lemma IndexOfAt(vars: seq<Variable>, name: string, i: nat)
    requires i < |vars| && vars[i].name == name
    requires forall k :: 0 <= k < i ==> vars[k].name != name
    ensures IndexOf(vars, name) == i
  {
  }

  lemma IndexOfAbsent(vars: seq<Variable>, name: string)
    requires forall k :: 0 <= k < |vars| ==> vars[k].name != name
    ensures IndexOf(vars, name) == |vars|
  {
  }

  /** The symbol table: `vars` holds vars[0..count) of the C array. */
  class SymbolTable {
    var vars: seq<Variable>

    ghost predicate Valid()
      reads this
    {
      |vars| <= MAX_VARIABLES && DistinctNames(vars)
    }

    /** table_init: no variables. */
    constructor ()
      ensures Valid() && vars == []
    {
      vars := [];
    }

    /** table_set: overwrites the binding of `name`, or appends one; with
        100 variables already bound a new name is the error "Too many
        variables" (the C program exits) and nothing changes. */
    method Set(name: string, value: real) returns (ok: bool)
      requires Valid()
      modifies this
      ensures Valid()
      ensures ok <==> Lookup(old(vars), name).Some? || |old(vars)| < MAX_VARIABLES
      ensures ok ==> vars == Bind(old(vars), name, value)
      ensures !ok ==> vars == old(vars)
    {
      for i := 0 to |vars|
        invariant forall k :: 0 <= k < i ==> vars[k].name != name
      {
        if vars[i].name == name {
          IndexOfAt(vars, name, i);
          BindDistinct(vars, name, value);
          vars := vars[i := Variable(name, value)];
          return true;
        }
      }
      IndexOfAbsent(vars, name);
      if |vars| >= MAX_VARIABLES {
        return false;
      }
      BindDistinct(vars, name, value);
      vars := vars + [Variable(name, value)];
      return true;
    }

    /** table_get: the bound value, or None where C returns NULL. */
    method Get(name: string) returns (r: Option<real>)
      ensures r == Lookup(vars, name)
    {
      for i := 0 to |vars|
        invariant forall k :: 0 <= k < i ==> vars[k].name != name
      {
        if vars[i].name == name {
          IndexOfAt(vars, name, i);
          return Some(vars[i].value);
        }
      }
      IndexOfAbsent(vars, name);
      return None;
    }
  }

  // ---------------------------------------------------------------- AST

  datatype BinOp = Add | Sub | Mul | Div

  /** The tree the parser builds. */
  datatype Expr =
    | Num(value: real)
    | Var(name: string)
    | Neg(operand: Expr)
    | Binary(op: BinOp, left: Expr, right: Expr)
    | Assign(name: string, bound: Expr)
    | LetIn(name: string, bound: Expr)

  function OpOf(k: Kind): BinOp
    requires k in {Plus, Minus, Star, Slash}
  {
    match k
    case Plus => Add
    case Minus => Sub
    case Star => Mul
    case Slash => Div
  }

  // ------------------------------------------------------------ grammar

  /** A derivation, keeping every token it covers. `close` after a
      parenthesised expression and the name and '=' of a `let` may be any
      token: the parser consumes them without looking. */
  datatype Syntax =
    | SNumber(token: Token)
    | SVar(token: Token)
    | SNeg(minus: Token, operand: Syntax)
    | SParen(open: Token, inner: Syntax, close: Token)
    | SBinary(left: Syntax, op: Token, right: Syntax)
    | SAssign(target: Token, eq: Token, value: Syntax)
    | SLet(keyword: Token, target: Token, eq: Token, value: Syntax)

  ghost function Yield(t: Syntax): seq<Token>
  {
    match t
    case SNumber(tok) => [tok]
    case SVar(tok) => [tok]
    case SNeg(minus, f) => [minus] + Yield(f)
    case SParen(open, e, close) => [open] + Yield(e) + [close]
    case SBinary(l, op, r) => Yield(l) + [op] + Yield(r)
    case SAssign(target, eq, v) => [target, eq] + Yield(v)
    case SLet(keyword, target, eq, v) => [keyword, target, eq] + Yield(v)
  }

  /** factor → NUMBER | IDENTIFIER | '-' factor | '(' expression any */
  ghost predicate IsFactor(t: Syntax)
    decreases t, 0
  {
    match t
    case SNumber(tok) => tok.kind == Number
    case SVar(tok) => tok.kind == Identifier
    case SNeg(minus, f) => minus.kind == Minus && IsFactor(f)
    case SParen(open, e, _) => open.kind == LParen && IsExpression(e)
    case _ => false
  }

  /** term → factor (('*' | '/') factor)*, as a left-leaning tree. */
  ghost predicate IsTerm(t: Syntax)
    decreases t, 1
  {
    match t
    case SBinary(l, op, r) => op.kind in {Star, Slash} && IsTerm(l) && IsFactor(r)
    case _ => IsFactor(t)
  }

  /** expression → term (('+' | '-') term)*, as a left-leaning tree. */
  ghost predicate IsExpression(t: Syntax)
    decreases t, 2
  {
    match t
    case SBinary(l, op, r) =>
      if op.kind in {Plus, Minus} then IsExpression(l) && IsTerm(r) else IsTerm(t)
    case _ => IsFactor(t)
  }

  /** statement → 'let' any any expression | IDENTIFIER '=' expression
      | expression */
  ghost predicate IsStatement(t: Syntax)
  {
    match t
    case SLet(keyword, _, _, v) => keyword.kind == Let && IsExpression(v)
    case SAssign(target, eq, v) => target.kind == Identifier && eq.kind == Equals && IsExpression(v)
    case _ => IsExpression(t)
  }

  /** The tree the parser returns for a derivation. */
  ghost function Ast(t: Syntax): Expr
  {
    match t
    case SNumber(tok) => Num(tok.number)
    case SVar(tok) => Var(tok.lexeme)
    case SNeg(_, f) => Neg(Ast(f))
    case SParen(_, e, _) => Ast(e)
    case SBinary(l, op, r) =>
      // a derivation's operator token is always one of the four
      if op.kind in {Plus, Minus, Star, Slash} then Binary(OpOf(op.kind), Ast(l), Ast(r)) else Ast(l)
    case SAssign(target, _, v) => Assign(target.lexeme, Ast(v))
    case SLet(_, target, _, v) => LetIn(target.lexeme, Ast(v))
  }

  /** A factor is a term, a term an expression, an expression a
      statement. */
  lemma Lift(t: Syntax)
    ensures IsFactor(t) ==> IsTerm(t)
    ensures IsTerm(t) ==> IsExpression(t)
    ensures IsExpression(t) ==> IsStatement(t) && !t.SAssign? && !t.SLet?
  {
    match t
    case SAssign(_, _, _) => assert !IsFactor(t);
    case SLet(_, _, _, _) => assert !IsFactor(t);
    case _ =>
  }

  /** An expression derivation yields an expression without assignments. */
  lemma {:induction false} ExpressionHasNoAssignment(t: Syntax)
    requires IsExpression(t)
    ensures NoAssignment(Ast(t))
    decreases t
  {
    match t
    case SNumber(_) =>
    case SVar(_) =>
    case SNeg(_, f) => Lift(f); ExpressionHasNoAssignment(f);
    case SParen(_, e, _) => ExpressionHasNoAssignment(e);
    case SBinary(l, op, r) =>
      Lift(l);
      Lift(r);
      ExpressionHasNoAssignment(l);
      ExpressionHasNoAssignment(r);
    case SAssign(_, _, _) =>
    case SLet(_, _, _, _) =>
  }

  // ------------------------------------------------------------- parser

  /** The parser: the lexer's text and position and the current token;
      `consumed` records, for the proofs, every token consume handed out. */
  class Parser {
    const source: string
    var pos: nat
    var current: Token
    ghost var consumed: seq<Token>

    ghost predicate Valid()
      reads this
    {
      '\0' in source && pos <= StrLen(source)
      && (current.kind == Eof ==> pos == StrLen(source))
    }

    /** Decreases with every token other than EOF consumed. */
    ghost function Measure(): nat
      reads this
      requires Valid()
    {
      2 * (StrLen(source) - pos) + (if current.kind == Eof then 0 else 1)
    }

    /** parser_init: starts the lexer at 0 and reads the first token. */
    constructor (source: string)
      requires '\0' in source
      ensures Valid() && this.source == source && consumed == []
      ensures BlanksEnd(source, 0) <= pos && Lexes(source, BlanksEnd(source, 0), pos, current)
    {
      this.source := source;
      var token, j := NextToken(source, 0);
      pos, current := j, token;
      consumed := [];
    }

    /** consume: hands out the current token and reads the next one. */
    method Consume() returns (token: Token)
      requires Valid()
      modifies this
      ensures Valid() && token == old(current) && consumed == old(consumed) + [token]
      ensures BlanksEnd(source, old(pos)) <= pos && Lexes(source, BlanksEnd(source, old(pos)), pos, current)
      ensures Measure() <= old(Measure())
      ensures token.kind != Eof ==> Measure() < old(Measure())
    {
      token := current;
      var next, j := NextToken(source, pos);
      pos, current := j, next;
      consumed := consumed + [token];
    }

    /** The lookahead of parse_assignment: reads the token after the
        current one, then puts the lexer position and the current token
        back as they were. */
    method PeekNext() returns (next: Token)
      requires Valid()
      modifies this
      ensures pos == old(pos) && current == old(current) && consumed == old(consumed)
      ensures exists j :: BlanksEnd(source, pos) <= j <= StrLen(source) && Lexes(source, BlanksEnd(source, pos), j, next)
    {
      var name := current;
      var saved := pos;
      var j;
      next, j := NextToken(source, pos);
      pos := saved;
      current := name;
    }

    /** parse_factor. On success it has consumed the tokens of a factor
        derivation and returns that derivation's tree; where this returns
        an error the C program exits. */
    method ParseFactor() returns (r: Result<Expr>, ghost tree: Syntax)
      requires Valid()
      modifies this
      ensures Valid() && Measure() <= old(Measure())
      ensures r.Success? ==> IsFactor(tree) && consumed == old(consumed) + Yield(tree)
                             && r.value == Ast(tree) && Measure() < old(Measure())
      ensures r.Failure? ==> r.error == "Unexpected token"
      decreases Measure(), 0
    {
      if current.kind == Minus {
        var minus := Consume();
        r, tree := ParseNegated(old(consumed), minus);
        return;
      }
      if current.kind == Number {
        var token := Consume();
        return Success(Num(token.number)), SNumber(token);
      }
      if current.kind == Identifier {
        var token := Consume();
        return Success(Var(token.lexeme)), SVar(token);
      }
      if current.kind == LParen {
        var open := Consume();
        r, tree := ParseParenthesised(old(consumed), open);
        return;
      }
      return Failure("Unexpected token"), SNumber(current);
    }

    /** The rest of parse_factor after a '-': the factor it negates. */
    method ParseNegated(ghost before: seq<Token>, ghost minus: Token) returns (r: Result<Expr>, ghost tree: Syntax)
      requires Valid() && minus.kind == Minus && consumed == before + [minus]
      modifies this
      ensures Valid() && Measure() <= old(Measure())
      ensures r.Success? ==> IsFactor(tree) && consumed == before + Yield(tree)
                             && r.value == Ast(tree) && Measure() < old(Measure())
      ensures r.Failure? ==> r.error == "Unexpected token"
      decreases Measure(), 3
    {
      var operand, t := ParseFactor();
      if operand.Failure? {
        return operand, t;
      }
      tree := SNeg(minus, t);
      ConcatAssoc(before, [minus], Yield(t));
      return Success(Neg(operand.value)), tree;
    }

    /** The rest of parse_factor after a '(': an expression, then whatever
        token follows it is consumed as the ')'. */
    method ParseParenthesised(ghost before: seq<Token>, ghost open: Token) returns (r: Result<Expr>, ghost tree: Syntax)
      requires Valid() && open.kind == LParen && consumed == before + [open]
      modifies this
      ensures Valid() && Measure() <= old(Measure())
      ensures r.Success? ==> IsFactor(tree) && consumed == before + Yield(tree)
                             && r.value == Ast(tree) && Measure() < old(Measure())
      ensures r.Failure? ==> r.error == "Unexpected token"
      decreases Measure(), 3
    {
      var inner, t := ParseExpression();
      if inner.Failure? {
        return inner, t;
      }
      var close := Consume();
      tree := SParen(open, t, close);
      ConcatAssoc(before, [open], Yield(t));
      ConcatAssoc(before, [open] + Yield(t), [close]);
      return inner, tree;
    }

    /** parse_term: a factor, then factors joined by '*' and '/'. */
    method ParseTerm() returns (r: Result<Expr>, ghost tree: Syntax)
      requires Valid()
      modifies this
      ensures Valid() && Measure() <= old(Measure())
      ensures r.Success? ==> IsTerm(tree) && consumed == old(consumed) + Yield(tree)
                             && r.value == Ast(tree) && Measure() < old(Measure())
                             && current.kind !in {Star, Slash}
      ensures r.Failure? ==> r.error == "Unexpected token"
      decreases Measure(), 1
    {
      r, tree := ParseFactor();
      if r.Failure? {
        return;
      }
      while current.kind == Star || current.kind == Slash
        invariant Valid() && Measure() < old(Measure())
        invariant r.Success? && IsTerm(tree) && consumed == old(consumed) + Yield(tree) && r.value == Ast(tree)
        decreases Measure()
      {
        r, tree := TermStep(old(consumed), r.value, tree);
        if r.Failure? {
          return;
        }
      }
    }

    /** One turn of parse_term's loop. */
    method TermStep(ghost before: seq<Token>, left: Expr, ghost lt: Syntax) returns (r: Result<Expr>, ghost tree: Syntax)
      requires Valid() && current.kind in {Star, Slash}
      requires IsTerm(lt) && consumed == before + Yield(lt) && left == Ast(lt)
      modifies this
      ensures Valid() && Measure() < old(Measure())
      ensures r.Success? ==> IsTerm(tree) && consumed == before + Yield(tree) && r.value == Ast(tree)
      ensures r.Failure? ==> r.error == "Unexpected token"
      decreases Measure(), 3
    {
      var op := Consume();
      var right, t := ParseFactor();
      if right.Failure? {
        return right, t;
      }
      tree := SBinary(lt, op, t);
      ConcatAssoc(before, Yield(lt), [op]);
      ConcatAssoc(before, Yield(lt) + [op], Yield(t));
      return Success(Binary(OpOf(op.kind), left, right.value)), tree;
    }

    /** parse_expression: a term, then terms joined by '+' and '-'. */
    method ParseExpression() returns (r: Result<Expr>, ghost tree: Syntax)
      requires Valid()
      modifies this
      ensures Valid() && Measure() <= old(Measure())
      ensures r.Success? ==> IsExpression(tree) && consumed == old(consumed) + Yield(tree)
                             && r.value == Ast(tree) && Measure() < old(Measure())
                             && current.kind !in {Plus, Minus, Star, Slash}
      ensures r.Failure? ==> r.error == "Unexpected token"
      decreases Measure(), 2
    {
      r, tree := ParseTerm();
      if r.Failure? {
        return;
      }
      Lift(tree);
      while current.kind == Plus || current.kind == Minus
        invariant Valid() && Measure() < old(Measure())
        invariant r.Success? && IsExpression(tree) && consumed == old(consumed) + Yield(tree) && r.value == Ast(tree)
        invariant current.kind !in {Star, Slash}
        decreases Measure()
      {
        r, tree := ExpressionStep(old(consumed), r.value, tree);
        if r.Failure? {
          return;
        }
      }
    }

    /** One turn of parse_expression's loop. */
    method ExpressionStep(ghost before: seq<Token>, left: Expr, ghost lt: Syntax) returns (r: Result<Expr>, ghost tree: Syntax)
      requires Valid() && current.kind in {Plus, Minus}
      requires IsExpression(lt) && consumed == before + Yield(lt) && left == Ast(lt)
      modifies this
      ensures Valid() && Measure() < old(Measure())
      ensures r.Success? ==> IsExpression(tree) && consumed == before + Yield(tree) && r.value == Ast(tree)
                             && current.kind !in {Star, Slash}
      ensures r.Failure? ==> r.error == "Unexpected token"
      decreases Measure(), 3
    {
      var op := Consume();
      var right, t := ParseTerm();
      if right.Failure? {
        return right, t;
      }
      tree := SBinary(lt, op, t);
      ConcatAssoc(before, Yield(lt), [op]);
      ConcatAssoc(before, Yield(lt) + [op], Yield(t));
      return Success(Binary(OpOf(op.kind), left, right.value)), tree;
    }

    /** parse_assignment: an identifier followed by '=' starts an
        assignment (found by the lookahead, which changes nothing);
        anything else is an expression. */
    method ParseAssignment() returns (r: Result<Expr>, ghost tree: Syntax, ghost next: Token)
      requires Valid()
      modifies this
      ensures Valid()
      ensures r.Success? ==> IsStatement(tree) && consumed == old(consumed) + Yield(tree) && r.value == Ast(tree)
      ensures r.Success? ==> !tree.SLet? && (tree.SAssign? <==> old(current).kind == Identifier && next.kind == Equals)
      ensures r.Failure? ==> r.error == "Unexpected token"
    {
      next := current;
      if current.kind == Identifier {
        var ahead := PeekNext();
        next := ahead;
        if ahead.kind == Equals {
          var target := Consume();
          r, tree := ParseAssigned(old(consumed), target);
          return;
        }
      }
      r, tree := ParseExpression();
      if r.Success? {
        Lift(tree);
      }
    }

    /** The rest of an assignment after its name: the '=' and the value. */
    method ParseAssigned(ghost before: seq<Token>, target: Token) returns (r: Result<Expr>, ghost tree: Syntax)
      requires Valid() && target.kind == Identifier && current.kind == Equals
      requires consumed == before + [target]
      modifies this
      ensures Valid()
      ensures r.Success? ==> tree.SAssign? && IsStatement(tree) && consumed == before + Yield(tree) && r.value == Ast(tree)
      ensures r.Failure? ==> r.error == "Unexpected token"
    {
      var eq := Consume();
      assert consumed == before + [target, eq];
      var value, t := ParseExpression();
      if value.Failure? {
        return value, t;
      }
      tree := SAssign(target, eq, t);
      ConcatAssoc(before, [target, eq], Yield(t));
      return Success(Assign(target.lexeme, value.value)), tree;
    }

    /** parse_statement: `let`, then whatever two tokens follow as the name
        and the '=', then an expression; otherwise an assignment or an
        expression. */
    method ParseStatement() returns (r: Result<Expr>, ghost tree: Syntax)
      requires Valid()
      modifies this
      ensures Valid()
      ensures r.Success? ==> IsStatement(tree) && consumed == old(consumed) + Yield(tree) && r.value == Ast(tree)
      ensures r.Success? ==> (tree.SLet? <==> old(current).kind == Let)
      ensures r.Failure? ==> r.error == "Unexpected token"
    {
      if current.kind == Let {
        var keyword := Consume();
        r, tree := ParseLet(old(consumed), keyword);
        return;
      }
      ghost var next;
      r, tree, next := ParseAssignment();
    }

    /** The rest of a `let` after the keyword. */
    method ParseLet(ghost before: seq<Token>, keyword: Token) returns (r: Result<Expr>, ghost tree: Syntax)
      requires Valid() && keyword.kind == Let && consumed == before + [keyword]
      modifies this
      ensures Valid()
      ensures r.Success? ==> tree.SLet? && IsStatement(tree) && consumed == before + Yield(tree) && r.value == Ast(tree)
      ensures r.Failure? ==> r.error == "Unexpected token"
    {
      var target := Consume();
      var eq := Consume();
      assert consumed == before + [keyword, target, eq];
      var value, t := ParseExpression();
      if value.Failure? {
        return value, t;
      }
      tree := SLet(keyword, target, eq, t);
      ConcatAssoc(before, [keyword, target, eq], Yield(t));
      return Success(LetIn(target.lexeme, value.value)), tree;
    }
  }

  // ---------------------------------------------------------- evaluator

  /** The expression contains no `let` and no assignment. */
  predicate NoAssignment(e: Expr)
  {
    match e
    case Num(_) => true
    case Var(_) => true
    case Neg(x) => NoAssignment(x)
    case Binary(_, l, r) => NoAssignment(l) && NoAssignment(r)
    case Assign(_, _) => false
    case LetIn(_, _) => false
  }

  /** One binary operator on two values. C's division by zero gives an
      infinity or NaN, which reals cannot hold: it is an error here. */
  function Apply(op: BinOp, x: real, y: real): (r: Result<real>)
    ensures r.Failure? <==> op == Div && y == 0.0
  {
    match op
    case Add => Success(x + y)
    case Sub => Success(x - y)
    case Mul => Success(x * y)
    case Div => if y == 0.0 then Failure("Division by zero") else Success(x / y)
  }

  /** The errors evaluation can stop with. */
  predicate EvalError(error: string)
  {
    error == "Undefined variable" || error == "Too many variables" || error == "Division by zero"
  }

  /** evaluate as a function of the tree and the table: the value and the
      table afterwards. Operands are evaluated left first; `let` and
      assignment evaluate the value, bind it, and yield it. */
  function Eval(e: Expr, vars: seq<Variable>): (r: Result<(real, seq<Variable>)>)
    ensures r.Failure? ==> EvalError(r.error)
    ensures r.Success? && |vars| <= MAX_VARIABLES ==> |r.value.1| <= MAX_VARIABLES
    ensures r.Success? && DistinctNames(vars) ==> DistinctNames(r.value.1)
  {
    match e
    case Num(v) => Success((v, vars))
    case Var(name) =>
      var found := Lookup(vars, name);
      if found.None? then Failure("Undefined variable") else Success((found.value, vars))
    case Neg(x) =>
      var a := Eval(x, vars);
      if a.Failure? then a else Success((-a.value.0, a.value.1))
    case Binary(op, l, r) =>
      var a := Eval(l, vars);
      if a.Failure? then a
      else
        var b := Eval(r, a.value.1);
        if b.Failure? then b
        else
          var c := Apply(op, a.value.0, b.value.0);
          if c.Failure? then Failure(c.error) else Success((c.value, b.value.1))
    case Assign(name, x) => EvalBind(name, Eval(x, vars))
    case LetIn(name, x) => EvalBind(name, Eval(x, vars))
  }

  /** The binding step of `let` and assignment: table_set of the value
      just computed, which fails only for a new name in a full table. */
  function EvalBind(name: string, a: Result<(real, seq<Variable>)>): (r: Result<(real, seq<Variable>)>)
    requires a.Failure? ==> EvalError(a.error)
    ensures r.Failure? ==> EvalError(r.error)
    ensures r.Success? && a.Success? && |a.value.1| <= MAX_VARIABLES ==> |r.value.1| <= MAX_VARIABLES
    ensures r.Success? && a.Success? && DistinctNames(a.value.1) ==> DistinctNames(r.value.1)
    ensures r.Success? ==> a.Success? && r.value.0 == a.value.0
  {
    if a.Failure? then a
    else
      var (v, vars) := a.value;
      if Lookup(vars, name).None? && |vars| >= MAX_VARIABLES then Failure("Too many variables")
      else
        BindLength(vars, name, v);
        BindDistinct(vars, name, v);
        Success((v, Bind(vars, name, v)))
  }

  /** An expression without assignments leaves the table alone. */
  lemma {:induction false} PureEvalKeepsTable(e: Expr, vars: seq<Variable>)
    requires NoAssignment(e) && Eval(e, vars).Success?
    ensures Eval(e, vars).value.1 == vars
  {
    match e
    case Num(_) =>
    case Var(_) =>
    case Neg(x) => PureEvalKeepsTable(x, vars);
    case Binary(_, l, r) =>
      PureEvalKeepsTable(l, vars);
      PureEvalKeepsTable(r, vars);
    case Assign(_, _) =>
    case LetIn(_, _) =>
  }

  /** `let x = e` and `x = e` with an assignment-free e: the result is e's
      value, x is bound to it afterwards and every other name keeps its
      value. */
  lemma AssignmentBinds(name: string, x: Expr, vars: seq<Variable>, other: string)
    requires NoAssignment(x)
    requires Eval(Assign(name, x), vars).Success?
    ensures var (v, after) := Eval(Assign(name, x), vars).value;
            Eval(x, vars) == Success((v, vars))
            && Lookup(after, name) == Some(v)
            && (other != name ==> Lookup(after, other) == Lookup(vars, other))
  {
    PureEvalKeepsTable(x, vars);
    var v := Eval(x, vars).value.0;
    LookupBind(vars, name, v);
    if other != name {
      LookupBindOther(vars, name, v, other);
    }
  }

  /** A variable evaluates exactly when it is bound. */
  lemma UndefinedVariable(name: string, vars: seq<Variable>)
    ensures Eval(Var(name), vars).Failure? <==> Lookup(vars, name).None?
  {
  }

  /** evaluate: walks the tree, reading and writing the table, and returns
      what Eval says, with the table left as Eval says. */
  method Evaluate(e: Expr, table: SymbolTable) returns (r: Result<real>)
    requires table.Valid()
    modifies table
    ensures table.Valid()
    ensures var spec := Eval(e, old(table.vars));
            (r.Success? <==> spec.Success?)
            && (r.Success? ==> r.value == spec.value.0 && table.vars == spec.value.1)
            && (r.Failure? ==> r.error == spec.error)
    decreases e, 0
  {
    match e
    case Num(v) =>
      return Success(v);
    case Var(name) =>
      var found := table.Get(name);
      if found.None? {
        return Failure("Undefined variable");
      }
      return Success(found.value);
    case Neg(x) =>
      var a := Evaluate(x, table);
      if a.Failure? {
        return a;
      }
      return Success(-a.value);
    case Binary(op, l, rt) =>
      var a := Evaluate(l, table);
      if a.Failure? {
        return a;
      }
      var b := Evaluate(rt, table);
      if b.Failure? {
        return b;
      }
      r := Apply(op, a.value, b.value);
    case Assign(name, x) =>
      r := EvaluateBind(name, x, table);
    case LetIn(name, x) =>
      r := EvaluateBind(name, x, table);
  }

  /** The shared `let` / assignment case of evaluate. */
  method EvaluateBind(name: string, x: Expr, table: SymbolTable) returns (r: Result<real>)
    requires table.Valid()
    modifies table
    ensures table.Valid()
    ensures var spec := EvalBind(name, Eval(x, old(table.vars)));
            (r.Success? <==> spec.Success?)
            && (r.Success? ==> r.value == spec.value.0 && table.vars == spec.value.1)
            && (r.Failure? ==> r.error == spec.error)
    decreases x, 1
  {
    var a := Evaluate(x, table);
    if a.Failure? {
      return a;
    }
    var ok := table.Set(name, a.value);
    if !ok {
      return Failure("Too many variables");
    }
    return a;
  }

  /** One line of the session loop: read the first token (an error token
      is "Invalid input"), parse one statement and evaluate it against the
      table. Tokens after the statement are ignored. */
  method RunLine(line: string, table: SymbolTable) returns (r: Result<real>, ghost tree: Syntax)
    requires '\0' in line && table.Valid()
    modifies table
    ensures table.Valid()
    ensures r.Success? ==> IsStatement(tree)
                           && Eval(Ast(tree), old(table.vars)) == Success((r.value, table.vars))
    ensures r.Failure? ==> r.error == "Invalid input" || r.error == "Unexpected token" || EvalError(r.error)
  {
    var p := new Parser(line);
    if p.current.kind == Error {
      return Failure("Invalid input"), SNumber(p.current);
    }
    var e;
    e, tree := p.ParseStatement();
    if e.Failure? {
      return Failure(e.error), tree;
    }
    r := Evaluate(e.value, table);
  }
}
