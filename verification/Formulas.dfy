/**
 Formula text, tokens and the single-pass grammar. The source evaluates while it parses; here the
 grammar builds a tree in which a syntax error is a node that fails when evaluation reaches it, so a
 later module can say that evaluating on the fly and evaluating the tree are the same thing.
 */
module Formulas {
  import opened CellRefs
  import opened Rationals
  import opened Text
  import opened Wrappers

  datatype Token =
    | Number(text: string)
    | Cell(cell: CellRef)
    | Plus
    | Minus
    | Star
    | Slash
    | LParen
    | RParen
    | End

  /** Domain failures; the `Formula(String)` messages of the source are spelled as cases. */
  datatype FormulaFailure =
    | InvalidCellRef(text: string)
    | InvalidRational(text: string)
    | MissingEquals
    | UnexpectedCharacter(c: char)
    | ExpectedClose(got: Token)
    | ExpectedOperand(got: Token)
    | TrailingToken(got: Token)
    | NonNumericCell(cell: CellRef)
    | DivisionByZero

  // ---------------------------------------------------------------- tokens

  type Scanned = Result<seq<Token>, FormulaFailure>

  predicate IsAsciiWhitespace(c: char) {
    c == ' ' || c == '\t' || c == '\n' || c == '\U{0C}' || c == '\r'
  }

  function OperatorToken(c: char): Option<Token> {
    match c
    case '+' => Some(Plus)
    case '-' => Some(Minus)
    case '*' => Some(Star)
    case '/' => Some(Slash)
    case '(' => Some(LParen)
    case ')' => Some(RParen)
    case _ => None
  }

  function DigitRun(s: string): (k: nat)
    ensures k <= |s| && AllDigits(s[..k]) && (k < |s| ==> !IsDigit(s[k]))
  {
    if s != [] && IsDigit(s[0]) then
      var k := DigitRun(s[1..]);
      assert forall i :: 1 <= i <= k ==> s[i] == s[1..][i - 1];
      k + 1
    else 0
  }

  /** Digits, and a slash with more digits when a digit follows the slash at once. */
  function NumberRun(s: string): (k: nat)
    ensures k <= |s|
    ensures s != [] && IsDigit(s[0]) ==> k > 0
  {
    var k := DigitRun(s);
    if k + 1 < |s| && s[k] == '/' && IsDigit(s[k + 1]) then k + 1 + DigitRun(s[k + 1..]) else k
  }

  function CellRun(s: string): (k: nat)
    ensures k <= |s|
    ensures s != [] && IsLetter(s[0]) ==> k > 0
  {
    var k := LetterRun(s);
    k + DigitRun(s[k..])
  }

  function Prepend(tokens: seq<Token>, rest: Scanned): Scanned {
    match rest
    case Success(more) => Success(tokens + more)
    case Failure(e) => rest
  }

  /** What `tokenize` returns for the characters still to be read. */
  function Scan(s: string): Scanned
    decreases |s|
  {
    if s == [] then Success([End])
    else if IsAsciiWhitespace(s[0]) then Scan(s[1..])
    else if OperatorToken(s[0]).Some? then Prepend([OperatorToken(s[0]).value], Scan(s[1..]))
    else if IsDigit(s[0]) then
      var k := NumberRun(s);
      Prepend([Number(s[..k])], Scan(s[k..]))
    else if IsLetter(s[0]) then
      var k := CellRun(s);
      match ParseCell(s[..k])
      case None => Failure(InvalidCellRef(s[..k]))
      case Some(cell) => Prepend([Cell(cell)], Scan(s[k..]))
    else Failure(UnexpectedCharacter(s[0]))
  }

  /** `End` is the last token and only there: a parser that never steps over it stays inside the list. */
  ghost predicate Terminated(ts: seq<Token>) {
    && ts != [] && ts[|ts| - 1] == End
    && forall i :: 0 <= i < |ts| - 1 ==> ts[i] != End
  }

  lemma {:induction false} ScanTerminated(s: string)
    ensures Scan(s).Success? ==> Terminated(Scan(s).value)
    decreases |s|
  {
    if s == [] {
    } else if IsAsciiWhitespace(s[0]) || OperatorToken(s[0]).Some? {
      ScanTerminated(s[1..]);
    } else if IsDigit(s[0]) {
      ScanTerminated(s[NumberRun(s)..]);
    } else if IsLetter(s[0]) {
      ScanTerminated(s[CellRun(s)..]);
    }
  }

  lemma PrependSplit(tokens: seq<Token>, token: Token, rest: Scanned)
    ensures Prepend(tokens + [token], rest) == Prepend(tokens, Prepend([token], rest))
  {
    if rest.Success? {
      assert tokens + [token] + rest.value == tokens + ([token] + rest.value);
    }
  }

  lemma PrependNothing(rest: Scanned)
    ensures Prepend([], rest) == rest
  {
    if rest.Success? {
      assert [] + rest.value == rest.value;
    }
  }

  /** One step of the scan, seen from a position in the whole text. */
  lemma ScanStep(chars: string, start: nat, end: nat)
    requires start < end <= |chars|
    requires end - start == if IsDigit(chars[start]) then NumberRun(chars[start..])
                            else if IsLetter(chars[start]) then CellRun(chars[start..]) else 1
    ensures Scan(chars[start..]) ==
              if IsAsciiWhitespace(chars[start]) then Scan(chars[end..])
              else if OperatorToken(chars[start]).Some? then
                Prepend([OperatorToken(chars[start]).value], Scan(chars[end..]))
              else if IsDigit(chars[start]) then Prepend([Number(chars[start..end])], Scan(chars[end..]))
              else if IsLetter(chars[start]) then
                match ParseCell(chars[start..end])
                case None => Failure(InvalidCellRef(chars[start..end]))
                case Some(cell) => Prepend([Cell(cell)], Scan(chars[end..]))
              else Failure(UnexpectedCharacter(chars[start]))
  {
    hide ParseCell, NumberRun, CellRun;
    var rest := chars[start..];
    assert rest[..end - start] == chars[start..end];
    assert rest[end - start..] == chars[end..];
    assert rest[1..] == chars[start + 1..];
  }

  method SkipDigits(chars: string, start: nat) returns (pos: nat)
    requires start <= |chars|
    ensures pos == start + DigitRun(chars[start..]) <= |chars|
  {
    pos := start;
    while pos < |chars| && IsDigit(chars[pos])
      invariant start <= pos <= |chars|
      invariant start + DigitRun(chars[start..]) == pos + DigitRun(chars[pos..])
    {
      assert chars[pos..][1..] == chars[pos + 1..];
      pos := pos + 1;
    }
  }

  method SkipLetters(chars: string, start: nat) returns (pos: nat)
    requires start <= |chars|
    ensures pos == start + LetterRun(chars[start..]) <= |chars|
  {
    pos := start;
    while pos < |chars| && IsLetter(chars[pos])
      invariant start <= pos <= |chars|
      invariant start + LetterRun(chars[start..]) == pos + LetterRun(chars[pos..])
    {
      assert chars[pos..][1..] == chars[pos + 1..];
      pos := pos + 1;
    }
  }

  method ScanNumber(chars: string, start: nat) returns (pos: nat)
    requires start < |chars| && IsDigit(chars[start])
    ensures pos == start + NumberRun(chars[start..]) <= |chars|
  {
    pos := SkipDigits(chars, start);
    if pos + 1 < |chars| && chars[pos] == '/' && IsDigit(chars[pos + 1]) {
      assert chars[start..][pos - start + 1..] == chars[pos + 1..];
      pos := SkipDigits(chars, pos + 1);
    }
  }

  method ScanCellText(chars: string, start: nat) returns (pos: nat)
    requires start < |chars| && IsLetter(chars[start])
    ensures pos == start + CellRun(chars[start..]) <= |chars|
  {
    pos := SkipLetters(chars, start);
    assert chars[start..][pos - start..] == chars[pos..];
    pos := SkipDigits(chars, pos);
  }

  /** The scanning loop of the source over a position in the character list. */
  method Tokenize(chars: string) returns (r: Scanned)
    ensures r == Scan(chars)
  {
    hide NumberRun, CellRun, ParseCell;
    var tokens: seq<Token> := [];
    var pos := 0;
    assert chars[pos..] == chars;
    PrependNothing(Scan(chars));
    while pos < |chars|
      invariant 0 <= pos <= |chars|
      invariant Scan(chars) == Prepend(tokens, Scan(chars[pos..]))
    {
      var c := chars[pos];
      var start := pos;
      if IsAsciiWhitespace(c) {
        pos := pos + 1;
        ScanStep(chars, start, pos);
      } else if OperatorToken(c).Some? {
        pos := pos + 1;
        ScanStep(chars, start, pos);
        PrependSplit(tokens, OperatorToken(c).value, Scan(chars[pos..]));
        tokens := tokens + [OperatorToken(c).value];
      } else if IsDigit(c) {
        pos := ScanNumber(chars, start);
        ScanStep(chars, start, pos);
        PrependSplit(tokens, Number(chars[start..pos]), Scan(chars[pos..]));
        tokens := tokens + [Number(chars[start..pos])];
      } else if IsLetter(c) {
        pos := ScanCellText(chars, start);
        ScanStep(chars, start, pos);
        var cell := ParseCellText(chars[start..pos]);
        if cell.None? {
          return Failure(InvalidCellRef(chars[start..pos]));
        }
        PrependSplit(tokens, Cell(cell.value), Scan(chars[pos..]));
        tokens := tokens + [Cell(cell.value)];
      } else {
        ScanStep(chars, start, start + 1);
        return Failure(UnexpectedCharacter(c));
      }
    }
    return Success(tokens + [End]);
  }

  // ---------------------------------------------------------------- trees

  datatype Op = Add | Sub | Mul | Div

  datatype Tree =
    | Lit(text: string)
    | Const(value: Rational)
    | Ref(cell: CellRef)
    | Neg(inner: Tree)
    | Bin(op: Op, left: Tree, right: Tree)
    | Bad(failure: FormulaFailure)
    | Guard(inner: Tree, failure: FormulaFailure)

  /** How far a grammar rule got; when `ok` is false the tree holds the syntax error. */
  datatype Parsed = Parsed(tree: Tree, pos: nat, ok: bool)

  function SumOp(t: Token): Option<Op> {
    match t case Plus => Some(Add) case Minus => Some(Sub) case _ => None
  }

  function ProductOp(t: Token): Option<Op> {
    match t case Star => Some(Mul) case Slash => Some(Div) case _ => None
  }

  function ParseExpr(ts: seq<Token>, pos: nat): (p: Parsed)
    requires Terminated(ts) && pos < |ts|
    ensures pos <= p.pos < |ts| && (p.ok ==> pos < p.pos)
    decreases |ts| - pos, 2
  {
    var left := ParseTerm(ts, pos);
    if left.ok then ExprTail(ts, left.pos, left.tree) else left
  }

  function ExprTail(ts: seq<Token>, pos: nat, left: Tree): (p: Parsed)
    requires Terminated(ts) && pos < |ts|
    ensures pos <= p.pos < |ts|
    decreases |ts| - pos, 2
  {
    if SumOp(ts[pos]).None? then Parsed(left, pos, true)
    else
      var right := ParseTerm(ts, pos + 1);
      var tree := Bin(SumOp(ts[pos]).value, left, right.tree);
      if right.ok then ExprTail(ts, right.pos, tree) else Parsed(tree, right.pos, false)
  }

  function ParseTerm(ts: seq<Token>, pos: nat): (p: Parsed)
    requires Terminated(ts) && pos < |ts|
    ensures pos <= p.pos < |ts| && (p.ok ==> pos < p.pos)
    decreases |ts| - pos, 1
  {
    var left := ParseFactor(ts, pos);
    if left.ok then TermTail(ts, left.pos, left.tree) else left
  }

  function TermTail(ts: seq<Token>, pos: nat, left: Tree): (p: Parsed)
    requires Terminated(ts) && pos < |ts|
    ensures pos <= p.pos < |ts|
    decreases |ts| - pos, 1
  {
    if ProductOp(ts[pos]).None? then Parsed(left, pos, true)
    else
      var right := ParseFactor(ts, pos + 1);
      var tree := Bin(ProductOp(ts[pos]).value, left, right.tree);
      if right.ok then TermTail(ts, right.pos, tree) else Parsed(tree, right.pos, false)
  }

  function ParseFactor(ts: seq<Token>, pos: nat): (p: Parsed)
    requires Terminated(ts) && pos < |ts|
    ensures pos <= p.pos < |ts| && (p.ok ==> pos < p.pos)
    decreases |ts| - pos, 0
  {
    match ts[pos]
    case Number(text) => Parsed(Lit(text), pos + 1, true)
    case Cell(cell) => Parsed(Ref(cell), pos + 1, true)
    case Minus =>
      var p := ParseFactor(ts, pos + 1);
      Parsed(Neg(p.tree), p.pos, p.ok)
    case LParen =>
      var p := ParseExpr(ts, pos + 1);
      if !p.ok then p
      else if ts[p.pos] == RParen then Parsed(p.tree, p.pos + 1, true)
      else Parsed(Guard(p.tree, ExpectedClose(ts[p.pos])), p.pos, false)
    case _ => Parsed(Bad(ExpectedOperand(ts[pos])), pos, false)
  }

  /** The whole token list: an expression followed by `End`. */
  function TokensTree(ts: seq<Token>): Tree
    requires Terminated(ts)
  {
    var p := ParseExpr(ts, 0);
    if p.ok && ts[p.pos] != End then Guard(p.tree, TrailingToken(ts[p.pos])) else p.tree
  }

  /** The tree of a formula text: an equals sign after trimming, then tokens. */
  function FormulaTree(formula: string): Tree {
    var source := Trim(formula);
    if source == [] || source[0] != '=' then Bad(MissingEquals)
    else
      ScanTerminated(source[1..]);
      match Scan(source[1..])
      case Failure(e) => Bad(e)
      case Success(ts) => TokensTree(ts)
  }

  // ---------------------------------------------------------------- printing

  function OpToken(op: Op): Token {
    match op case Add => Plus case Sub => Minus case Mul => Star case Div => Slash
  }

  /** Sums bind at level 0, products at level 1; factors are level 2. */
  function Level(op: Op): nat {
    if op == Add || op == Sub then 0 else 1
  }

  ghost predicate Printable(t: Tree) {
    match t
    case Lit(_) => true
    case Ref(_) => true
    case Neg(inner) => Printable(inner)
    case Bin(_, l, r) => Printable(l) && Printable(r)
    case _ => false
  }

  /** Tokens of a tree at a level, with parentheses only where precedence needs them. */
  function Print(t: Tree, level: nat): seq<Token>
    requires Printable(t)
  {
    match t
    case Lit(text) => [Number(text)]
    case Ref(cell) => [Cell(cell)]
    case Neg(inner) => [Minus] + Print(inner, 2)
    case Bin(op, l, r) =>
      var body := Print(l, Level(op)) + [OpToken(op)] + Print(r, Level(op) + 1);
      if level > Level(op) then [LParen] + body + [RParen] else body
  }

  /** The tokens at `pos` are `part`, and something follows them. */
  ghost predicate At(ts: seq<Token>, pos: nat, part: seq<Token>) {
    pos + |part| < |ts| && ts[pos..pos + |part|] == part
  }

  lemma AtConcat(ts: seq<Token>, pos: nat, a: seq<Token>, b: seq<Token>)
    requires At(ts, pos, a + b)
    ensures At(ts, pos, a) && At(ts, pos + |a|, b)
    ensures b != [] ==> ts[pos + |a|] == b[0]
  {
    var s := ts[pos..pos + |a + b|];
    assert s[..|a|] == a && s[|a|..] == b;
    if b != [] {
      assert s[|a|] == b[0];
    }
  }

  lemma SumRule(ts: seq<Token>, pos: nat, mid: nat, end: nat, op: Op, l: Tree, r: Tree)
    requires Terminated(ts) && pos < |ts| && mid + 1 < |ts| && end < |ts|
    requires ParseExpr(ts, pos) == ExprTail(ts, mid, l)
    requires SumOp(ts[mid]) == Some(op)
    requires ParseTerm(ts, mid + 1) == Parsed(r, end, true)
    ensures ParseExpr(ts, pos) == ExprTail(ts, end, Bin(op, l, r))
  {
  }

  lemma ProductRule(ts: seq<Token>, pos: nat, mid: nat, end: nat, op: Op, l: Tree, r: Tree)
    requires Terminated(ts) && pos < |ts| && mid + 1 < |ts| && end < |ts|
    requires ParseTerm(ts, pos) == TermTail(ts, mid, l)
    requires ProductOp(ts[mid]) == Some(op)
    requires ParseFactor(ts, mid + 1) == Parsed(r, end, true)
    ensures ParseTerm(ts, pos) == TermTail(ts, end, Bin(op, l, r))
  {
  }

  lemma GroupRule(ts: seq<Token>, pos: nat, end: nat, t: Tree)
    requires Terminated(ts) && pos + 1 < |ts| && end + 1 < |ts|
    requires ts[pos] == LParen && ts[end] == RParen
    requires ParseExpr(ts, pos + 1) == ExprTail(ts, end, t)
    ensures ParseFactor(ts, pos) == Parsed(t, end + 1, true)
  {
  }

  lemma NegRule(ts: seq<Token>, pos: nat, inner: Tree)
    requires Terminated(ts) && pos + 1 < |ts| && ts[pos] == Minus
    requires ParseFactor(ts, pos + 1).ok && ParseFactor(ts, pos + 1).tree == inner
    ensures ParseFactor(ts, pos) == ParseFactor(ts, pos + 1).(tree := Neg(inner))
  {
  }

  lemma LeafRule(ts: seq<Token>, pos: nat)
    requires Terminated(ts) && pos < |ts|
    ensures ts[pos].Number? ==> ParseFactor(ts, pos) == Parsed(Lit(ts[pos].text), pos + 1, true)
    ensures ts[pos].Cell? ==> ParseFactor(ts, pos) == Parsed(Ref(ts[pos].cell), pos + 1, true)
  {
  }

  lemma TermIsExpr(ts: seq<Token>, pos: nat, end: nat, t: Tree)
    requires Terminated(ts) && pos < |ts| && end < |ts|
    requires ParseTerm(ts, pos) == TermTail(ts, end, t)
    requires ProductOp(ts[end]).None?
    ensures ParseTerm(ts, pos) == Parsed(t, end, true)
    ensures ParseExpr(ts, pos) == ExprTail(ts, end, t)
  {
  }

  lemma FactorIsTerm(ts: seq<Token>, pos: nat, end: nat, t: Tree)
    requires Terminated(ts) && pos < |ts| && end < |ts|
    requires ParseFactor(ts, pos) == Parsed(t, end, true)
    ensures ParseTerm(ts, pos) == TermTail(ts, end, t)
  {
  }

  lemma PrintBin(t: Tree, level: nat)
    requires Printable(t) && t.Bin?
    ensures Print(t, Level(t.op))
         == Print(t.left, Level(t.op)) + [OpToken(t.op)] + Print(t.right, Level(t.op) + 1)
    ensures level <= Level(t.op) ==> Print(t, level) == Print(t, Level(t.op))
    ensures level > Level(t.op) ==> Print(t, level) == [LParen] + Print(t, Level(t.op)) + [RParen]
  {
  }

  lemma {:induction false} FactorOfPrinted(ts: seq<Token>, pos: nat, t: Tree)
    requires Terminated(ts) && Printable(t) && At(ts, pos, Print(t, 2))
    ensures ParseFactor(ts, pos) == Parsed(t, pos + |Print(t, 2)|, true)
    decreases t, 1
  {
    hide ParseFactor;
    if t.Neg? {
      AtConcat(ts, pos, [], [Minus] + Print(t.inner, 2));
      AtConcat(ts, pos, [Minus], Print(t.inner, 2));
      FactorOfPrinted(ts, pos + 1, t.inner);
      NegRule(ts, pos, t.inner);
    } else if t.Bin? {
      GroupOfPrinted(ts, pos, t);
    } else {
      AtConcat(ts, pos, [], Print(t, 2));
      LeafRule(ts, pos);
    }
  }

  lemma GroupAt(ts: seq<Token>, pos: nat, body: seq<Token>)
    requires At(ts, pos, [LParen] + body + [RParen])
    ensures pos + 2 + |body| < |ts| && At(ts, pos + 1, body)
    ensures ts[pos] == LParen && ts[pos + 1 + |body|] == RParen
  {
    AtConcat(ts, pos, [LParen] + body, [RParen]);
    AtConcat(ts, pos, [LParen], body);
    AtConcat(ts, pos, [], [LParen] + body);
  }

  /** A compound operand in parentheses. */
  lemma {:induction false} GroupOfPrinted(ts: seq<Token>, pos: nat, t: Tree)
    requires t.Bin? && Terminated(ts) && Printable(t) && At(ts, pos, Print(t, 2))
    ensures ParseFactor(ts, pos) == Parsed(t, pos + |Print(t, 2)|, true)
    decreases t, 0, 2
  {
    hide ParseExpr, ParseTerm, ParseFactor, ExprTail, TermTail, Print, Printable, Terminated;
    var body := Print(t, Level(t.op));
    assert Print(t, 2) == [LParen] + body + [RParen] by { PrintBin(t, 2); }
    GroupAt(ts, pos, body);
    hide At;
    OperationOfPrinted(ts, pos + 1, t);
    GroupRule(ts, pos, pos + 1 + |body|, t);
  }

  /** An operation without parentheses reaches the loop of its own level. */
  lemma {:induction false} OperationOfPrinted(ts: seq<Token>, pos: nat, t: Tree)
    requires t.Bin? && Printable(t) && Terminated(ts)
    requires At(ts, pos, Print(t, Level(t.op)))
    ensures var end := pos + |Print(t, Level(t.op))|;
            Level(t.op) == 1 ==> ParseTerm(ts, pos) == TermTail(ts, end, t)
    ensures var end := pos + |Print(t, Level(t.op))|;
            ProductOp(ts[end]).None? ==> ParseExpr(ts, pos) == ExprTail(ts, end, t)
    decreases t, 0, 1
  {
    hide ParseExpr, ParseTerm, ParseFactor, ExprTail, TermTail;
    var end := pos + |Print(t, Level(t.op))|;
    if Level(t.op) == 1 {
      ProductOfPrinted(ts, pos, t);
      if ProductOp(ts[end]).None? {
        TermIsExpr(ts, pos, end, t);
      }
    } else if ProductOp(ts[end]).None? {
      SumOfPrinted(ts, pos, t);
    }
  }

  lemma OperandsAt(ts: seq<Token>, pos: nat, t: Tree)
    requires t.Bin? && Printable(t) && At(ts, pos, Print(t, Level(t.op)))
    ensures var l, r := Print(t.left, Level(t.op)), Print(t.right, Level(t.op) + 1);
            && |Print(t, Level(t.op))| == |l| + 1 + |r|
            && At(ts, pos, l) && ts[pos + |l|] == OpToken(t.op) && At(ts, pos + |l| + 1, r)
  {
    hide Print, At;
    PrintBin(t, Level(t.op));
    SplitAt(ts, pos, Print(t.left, Level(t.op)), OpToken(t.op), Print(t.right, Level(t.op) + 1));
  }

  lemma SplitAt(ts: seq<Token>, pos: nat, a: seq<Token>, token: Token, b: seq<Token>)
    requires At(ts, pos, a + [token] + b)
    ensures At(ts, pos, a) && ts[pos + |a|] == token && At(ts, pos + |a| + 1, b)
  {
    AtConcat(ts, pos, a + [token], b);
    AtConcat(ts, pos, a, [token]);
  }

  lemma {:induction false} ProductOfPrinted(ts: seq<Token>, pos: nat, t: Tree)
    requires t.Bin? && Level(t.op) == 1 && Printable(t) && Terminated(ts) && At(ts, pos, Print(t, 1))
    ensures ParseTerm(ts, pos) == TermTail(ts, pos + |Print(t, 1)|, t)
    decreases t, 0, 0
  {
    hide ParseExpr, ParseTerm, ParseFactor, ExprTail, TermTail, Print, At;
    var l, r := Print(t.left, 1), Print(t.right, 2);
    var mid, end := pos + |l|, pos + |l| + 1 + |r|;
    OperandsAt(ts, pos, t);
    TermOfPrinted(ts, pos, t.left);
    FactorOfPrinted(ts, mid + 1, t.right);
    ProductRule(ts, pos, mid, end, t.op, t.left, t.right);
  }

  lemma {:induction false} SumOfPrinted(ts: seq<Token>, pos: nat, t: Tree)
    requires t.Bin? && Level(t.op) == 0 && Printable(t) && Terminated(ts) && At(ts, pos, Print(t, 0))
    requires ProductOp(ts[pos + |Print(t, 0)|]).None?
    ensures ParseExpr(ts, pos) == ExprTail(ts, pos + |Print(t, 0)|, t)
    decreases t, 0, 0
  {
    hide ParseExpr, ParseTerm, ParseFactor, ExprTail, TermTail, Print, At;
    var l, r := Print(t.left, 0), Print(t.right, 1);
    var mid, end := pos + |l|, pos + |l| + 1 + |r|;
    OperandsAt(ts, pos, t);
    ExprOfPrinted(ts, pos, t.left);
    TermOfPrinted(ts, mid + 1, t.right);
    TermIsExpr(ts, mid + 1, end, t.right);
    SumRule(ts, pos, mid, end, t.op, t.left, t.right);
  }

  lemma {:induction false} TermOfPrinted(ts: seq<Token>, pos: nat, t: Tree)
    requires Terminated(ts) && Printable(t) && At(ts, pos, Print(t, 1))
    ensures ParseTerm(ts, pos) == TermTail(ts, pos + |Print(t, 1)|, t)
    decreases t, 2
  {
    hide ParseExpr, ParseTerm, ParseFactor, ExprTail, TermTail;
    if t.Bin? && Level(t.op) == 1 {
      OperationOfPrinted(ts, pos, t);
    } else {
      assert Print(t, 1) == Print(t, 2);
      FactorOfPrinted(ts, pos, t);
      FactorIsTerm(ts, pos, pos + |Print(t, 1)|, t);
    }
  }

  lemma {:induction false} ExprOfPrinted(ts: seq<Token>, pos: nat, t: Tree)
    requires Terminated(ts) && Printable(t) && At(ts, pos, Print(t, 0))
    requires ProductOp(ts[pos + |Print(t, 0)|]).None?
    ensures ParseExpr(ts, pos) == ExprTail(ts, pos + |Print(t, 0)|, t)
    decreases t, 3
  {
    hide ParseExpr, ParseTerm, ParseFactor, ExprTail, TermTail;
    if t.Bin? && Level(t.op) == 0 {
      OperationOfPrinted(ts, pos, t);
    } else {
      assert Print(t, 0) == Print(t, 1);
      TermOfPrinted(ts, pos, t);
      TermIsExpr(ts, pos, pos + |Print(t, 0)|, t);
    }
  }

  lemma {:induction false} PrintedHasNoEnd(t: Tree, level: nat)
    requires Printable(t)
    ensures End !in Print(t, level)
    decreases t
  {
    match t
    case Neg(inner) => PrintedHasNoEnd(inner, 2);
    case Bin(op, l, r) =>
      PrintedHasNoEnd(l, Level(op));
      PrintedHasNoEnd(r, Level(op) + 1);
    case _ =>
  }

  /** Parsing the tokens of a printed tree consumes them all and gives the tree back. */
  lemma ParsePrinted(t: Tree)
    requires Printable(t)
    ensures Terminated(Print(t, 0) + [End])
    ensures ParseExpr(Print(t, 0) + [End], 0) == Parsed(t, |Print(t, 0)|, true)
    ensures TokensTree(Print(t, 0) + [End]) == t
  {
    var ts := Print(t, 0) + [End];
    assert ts[0..|Print(t, 0)|] == Print(t, 0);
    PrintedHasNoEnd(t, 0);
    ExprOfPrinted(ts, 0, t);
  }
}
