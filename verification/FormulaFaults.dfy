/** Which formulas are read without a syntax error, and which error every other one gives. */
module FormulaFaults {
  import opened CellRefs
  import opened Evaluation
  import opened Formulas
  import opened FormulaText
  import opened Rationals
  import opened Text
  import opened Wrappers

  // ---------------------------------------------------------------- characters

  /** ASCII white space between tokens is skipped, and nothing else is. */
  lemma SpaceSkipped(c: char, rest: string)
    requires c in {' ', '\t', '\n', '\r', '\U{0C}'}
    ensures Scan([c] + rest) == Scan(rest)
  {
    assert ([c] + rest)[1..] == rest;
  }

  /** A character that starts no token is the failure. */
  lemma StrayCharacter(c: char, rest: string)
    requires c !in {' ', '\t', '\n', '\r', '\U{0C}', '+', '-', '*', '/', '(', ')'}
    requires !('0' <= c <= '9') && !('a' <= c <= 'z') && !('A' <= c <= 'Z')
    ensures Scan([c] + rest) == Failure(UnexpectedCharacter(c))
  {
  }

  /** Without an equals sign first there is no formula. */
  lemma EqualsMissing(formula: string)
    ensures FormulaTree(formula) == Bad(MissingEquals) || (Trim(formula) != [] && Trim(formula)[0] == '=')
    ensures !(Trim(formula) != [] && Trim(formula)[0] == '=') ==> FormulaTree(formula) == Bad(MissingEquals)
  {
  }

  /** Letters and digits that are no cell reference are refused as one piece, as far as they go. */
  lemma BadReference(letters: string, digits: string, rest: string)
    requires letters != [] && AllLetters(letters) && AllDigits(digits)
    requires rest != [] ==> !IsDigit(rest[0]) && (digits == [] ==> !IsLetter(rest[0]))
    requires ParseCell(letters + digits) == None
    ensures Scan(letters + digits + rest) == Failure(InvalidCellRef(letters + digits))
  {
    hide ParseCell, Scan, CellRun, OperatorToken, IsAsciiWhitespace;
    var word := letters + digits;
    var s := word + rest;
    LetterRunConcat(letters, digits + rest);
    DigitRunConcat(digits, rest);
    assert s == letters + (digits + rest) && s[|letters|..] == digits + rest;
    RunIsWord(s, letters, digits);
    assert s[0] == letters[0] && s[0..] == s && s[0..|word|] == word;
    ScanStep(s, 0, |word|);
    LetterStarts(s[0]);
    hide LetterRun, DigitRun, IsLetter, IsAsciiWhitespace, OperatorToken, IsDigit;
  }

  lemma LetterStarts(c: char)
    requires IsLetter(c)
    ensures !IsAsciiWhitespace(c) && OperatorToken(c).None? && !IsDigit(c)
  {
  }

  lemma RunIsWord(s: string, letters: string, digits: string)
    requires LetterRun(s) == |letters| <= |s| && DigitRun(s[|letters|..]) == |digits|
    ensures CellRun(s) == |letters| + |digits|
  {
  }

  /** Every operator as it is written: what is added, subtracted, multiplied and divided. */
  lemma OperatorTexts(a: CellRef, b: CellRef, op: Op, sign: string)
    requires OneBased(a) && OneBased(b)
    requires sign == match op case Add => "+" case Sub => "-" case Mul => "*" case Div => "/"
    ensures FormulaTree("= " + CellText(a) + " " + sign + " " + CellText(b)) == Bin(op, Ref(a), Ref(b))
    ensures FormulaTree("= - " + CellText(a)) == Neg(Ref(a))
  {
    OperatorText(a, b, op, sign);
    MinusText(a);
    hide FormulaTree, CellText;
    SpacedSame(CellText(a), sign, CellText(b));
  }

  lemma SpacedSame(x: string, sign: string, y: string)
    ensures "= " + x + " " + sign + " " + y == "=" + (" " + x + (" " + sign + (" " + y)))
    ensures "= - " + x == "=" + (" " + "-" + (" " + x))
  {
  }

  lemma OperatorText(a: CellRef, b: CellRef, op: Op, text: string)
    requires OneBased(a) && OneBased(b) && text == TokenText(OpToken(op))
    ensures FormulaTree("=" + (" " + CellText(a) + (" " + text + (" " + CellText(b))))) == Bin(op, Ref(a), Ref(b))
  {
    hide FormulaTree, CellText;
    FormulaTextRoundTrip(Bin(op, Ref(a), Ref(b)));
    var ts := [Cell(a), OpToken(op), Cell(b)];
    assert Print(Ref(a), Level(op)) == [Cell(a)] && Print(Ref(b), Level(op) + 1) == [Cell(b)];
    assert Print(Bin(op, Ref(a), Ref(b)), 0) == ts;
    assert ts[1..] == [OpToken(op), Cell(b)] && ts[1..][1..] == [Cell(b)] && [Cell(b)][1..] == [];
    assert SpacedText([]) == "" && SpacedText([Cell(b)]) == " " + CellText(b);
  }

  lemma MinusText(a: CellRef)
    requires OneBased(a)
    ensures FormulaTree("=" + (" " + "-" + (" " + CellText(a)))) == Neg(Ref(a))
  {
    hide FormulaTree, CellText;
    FormulaTextRoundTrip(Neg(Ref(a)));
    var ts := [Minus, Cell(a)];
    assert Print(Ref(a), 2) == [Cell(a)] && Print(Neg(Ref(a)), 0) == ts;
    assert ts[1..] == [Cell(a)] && [Cell(a)][1..] == [];
    assert SpacedText([]) == "" && SpacedText([Cell(a)]) == " " + CellText(a);
  }

  /** Digits are that whole number, digits over digits that fraction; nothing is divided by zero. */
  lemma LiteralReads(digits: string, below: string)
    requires digits != [] && AllDigits(digits) && below != [] && AllDigits(below)
    ensures ParseLiteral(digits) == Ok(Reduce(DigitsValue(digits), 1))
    ensures var text := digits + "/" + below;
            ParseLiteral(text) == if DigitsValue(below) == 0 then Fail(InvalidRational(text))
                                  else Ok(Reduce(DigitsValue(digits), DigitsValue(below)))
  {
    IntegerLiteral(digits);
    FractionReads(digits, below);
    LiteralShape(digits, below);
    LiteralIs(digits + "/" + below);
    hide *;
  }

  lemma IntegerLiteral(digits: string)
    requires digits != [] && AllDigits(digits)
    ensures ParseLiteral(digits) == Ok(Reduce(DigitsValue(digits), 1))
  {
    OneIsOne();
    FractionReads(digits, "1");
    LiteralShape(digits, "1");
    LiteralIs(digits);
    hide *;
    assert digits + "/" + "1" == digits + "/1";
  }

  lemma LiteralIs(text: string)
    requires Trim(text) == text
    ensures ParseLiteral(text) ==
            match ParseRational(if '/' in text then text else text + "/1")
            case None => Fail(InvalidRational(text))
            case Some(q) => Ok(q)
  {
    hide Trim, ParseRational;
  }

  lemma OneIsOne()
    ensures AllDigits("1") && DigitsValue("1") == 1
  {
    assert NatText(1) == "1";
    NatTextValue(1);
  }

  lemma LiteralShape(digits: string, below: string)
    requires digits != [] && AllDigits(digits) && below != [] && AllDigits(below)
    ensures var text := digits + "/" + below; Trim(text) == text && '/' in text
    ensures Trim(digits) == digits && '/' !in digits
  {
    var text := digits + "/" + below;
    assert text[|digits|] == '/';
    assert text[0] == digits[0] && text[|text| - 1] == below[|below| - 1];
    TrimIdentity(text);
    TrimIdentity(digits);
  }

  lemma FractionReads(digits: string, below: string)
    requires digits != [] && AllDigits(digits) && below != [] && AllDigits(below)
    ensures ParseRational(digits + "/" + below) ==
            if DigitsValue(below) == 0 then None else Some(Reduce(DigitsValue(digits), DigitsValue(below)))
  {
    hide DigitsValue, Reduce, ParseRational;
    assert IsDigit(digits[0]) && IsDigit(below[0]);
    ParseFraction(digits, below);
  }

  // ---------------------------------------------------------------- well-formed token lists

  predicate IsOperator(token: Token) {
    token == Plus || token == Minus || token == Star || token == Slash
  }

  /**
   A counter is all it takes to tell where a token list goes wrong: whether an operand is wanted, and
   how many groups are open. The answer is the first token out of place, or nothing.
   */
  function FirstFault(ts: seq<Token>, pos: nat, wanted: bool, open: nat): Option<FormulaFailure>
    requires Terminated(ts) && pos < |ts|
    decreases |ts| - pos
  {
    var token := ts[pos];
    if wanted then
      if token == Minus then FirstFault(ts, pos + 1, true, open)
      else if token == LParen then FirstFault(ts, pos + 1, true, open + 1)
      else if token.Number? || token.Cell? then FirstFault(ts, pos + 1, false, open)
      else Some(ExpectedOperand(token))
    else if IsOperator(token) then FirstFault(ts, pos + 1, true, open)
    else if open > 0 then
      if token == RParen then FirstFault(ts, pos + 1, false, open - 1) else Some(ExpectedClose(token))
    else if token == End then None
    else Some(TrailingToken(token))
  }

  /** The syntax error a tree carries, the leftmost if any. */
  function FaultOf(t: Tree): Option<FormulaFailure> {
    match t
    case Bad(failure) => Some(failure)
    case Guard(inner, failure) => if FaultOf(inner).Some? then FaultOf(inner) else Some(failure)
    case Neg(inner) => FaultOf(inner)
    case Bin(_, l, r) => if FaultOf(l).Some? then FaultOf(l) else FaultOf(r)
    case _ => None
  }

  /** A rule follows the counter: to where it stops, or to the fault. */
  ghost predicate Follows(ts: seq<Token>, from: Option<FormulaFailure>, p: Parsed, open: nat)
    requires Terminated(ts) && p.pos < |ts|
  {
    && (p.ok ==> FaultOf(p.tree).None? && from == FirstFault(ts, p.pos, false, open))
    && (!p.ok ==> FaultOf(p.tree).Some? && from == FaultOf(p.tree))
  }

  lemma {:induction false} FactorFollows(ts: seq<Token>, pos: nat, open: nat)
    requires Terminated(ts) && pos < |ts|
    ensures Follows(ts, FirstFault(ts, pos, true, open), ParseFactor(ts, pos), open)
    decreases |ts| - pos, 0
  {
    hide ParseExpr;
    match ts[pos] {
      case Minus => FactorFollows(ts, pos + 1, open);
      case LParen => ExprFollows(ts, pos + 1, open + 1);
      case _ =>
    }
  }

  lemma {:induction false} TermFollows(ts: seq<Token>, pos: nat, open: nat)
    requires Terminated(ts) && pos < |ts|
    ensures Follows(ts, FirstFault(ts, pos, true, open), ParseTerm(ts, pos), open)
    ensures ParseTerm(ts, pos).ok ==> ProductOp(ts[ParseTerm(ts, pos).pos]).None?
    decreases |ts| - pos, 1
  {
    hide ParseFactor, FirstFault, FaultOf, TermTail;
    FactorFollows(ts, pos, open);
    var left := ParseFactor(ts, pos);
    if left.ok {
      TermTailFollows(ts, left.pos, left.tree, open);
    }
  }

  lemma {:induction false} ExprFollows(ts: seq<Token>, pos: nat, open: nat)
    requires Terminated(ts) && pos < |ts|
    ensures Follows(ts, FirstFault(ts, pos, true, open), ParseExpr(ts, pos), open)
    ensures ParseExpr(ts, pos).ok ==> !IsOperator(ts[ParseExpr(ts, pos).pos])
    decreases |ts| - pos, 2
  {
    hide ParseTerm, FirstFault, FaultOf, ExprTail;
    TermFollows(ts, pos, open);
    var left := ParseTerm(ts, pos);
    if left.ok {
      ExprTailFollows(ts, left.pos, left.tree, open);
    }
  }

  lemma {:induction false} TermTailFollows(ts: seq<Token>, pos: nat, left: Tree, open: nat)
    requires Terminated(ts) && pos < |ts| && FaultOf(left).None?
    ensures Follows(ts, FirstFault(ts, pos, false, open), TermTail(ts, pos, left), open)
    ensures TermTail(ts, pos, left).ok ==> ProductOp(ts[TermTail(ts, pos, left).pos]).None?
    decreases |ts| - pos, 1
  {
    hide ParseFactor;
    if ProductOp(ts[pos]).Some? {
      FactorFollows(ts, pos + 1, open);
      var right := ParseFactor(ts, pos + 1);
      if right.ok {
        TermTailFollows(ts, right.pos, Bin(ProductOp(ts[pos]).value, left, right.tree), open);
      }
    }
  }

  lemma {:induction false} ExprTailFollows(ts: seq<Token>, pos: nat, left: Tree, open: nat)
    requires Terminated(ts) && pos < |ts| && FaultOf(left).None? && ProductOp(ts[pos]).None?
    ensures Follows(ts, FirstFault(ts, pos, false, open), ExprTail(ts, pos, left), open)
    ensures ExprTail(ts, pos, left).ok ==> !IsOperator(ts[ExprTail(ts, pos, left).pos])
    decreases |ts| - pos, 2
  {
    hide ParseTerm;
    if SumOp(ts[pos]).Some? {
      TermFollows(ts, pos + 1, open);
      var right := ParseTerm(ts, pos + 1);
      if right.ok {
        ExprTailFollows(ts, right.pos, Bin(SumOp(ts[pos]).value, left, right.tree), open);
      }
    }
  }

  /** The parser reports exactly the counter's fault, and accepts exactly what the counter accepts. */
  lemma SyntaxFault(ts: seq<Token>)
    requires Terminated(ts)
    ensures FaultOf(TokensTree(ts)) == FirstFault(ts, 0, true, 0)
  {
    hide ParseExpr;
    ExprFollows(ts, 0, 0);
  }

  // ---------------------------------------------------------------- what a fault does

  /** The cells and literals before the fault all give numbers, and no division by zero comes before it. */
  predicate NumbersBefore(t: Tree, replies: Replies) {
    match t
    case Bad(_) => true
    case Guard(inner, _) =>
      if FaultOf(inner).Some? then NumbersBefore(inner, replies) else EvalTree(inner, replies).outcome.Ok?
    case Neg(inner) => NumbersBefore(inner, replies)
    case Bin(_, l, r) =>
      if FaultOf(l).Some? then NumbersBefore(l, replies)
      else EvalTree(l, replies).outcome.Ok? && NumbersBefore(r, replies)
    case _ => true
  }

  /** A faulty formula never gives a number, and gives its fault when everything before it is a number. */
  lemma {:induction false} FaultDecides(t: Tree, replies: Replies)
    requires FaultOf(t).Some?
    ensures !EvalTree(t, replies).outcome.Ok?
    ensures NumbersBefore(t, replies) ==> EvalTree(t, replies).outcome == Fail(FaultOf(t).value)
  {
    hide Apply, ParseLiteral;
    match t {
      case Bad(_) =>
      case Guard(inner, _) => if FaultOf(inner).Some? { FaultDecides(inner, replies); }
      case Neg(inner) => FaultDecides(inner, replies);
      case Bin(_, l, r) =>
        if FaultOf(l).Some? {
          FaultDecides(l, replies);
        } else {
          FaultDecides(r, replies);
        }
    }
  }
}
