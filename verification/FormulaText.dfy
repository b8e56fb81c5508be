/** Printed formulas as text: tokens with a space before each, and what happens without the spaces. */
module FormulaText {
  import opened CellRefs
  import opened Formulas
  import opened Text
  import opened Wrappers

  function TokenText(token: Token): string {
    match token
    case Number(text) => text
    case Cell(cell) => CellText(cell)
    case Plus => "+"
    case Minus => "-"
    case Star => "*"
    case Slash => "/"
    case LParen => "("
    case RParen => ")"
    case End => ""
  }

  /** A literal the scanner would take whole: digits, or digits over digits. */
  predicate NumberLike(text: string) {
    text != [] && IsDigit(text[0]) && NumberRun(text) == |text|
  }

  ghost predicate PlainToken(token: Token) {
    match token
    case Number(text) => NumberLike(text)
    case Cell(cell) => OneBased(cell)
    case End => false
    case _ => true
  }

  ghost predicate PlainTokens(ts: seq<Token>) {
    forall i :: 0 <= i < |ts| ==> PlainToken(ts[i])
  }

  function SpacedText(ts: seq<Token>): string {
    if ts == [] then [] else " " + TokenText(ts[0]) + SpacedText(ts[1..])
  }

  lemma {:induction false} DigitRunConcat(a: string, b: string)
    requires AllDigits(a) && (b != [] ==> !IsDigit(b[0]))
    ensures DigitRun(a + b) == |a|
  {
    if a == [] {
      assert a + b == b;
    } else {
      assert (a + b)[1..] == a[1..] + b;
      DigitRunConcat(a[1..], b);
    }
  }

  lemma NumberRunConcat(a: string, b: string)
    requires NumberLike(a) && (b != [] ==> b[0] == ' ')
    ensures NumberRun(a + b) == |a|
  {
    var k := DigitRun(a);
    assert a[k..] + b == (a + b)[k..];
    DigitRunConcat(a[..k], a[k..] + b);
    assert a[..k] + (a[k..] + b) == a + b;
    if k < |a| {
      assert k + 1 < |a| && a[k] == '/' && IsDigit(a[k + 1]);
      assert a[k + 1..] + b == (a + b)[k + 1..];
      var j := DigitRun(a[k + 1..]);
      assert a[k + 1..][..j] == a[k + 1..];
      DigitRunConcat(a[k + 1..], b);
    }
  }

  lemma CellRunConcat(cell: CellRef, b: string)
    requires OneBased(cell) && (b != [] ==> !IsDigit(b[0]))
    ensures CellText(cell) != [] && IsUpper(CellText(cell)[0])
    ensures CellRun(CellText(cell) + b) == |CellText(cell)|
  {
    var letters, digits := ColumnText(cell.column), NatText(cell.row);
    assert CellText(cell) + b == letters + (digits + b);
    ColumnTextValue(cell.column);
    LetterRunConcat(letters, digits + b);
    assert (letters + (digits + b))[|letters|..] == digits + b;
    DigitRunConcat(digits, b);
    assert letters != [];
    assert CellText(cell)[0] == letters[0];
  }

  /** One plain token is read whole when a space or the end follows it. */
  lemma ScanToken(token: Token, b: string)
    requires PlainToken(token) && (b != [] ==> b[0] == ' ')
    ensures Scan(TokenText(token) + b) == Prepend([token], Scan(b))
  {
    hide Scan, CellText, CellRun, NumberRun;
    var a := TokenText(token);
    assert a != [] by {
      if token.Cell? { CellRunConcat(token.cell, b); }
    }
    var s := a + b;
    assert s[0..] == s && s[|a|..] == b && s[0..|a|] == a;
    assert s[0] == a[0];
    if token.Number? {
      NumberRunConcat(token.text, b);
      ScanStep(s, 0, |a|);
    } else if token.Cell? {
      CellRunConcat(token.cell, b);
      CellTextRoundTrip(token.cell);
      ScanStep(s, 0, |a|);
    } else {
      ScanStep(s, 0, 1);
    }
  }

  /** Tokenizing the spaced text of plain tokens gives those tokens back. */
  lemma {:induction false} ScanSpacedText(ts: seq<Token>)
    requires PlainTokens(ts)
    ensures Scan(SpacedText(ts)) == Success(ts + [End])
  {
    if ts == [] {
      EmptyScan();
      assert ts + [End] == [End];
    } else {
      var rest := SpacedText(ts[1..]);
      ScanSpacedText(ts[1..]);
      assert rest != [] ==> rest[0] == ' ';
      hide Scan, TokenText, PlainToken;
      ScanToken(ts[0], rest);
      SkipSpace(SpacedText(ts), TokenText(ts[0]) + rest);
      assert [ts[0]] + (ts[1..] + [End]) == ts + [End];
    }
  }

  lemma SkipSpace(s: string, rest: string)
    requires s == " " + rest
    ensures Scan(s) == Scan(rest)
  {
    assert s[1..] == rest;
  }

  lemma {:induction false} SpacedTextEnd(ts: seq<Token>)
    requires PlainTokens(ts) && ts != []
    ensures SpacedText(ts) != [] && !IsWhitespace(SpacedText(ts)[|SpacedText(ts)| - 1])
  {
    if |ts| > 1 {
      SpacedTextEnd(ts[1..]);
      assert SpacedText(ts)[|SpacedText(ts)| - 1] == SpacedText(ts[1..])[|SpacedText(ts[1..])| - 1];
    } else {
      assert SpacedText(ts) == " " + TokenText(ts[0]) by {
        assert SpacedText(ts[1..]) == [];
      }
      TokenEnd(ts[0]);
      assert SpacedText(ts)[|SpacedText(ts)| - 1] == TokenText(ts[0])[|TokenText(ts[0])| - 1];
    }
  }

  lemma TokenEnd(token: Token)
    requires PlainToken(token)
    ensures TokenText(token) != [] && !IsWhitespace(TokenText(token)[|TokenText(token)| - 1])
  {
    match token
    case Number(text) => NumberEnd(text);
    case Cell(cell) =>
      assert CellText(cell)[|CellText(cell)| - 1] == NatText(cell.row)[|NatText(cell.row)| - 1];
    case _ =>
  }

  lemma NumberEnd(text: string)
    requires NumberLike(text)
    ensures IsDigit(text[|text| - 1])
  {
    var k := DigitRun(text);
    if k < |text| {
      var rest := text[k + 1..];
      assert rest[..DigitRun(rest)] == rest;
      assert rest[|rest| - 1] == text[|text| - 1];
    } else {
      assert text[..k] == text;
    }
  }

  /** Literals and references that survive being written as text. */
  ghost predicate PlainTree(t: Tree) {
    match t
    case Lit(text) => NumberLike(text)
    case Ref(cell) => OneBased(cell)
    case Neg(inner) => PlainTree(inner)
    case Bin(_, l, r) => PlainTree(l) && PlainTree(r)
    case _ => false
  }

  lemma {:induction false} PrintedTokensPlain(t: Tree, level: nat)
    requires PlainTree(t)
    ensures Printable(t) && Print(t, level) != [] && PlainTokens(Print(t, level))
  {
    match t
    case Neg(inner) => PrintedTokensPlain(inner, 2);
    case Bin(op, l, r) =>
      PrintedTokensPlain(l, Level(op));
      PrintedTokensPlain(r, Level(op) + 1);
    case _ =>
  }

  /** Reading back the spaced text of a printed expression gives the same tree. */
  lemma FormulaTextRoundTrip(t: Tree)
    requires PlainTree(t)
    ensures Printable(t) && FormulaTree("=" + SpacedText(Print(t, 0))) == t
  {
    PrintedTokensPlain(t, 0);
    hide Scan, TokensTree, Print, PlainTree, PlainTokens, FormulaTree;
    var ts := Print(t, 0);
    ScanSpacedText(ts);
    SpacedTextEnd(ts);
    EqualsText(SpacedText(ts));
    ParsePrinted(t);
  }

  lemma EqualsText(body: string)
    requires body != [] && !IsWhitespace(body[|body| - 1]) && Scan(body).Success?
    ensures Terminated(Scan(body).value)
    ensures FormulaTree("=" + body) == TokensTree(Scan(body).value)
  {
    hide Scan, TokensTree;
    ScanTerminated(body);
    var formula := "=" + body;
    assert formula[|formula| - 1] == body[|body| - 1];
    TrimIdentity(formula);
    assert formula[1..] == body;
  }

  /** Digits on both sides of a slash are one number token. */
  lemma DigitsOverDigits(a: string, b: string)
    requires a != [] && b != [] && AllDigits(a) && AllDigits(b)
    ensures NumberLike(a) && NumberLike(b) && NumberLike(a + "/" + b)
  {
    DigitRunConcat(a, []);
    DigitRunConcat(b, []);
    assert a + [] == a && b + [] == b;
    DigitRunConcat(a, "/" + b);
    var t := a + "/" + b;
    assert a + ("/" + b) == t && t[|a| + 1..] == b;
  }

  lemma UnspacedTokens(cell: CellRef, literal: string)
    requires OneBased(cell) && NumberLike(literal)
    ensures Scan(CellText(cell) + "/" + literal) == Success([Cell(cell), Slash, Number(literal), End])
  {
    hide Scan, CellText, CellRun, NumberRun;
    var s := CellText(cell) + "/" + literal;
    var n := |CellText(cell)|;
    CellRunConcat(cell, "/" + literal);
    assert s == CellText(cell) + ("/" + literal);
    CellTextRoundTrip(cell);
    assert s[0..n] == CellText(cell) && s[0..] == s && s[n + 1..] == literal;
    ScanStep(s, 0, n);
    ScanStep(s, n, n + 1);
    ScanToken(Number(literal), []);
    assert TokenText(Number(literal)) + [] == literal;
    EmptyScan();
    assert [Number(literal)] + [End] == [Number(literal), End];
    assert Scan(literal) == Success([Number(literal), End]);
    assert s[n] == '/' && [Slash] + [Number(literal), End] == [Slash, Number(literal), End];
    assert Scan(s[n..]) == Success([Slash, Number(literal), End]);
    assert [Cell(cell)] + [Slash, Number(literal), End] == [Cell(cell), Slash, Number(literal), End];
  }

  lemma EmptyScan()
    ensures Scan([]) == Success([End])
  {
  }

  /**
   Without spaces, `cell/a/b` divides by the literal `a/b`; with spaces it divides twice. The two
   texts therefore name different trees for every cell and every pair of digit runs.
   */
  lemma UnspacedDivision(cell: CellRef, a: string, b: string)
    requires OneBased(cell) && a != [] && b != [] && AllDigits(a) && AllDigits(b)
    ensures FormulaTree("=" + CellText(cell) + "/" + a + "/" + b) == Bin(Div, Ref(cell), Lit(a + "/" + b))
    ensures PlainTree(Bin(Div, Bin(Div, Ref(cell), Lit(a)), Lit(b)))
    ensures FormulaTree("=" + SpacedText([Cell(cell), Slash, Number(a), Slash, Number(b)]))
         == Bin(Div, Bin(Div, Ref(cell), Lit(a)), Lit(b))
    ensures FormulaTree("=" + CellText(cell) + "/" + a + "/" + b)
         != FormulaTree("=" + SpacedText([Cell(cell), Slash, Number(a), Slash, Number(b)]))
  {
    hide FormulaTree, SpacedText;
    DigitsOverDigits(a, b);
    UnspacedTree(cell, a + "/" + b);
    SameText(CellText(cell), a, b);
    var t := Bin(Div, Bin(Div, Ref(cell), Lit(a)), Lit(b));
    assert PlainTree(t.left);
    FormulaTextRoundTrip(t);
    QuotientsPrinted(t);
  }

  lemma SameText(c: string, a: string, b: string)
    ensures "=" + c + "/" + a + "/" + b == "=" + c + "/" + (a + "/" + b)
  {
  }

  lemma QuotientsPrinted(t: Tree)
    requires t.Bin? && t.op == Div && t.right.Lit?
    requires t.left.Bin? && t.left.op == Div && t.left.left.Ref? && t.left.right.Lit?
    ensures Printable(t)
    ensures Print(t, 0)
         == [Cell(t.left.left.cell), Slash, Number(t.left.right.text), Slash, Number(t.right.text)]
  {
    PrintBin(t, 0);
    PrintBin(t.left, 1);
  }

  lemma UnspacedTree(cell: CellRef, literal: string)
    requires OneBased(cell) && NumberLike(literal)
    ensures FormulaTree("=" + CellText(cell) + "/" + literal) == Bin(Div, Ref(cell), Lit(literal))
  {
    var f := "=" + CellText(cell) + "/" + literal;
    var ts := [Cell(cell), Slash, Number(literal), End];
    NumberEnd(literal);
    TrimIdentity(f);
    assert f[1..] == CellText(cell) + "/" + literal;
    UnspacedTokens(cell, literal);
    QuotientTokens(ts);
    hide Scan, TokensTree;
  }

  lemma QuotientTokens(ts: seq<Token>)
    requires |ts| == 4 && ts[0].Cell? && ts[1] == Slash && ts[2].Number? && ts[3] == End
    ensures TokensTree(ts) == Bin(Div, Ref(ts[0].cell), Lit(ts[2].text))
  {
    var t := Bin(Div, Ref(ts[0].cell), Lit(ts[2].text));
    assert ParseFactor(ts, 0) == Parsed(Ref(ts[0].cell), 1, true);
    assert ParseFactor(ts, 2) == Parsed(Lit(ts[2].text), 3, true);
    assert TermTail(ts, 3, t) == Parsed(t, 3, true);
    assert ParseTerm(ts, 0) == Parsed(t, 3, true);
    assert ParseExpr(ts, 0) == Parsed(t, 3, true);
  }
}
