/** Printed formulas written without spaces: when they still read back, and what merged divisions give. */
module UnspacedTexts {
  import opened CellRefs
  import opened Evaluation
  import opened Formulas
  import opened FormulaText
  import opened Rationals
  import opened Text
  import opened Wrappers

  function UnspacedText(ts: seq<Token>): string {
    if ts == [] then [] else TokenText(ts[0]) + UnspacedText(ts[1..])
  }

  predicate IsOperand(token: Token) {
    token.Number? || token.Cell?
  }

  /** A number token without a slash is followed by a slash and a number. */
  predicate SlashMerges(ts: seq<Token>, i: nat) {
    i + 2 < |ts| && ts[i].Number? && '/' !in ts[i].text && ts[i + 1] == Slash && ts[i + 2].Number?
  }

  /** A number directly after an operand. */
  predicate DigitsMerge(ts: seq<Token>, i: nat) {
    i + 1 < |ts| && IsOperand(ts[i]) && ts[i + 1].Number?
  }

  predicate MergesAt(ts: seq<Token>, i: nat) {
    SlashMerges(ts, i) || DigitsMerge(ts, i)
  }

  ghost predicate NothingMerges(ts: seq<Token>) {
    forall i :: 0 <= i < |ts| ==> !MergesAt(ts, i)
  }

  /** The numbers and cells of a token list, in order. */
  function Operands(ts: seq<Token>): seq<Token> {
    if ts == [] then [] else (if IsOperand(ts[0]) then [ts[0]] else []) + Operands(ts[1..])
  }

  lemma {:induction false} OperandsConcat(a: seq<Token>, b: seq<Token>)
    ensures Operands(a + b) == Operands(a) + Operands(b)
  {
    hide IsOperand;
    if a == [] {
      assert a + b == b;
    } else {
      assert (a + b)[1..] == a[1..] + b;
      OperandsConcat(a[1..], b);
    }
  }

  // ---------------------------------------------------------------- runs over joined texts

  lemma {:induction false} DigitRunAppend(a: string, b: string)
    requires AllDigits(a)
    ensures DigitRun(a + b) == |a| + DigitRun(b)
  {
    if a == [] {
      assert a + b == b;
    } else {
      assert (a + b)[1..] == a[1..] + b;
      DigitRunAppend(a[1..], b);
    }
  }

  /** What a number token runs to when `b` follows it at once. */
  lemma NumberRunJoined(a: string, b: string)
    requires NumberLike(a)
    ensures NumberRun(a + b) > |a| <==>
              b != [] && (IsDigit(b[0]) || ('/' !in a && |b| > 1 && b[0] == '/' && IsDigit(b[1])))
    ensures NumberRun(a + b) >= |a|
  {
    var k := DigitRun(a);
    if k < |a| {
      assert a[k] == '/';
      FractionRunJoined(a, k, b);
    } else {
      assert a[..k] == a;
      DigitsRunJoined(a, b);
    }
  }

  /** A literal that already has its slash runs on into digits only. */
  lemma FractionRunJoined(a: string, k: nat, b: string)
    requires NumberLike(a) && k == DigitRun(a) < |a|
    ensures NumberRun(a + b) == |a| + DigitRun(b)
  {
    hide NumberRun, DigitRun, NumberLike;
    FractionParts(a, k);
    var whole, rest := a[..k], a[k + 1..];
    SlashRun(whole, rest, b);
    assert a == whole + ("/" + rest);
    JoinThree(whole, rest, b);
  }

  lemma JoinThree(whole: string, rest: string, b: string)
    ensures whole + ("/" + rest) + b == whole + ("/" + (rest + b))
  {
  }

  lemma FractionParts(a: string, k: nat)
    requires NumberLike(a) && k == DigitRun(a) < |a|
    ensures a[k] == '/' && k + 1 < |a| && AllDigits(a[..k]) && AllDigits(a[k + 1..])
  {
    hide DigitRun;
    var rest := a[k + 1..];
    assert NumberRun(a) == |a|;
    assert DigitRun(rest) == |rest|;
    assert rest[..DigitRun(rest)] == rest;
  }

  lemma SlashRun(whole: string, rest: string, b: string)
    requires AllDigits(whole) && AllDigits(rest) && rest != []
    ensures NumberRun(whole + ("/" + (rest + b))) == |whole| + 1 + |rest| + DigitRun(b)
  {
    var tail := "/" + (rest + b);
    var s := whole + tail;
    DigitRunAppend(whole, tail);
    assert DigitRun(tail) == 0;
    DigitRunAppend(rest, b);
    hide DigitRun;
    assert s[|whole|] == '/' && s[|whole| + 1] == rest[0];
    assert tail[1..] == rest + b && s[|whole| + 1..] == tail[1..];
  }

  /** Plain digits run on into digits, and over a slash that a digit follows. */
  lemma DigitsRunJoined(a: string, b: string)
    requires AllDigits(a)
    ensures NumberRun(a + b) > |a| <==> b != [] && (IsDigit(b[0]) || (|b| > 1 && b[0] == '/' && IsDigit(b[1])))
    ensures NumberRun(a + b) >= |a|
    ensures '/' !in a
  {
    DigitRunAppend(a, b);
    var s := a + b;
    assert s[|a|..] == b;
    assert |b| > 0 ==> s[|a|] == b[0];
    assert |b| > 1 ==> s[|a| + 1] == b[1];
  }

  /** A cell token runs on exactly into digits. */
  lemma CellRunJoined(cell: CellRef, b: string)
    requires OneBased(cell)
    ensures CellRun(CellText(cell) + b) == |CellText(cell)| + DigitRun(b)
    ensures CellText(cell) != [] && IsUpper(CellText(cell)[0])
  {
    var letters, digits := ColumnText(cell.column), NatText(cell.row);
    assert CellText(cell) + b == letters + (digits + b);
    ColumnTextValue(cell.column);
    assert IsDigit(digits[0]);
    LetterRunConcat(letters, digits + b);
    assert (letters + (digits + b))[|letters|..] == digits + b;
    DigitRunAppend(digits, b);
    assert letters != [];
    assert CellText(cell)[0] == letters[0];
  }

  /** More digits name another cell, if any. */
  lemma LongerCellDiffers(cell: CellRef, more: string)
    requires OneBased(cell) && more != [] && AllDigits(more)
    ensures ParseCell(CellText(cell) + more) != Some(cell)
  {
    hide DigitsValue, LettersValue, Trim;
    var letters, digits := ColumnText(cell.column), NatText(cell.row);
    var t := CellText(cell) + more;
    var row := digits + more;
    assert t == letters + row;
    ColumnTextValue(cell.column);
    NatTextValue(cell.row);
    assert letters != [] && t[0] == letters[0] && IsLetter(letters[0]) && t[|t| - 1] == more[|more| - 1];
    TrimIdentity(t);
    assert IsDigit(row[0]);
    LetterRunConcat(letters, row);
    assert t[..|letters|] == letters && t[|letters|..] == row;
    DigitsValueConcat(digits, more);
    MoreDigitsMore(cell.row, |more|, DigitsValue(more));
  }

  lemma MoreDigitsMore(row: nat, n: nat, v: nat)
    requires row > 0 && n > 0
    ensures row * Pow10(n) + v > row
  {
    Pow10Positive(n - 1);
    assert Pow10(n) >= 10;
    assert row * Pow10(n) >= row * 10 by { Scales(row, Pow10(n)); }
  }

  lemma Scales(row: nat, p: nat)
    requires p >= 10
    ensures row * p >= row * 10
  {
  }

  // ---------------------------------------------------------------- first characters

  lemma FirstCharacter(token: Token)
    requires PlainToken(token)
    ensures var s := TokenText(token);
            && s != [] && !IsAsciiWhitespace(s[0])
            && (IsDigit(s[0]) <==> token.Number?)
            && (s[0] == '/' <==> token == Slash)
            && (token == Slash ==> |s| == 1)
            && (IsLetter(s[0]) <==> token.Cell?)
            && (OperatorToken(s[0]) == if IsOperand(token) then None else Some(token))
  {
    if token.Cell? {
      CellRunJoined(token.cell, []);
    }
  }

  /** What follows a token shows in the first two characters after it. */
  lemma FollowingCharacters(ts: seq<Token>)
    requires PlainTokens(ts)
    ensures var b := UnspacedText(ts);
            && (b != [] && IsDigit(b[0]) <==> ts != [] && ts[0].Number?)
            && (|b| > 1 && b[0] == '/' && IsDigit(b[1]) <==> |ts| > 1 && ts[0] == Slash && ts[1].Number?)
  {
    hide TokenText, PlainToken;
    if ts != [] {
      FirstCharacter(ts[0]);
      var s := TokenText(ts[0]);
      if |ts| > 1 {
        FirstCharacter(ts[1]);
        assert UnspacedText(ts) == s + (TokenText(ts[1]) + UnspacedText(ts[1..][1..]));
      } else {
        assert UnspacedText(ts[1..]) == [];
        assert UnspacedText(ts) == s;
      }
    }
  }

  // ---------------------------------------------------------------- scanning joined tokens

  /** How far the scanner runs over the first token when `b` follows it at once. */
  function RunOver(token: Token, b: string): nat {
    match token
    case Number(text) => NumberRun(text + b)
    case Cell(cell) => CellRun(CellText(cell) + b)
    case _ => 1
  }

  /** A token the scanner does not run past is read whole. */
  lemma ScanWhole(token: Token, b: string)
    requires PlainToken(token) && RunOver(token, b) == |TokenText(token)|
    ensures Scan(TokenText(token) + b) == Prepend([token], Scan(b))
  {
    hide Scan, CellText, CellRun, NumberRun;
    FirstCharacter(token);
    var a := TokenText(token);
    var s := a + b;
    assert s[0..] == s && s[|a|..] == b && s[0..|a|] == a && s[0] == a[0];
    if token.Cell? {
      CellTextRoundTrip(token.cell);
    }
    ScanStep(s, 0, |a|);
  }

  /** A token the scanner runs past is not the first operand read, if anything is. */
  lemma ScanPast(token: Token, b: string)
    requires PlainToken(token) && IsOperand(token) && RunOver(token, b) > |TokenText(token)|
    ensures var r := Scan(TokenText(token) + b);
            r.Success? ==> Operands(r.value) != [] && Operands(r.value)[0] != token
  {
    hide Scan, CellText, CellRun, NumberRun, ParseCell;
    FirstCharacter(token);
    var a := TokenText(token);
    var s := a + b;
    var k := RunOver(token, b);
    assert s[0..] == s && s[0] == a[0];
    assert k <= |s| by { RunInside(token, b); }
    ScanStep(s, 0, k);
    if token.Cell? {
      CellRunJoined(token.cell, b);
      assert s[0..k] == a + b[..k - |a|];
      LongerCellDiffers(token.cell, b[..k - |a|]);
    } else {
      assert |s[0..k]| == k;
    }
  }

  lemma RunInside(token: Token, b: string)
    requires PlainToken(token) && IsOperand(token)
    ensures RunOver(token, b) <= |TokenText(token) + b|
  {
  }

  lemma RunOverIff(ts: seq<Token>)
    requires ts != [] && PlainTokens(ts)
    ensures var past := RunOver(ts[0], UnspacedText(ts[1..])) > |TokenText(ts[0])|;
            past <==> MergesAt(ts, 0)
    ensures RunOver(ts[0], UnspacedText(ts[1..])) >= |TokenText(ts[0])|
  {
    hide NumberRun, CellRun, CellText, DigitRun;
    var b := UnspacedText(ts[1..]);
    FollowingCharacters(ts[1..]);
    match ts[0] {
      case Number(text) => NumberRunJoined(text, b);
      case Cell(cell) =>
        CellRunJoined(cell, b);
      case _ =>
    }
  }

  lemma MergesTail(ts: seq<Token>)
    requires ts != []
    ensures NothingMerges(ts) <==> !MergesAt(ts, 0) && NothingMerges(ts[1..])
  {
    assert forall i :: 0 <= i < |ts| - 1 ==> (MergesAt(ts[1..], i) <==> MergesAt(ts, i + 1));
    if !MergesAt(ts, 0) && NothingMerges(ts[1..]) {
      forall i | 0 <= i < |ts|
        ensures !MergesAt(ts, i)
      {
        if i > 0 {
          assert !MergesAt(ts[1..], i - 1);
        }
      }
    }
  }

  /** Either every token is read back, or the operands that are read differ. */
  lemma {:induction false} ScanUnspaced(ts: seq<Token>)
    requires PlainTokens(ts)
    ensures NothingMerges(ts) ==> Scan(UnspacedText(ts)) == Success(ts + [End])
    ensures !NothingMerges(ts) && Scan(UnspacedText(ts)).Success? ==>
              Operands(Scan(UnspacedText(ts)).value) != Operands(ts)
  {
    hide Scan, TokenText, PlainToken, RunOver, MergesAt;
    if ts == [] {
      EmptyScan();
      assert ts + [End] == [End];
    } else {
      var rest := UnspacedText(ts[1..]);
      MergesTail(ts);
      RunOverIff(ts);
      if MergesAt(ts, 0) {
        MergesOperand(ts);
        ScanPast(ts[0], rest);
      } else {
        ScanWhole(ts[0], rest);
        ScanUnspaced(ts[1..]);
        assert [ts[0]] + (ts[1..] + [End]) == ts + [End];
        if Scan(rest).Success? {
          OperandsConcat([ts[0]], Scan(rest).value);
          OperandsConcat([ts[0]], ts[1..]);
          assert [ts[0]] + ts[1..] == ts;
          SameTail(Operands([ts[0]]), Operands(Scan(rest).value), Operands(ts[1..]));
        }
      }
    }
  }

  lemma SameTail(a: seq<Token>, b: seq<Token>, c: seq<Token>)
    ensures a + b == a + c ==> b == c
  {
    assert (a + b)[|a|..] == b && (a + c)[|a|..] == c;
  }

  lemma MergesOperand(ts: seq<Token>)
    requires MergesAt(ts, 0)
    ensures IsOperand(ts[0]) && Operands(ts) != [] && Operands(ts)[0] == ts[0]
  {
  }

  /** Plain tokens written without spaces are read back exactly when nothing merges. */
  lemma UnspacedTokensIff(ts: seq<Token>)
    requires PlainTokens(ts)
    ensures Scan(UnspacedText(ts)) == Success(ts + [End]) <==> NothingMerges(ts)
  {
    hide Scan, NothingMerges, UnspacedText;
    ScanUnspaced(ts);
    OperandsConcat(ts, [End]);
    assert Operands([End]) == [];
  }

  // ---------------------------------------------------------------- printed expressions

  /** A number without a slash over a number somewhere. */
  ghost predicate DividesLiterals(ts: seq<Token>) {
    exists i :: 0 <= i < |ts| && SlashMerges(ts, i)
  }

  /** No operand is followed by an operand. */
  ghost predicate Separated(ts: seq<Token>) {
    forall i :: 0 <= i < |ts| - 1 ==> !(IsOperand(ts[i]) && IsOperand(ts[i + 1]))
  }

  lemma SeparatedJoin(a: seq<Token>, op: Token, b: seq<Token>)
    requires Separated(a) && Separated(b) && !IsOperand(op)
    ensures Separated(a + [op] + b)
  {
    var s := a + [op] + b;
    forall i | 0 <= i < |s| - 1
      ensures !(IsOperand(s[i]) && IsOperand(s[i + 1]))
    {
      if i + 1 < |a| {
        assert s[i] == a[i] && s[i + 1] == a[i + 1];
      } else if i > |a| {
        assert s[i] == b[i - |a| - 1] && s[i + 1] == b[i - |a|];
      }
    }
  }

  /** In a printed expression no two operands touch. */
  lemma {:induction false} PrintedSeparated(t: Tree, level: nat)
    requires Printable(t)
    ensures Separated(Print(t, level))
    decreases t
  {
    hide Separated;
    SeparatedFew();
    match t {
      case Neg(inner) =>
        PrintedSeparated(inner, 2);
        SeparatedJoin([], Minus, Print(inner, 2));
        assert [] + [Minus] + Print(inner, 2) == Print(t, level);
      case Bin(op, l, r) =>
        PrintedSeparated(l, Level(op));
        PrintedSeparated(r, Level(op) + 1);
        SeparatedBody(Print(l, Level(op)), op, Print(r, Level(op) + 1));
      case _ =>
    }
  }

  lemma SeparatedBody(a: seq<Token>, op: Op, b: seq<Token>)
    requires Separated(a) && Separated(b)
    ensures var body := a + [OpToken(op)] + b;
            Separated(body) && Separated([LParen] + body + [RParen])
  {
    hide Separated;
    SeparatedFew();
    SeparatedJoin(a, OpToken(op), b);
    var body := a + [OpToken(op)] + b;
    SeparatedJoin([], LParen, body);
    SeparatedJoin([] + [LParen] + body, RParen, []);
    assert [] + [LParen] + body + [RParen] + [] == [LParen] + body + [RParen];
  }

  lemma SeparatedFew()
    ensures Separated([]) && forall token :: Separated([token])
  {
  }

  lemma SeparatedMergesIff(ts: seq<Token>)
    requires Separated(ts)
    ensures NothingMerges(ts) <==> !DividesLiterals(ts)
  {
    forall i | 0 <= i < |ts|
      ensures MergesAt(ts, i) <==> SlashMerges(ts, i)
    {
      if DigitsMerge(ts, i) {
        assert IsOperand(ts[i]) && IsOperand(ts[i + 1]);
      }
    }
  }

  /** The numbers and cells of a tree, left to right. */
  function Leaves(t: Tree): seq<Token> {
    match t
    case Lit(text) => [Number(text)]
    case Ref(cell) => [Cell(cell)]
    case Neg(inner) => Leaves(inner)
    case Bin(_, l, r) => Leaves(l) + Leaves(r)
    case _ => []
  }

  lemma OperandsOne(token: Token)
    ensures Operands([token]) == if IsOperand(token) then [token] else []
  {
    assert [token][1..] == [];
  }

  lemma {:induction false} PrintedLeaves(t: Tree, level: nat)
    requires Printable(t)
    ensures Operands(Print(t, level)) == Leaves(t)
    decreases t
  {
    hide Operands;
    match t {
      case Lit(text) => OperandsOne(Number(text));
      case Ref(cell) => OperandsOne(Cell(cell));
      case Neg(inner) =>
        PrintedLeaves(inner, 2);
        OperandsOne(Minus);
        OperandsConcat([Minus], Print(inner, 2));
      case Bin(op, l, r) =>
        var a, b := Print(l, Level(op)), Print(r, Level(op) + 1);
        PrintedLeaves(l, Level(op));
        PrintedLeaves(r, Level(op) + 1);
        OperandsOne(OpToken(op));
        OperandsOne(LParen);
        OperandsOne(RParen);
        OperandsConcat(a, [OpToken(op)]);
        OperandsConcat(a + [OpToken(op)], b);
        var body := a + [OpToken(op)] + b;
        OperandsConcat([LParen], body);
        OperandsConcat([LParen] + body, [RParen]);
      case _ =>
    }
  }

  // ---------------------------------------------------------------- what a parse keeps

  /** The tree holds a syntax error. */
  predicate Faulty(t: Tree) {
    match t
    case Bad(_) => true
    case Guard(_, _) => true
    case Neg(inner) => Faulty(inner)
    case Bin(_, l, r) => Faulty(l) || Faulty(r)
    case _ => false
  }

  /** A rule that succeeds keeps the operands it consumed, in order; one that fails leaves a fault. */
  ghost predicate Keeps(ts: seq<Token>, pos: nat, before: seq<Token>, p: Parsed) {
    && pos <= p.pos <= |ts|
    && (p.ok ==> Leaves(p.tree) == before + Operands(ts[pos..p.pos]))
    && (!p.ok ==> Faulty(p.tree))
  }

  lemma OperandsSlice(ts: seq<Token>, a: nat, b: nat, c: nat)
    requires a <= b <= c <= |ts|
    ensures Operands(ts[a..c]) == Operands(ts[a..b]) + Operands(ts[b..c])
  {
    OperandsConcat(ts[a..b], ts[b..c]);
    assert ts[a..b] + ts[b..c] == ts[a..c];
  }

  lemma OperandsAtOne(ts: seq<Token>, i: nat)
    requires i < |ts|
    ensures Operands(ts[i..i + 1]) == if IsOperand(ts[i]) then [ts[i]] else []
  {
    OperandsOne(ts[i]);
    assert ts[i..i + 1] == [ts[i]];
  }

  lemma {:induction false} FactorKeeps(ts: seq<Token>, pos: nat)
    requires Terminated(ts) && pos < |ts|
    ensures Keeps(ts, pos, [], ParseFactor(ts, pos))
    decreases |ts| - pos, 0
  {
    hide Operands, ParseExpr;
    OperandsAtOne(ts, pos);
    var p := ParseFactor(ts, pos);
    match ts[pos] {
      case Minus =>
        FactorKeeps(ts, pos + 1);
        OperandsSlice(ts, pos, pos + 1, p.pos);
      case LParen =>
        ExprKeeps(ts, pos + 1);
        var inner := ParseExpr(ts, pos + 1);
        if p.ok {
          OperandsSlice(ts, pos, pos + 1, inner.pos);
          OperandsSlice(ts, pos, inner.pos, p.pos);
          OperandsAtOne(ts, inner.pos);
        }
      case _ =>
    }
  }

  lemma {:induction false} TermKeeps(ts: seq<Token>, pos: nat)
    requires Terminated(ts) && pos < |ts|
    ensures Keeps(ts, pos, [], ParseTerm(ts, pos))
    decreases |ts| - pos, 1
  {
    hide Operands, ParseFactor, TermTail, Leaves, Faulty;
    FactorKeeps(ts, pos);
    var left := ParseFactor(ts, pos);
    if left.ok {
      TermTailKeeps(ts, left.pos, left.tree);
      OperandsSlice(ts, pos, left.pos, TermTail(ts, left.pos, left.tree).pos);
    }
  }

  lemma {:induction false} ExprKeeps(ts: seq<Token>, pos: nat)
    requires Terminated(ts) && pos < |ts|
    ensures Keeps(ts, pos, [], ParseExpr(ts, pos))
    decreases |ts| - pos, 2
  {
    hide Operands, ParseTerm, ExprTail, Leaves, Faulty;
    TermKeeps(ts, pos);
    var left := ParseTerm(ts, pos);
    if left.ok {
      ExprTailKeeps(ts, left.pos, left.tree);
      OperandsSlice(ts, pos, left.pos, ExprTail(ts, left.pos, left.tree).pos);
    }
  }

  lemma {:induction false} TermTailKeeps(ts: seq<Token>, pos: nat, left: Tree)
    requires Terminated(ts) && pos < |ts|
    ensures Keeps(ts, pos, Leaves(left), TermTail(ts, pos, left))
    decreases |ts| - pos, 1
  {
    hide ParseFactor, Operands, Leaves, Faulty;
    if ProductOp(ts[pos]).Some? {
      FactorKeeps(ts, pos + 1);
      OperandsAtOne(ts, pos);
      var right := ParseFactor(ts, pos + 1);
      var tree := Bin(ProductOp(ts[pos]).value, left, right.tree);
      LeavesOfBin(tree);
      if right.ok {
        TermTailKeeps(ts, right.pos, tree);
        OperandsSlice(ts, pos, pos + 1, right.pos);
        OperandsSlice(ts, pos, right.pos, TermTail(ts, pos, left).pos);
      }
    } else {
      NoOperands(ts, pos);
    }
  }

  lemma {:induction false} ExprTailKeeps(ts: seq<Token>, pos: nat, left: Tree)
    requires Terminated(ts) && pos < |ts|
    ensures Keeps(ts, pos, Leaves(left), ExprTail(ts, pos, left))
    decreases |ts| - pos, 2
  {
    hide ParseTerm, Operands, Leaves, Faulty;
    if SumOp(ts[pos]).Some? {
      TermKeeps(ts, pos + 1);
      OperandsAtOne(ts, pos);
      var right := ParseTerm(ts, pos + 1);
      var tree := Bin(SumOp(ts[pos]).value, left, right.tree);
      LeavesOfBin(tree);
      if right.ok {
        ExprTailKeeps(ts, right.pos, tree);
        OperandsSlice(ts, pos, pos + 1, right.pos);
        OperandsSlice(ts, pos, right.pos, ExprTail(ts, pos, left).pos);
      }
    } else {
      NoOperands(ts, pos);
    }
  }

  lemma LeavesOfBin(t: Tree)
    requires t.Bin?
    ensures Leaves(t) == Leaves(t.left) + Leaves(t.right)
    ensures Faulty(t) <==> Faulty(t.left) || Faulty(t.right)
  {
  }

  lemma NoOperands(ts: seq<Token>, pos: nat)
    requires pos <= |ts|
    ensures Operands(ts[pos..pos]) == []
  {
  }

  /** A tree without faults holds exactly the operands of its token list. */
  lemma TokensTreeLeaves(ts: seq<Token>)
    requires Terminated(ts)
    ensures Faulty(TokensTree(ts)) || Leaves(TokensTree(ts)) == Operands(ts)
  {
    hide ParseExpr, Operands;
    ExprKeeps(ts, 0);
    var p := ParseExpr(ts, 0);
    if p.ok && ts[p.pos] == End {
      assert p.pos == |ts| - 1;
      OperandsSlice(ts, 0, p.pos, |ts|);
      OperandsAtOne(ts, p.pos);
      assert ts[0..|ts|] == ts && ts[p.pos..p.pos + 1] == ts[p.pos..|ts|];
    }
  }

  lemma {:induction false} PlainIsFaultless(t: Tree)
    requires PlainTree(t)
    ensures !Faulty(t)
  {
    match t {
      case Neg(inner) => PlainIsFaultless(inner);
      case Bin(_, l, r) =>
        PlainIsFaultless(l);
        PlainIsFaultless(r);
      case _ =>
    }
  }

  /**
   An expression printed without spaces reads back, as tokens and as a tree, exactly when it never
   divides one slash-free literal by another.
   */
  lemma UnspacedPrintedIff(t: Tree)
    requires PlainTree(t)
    ensures Printable(t)
    ensures var ts := Print(t, 0);
            && (Scan(UnspacedText(ts)) == Success(ts + [End]) <==> !DividesLiterals(ts))
            && (FormulaTree("=" + UnspacedText(ts)) == t <==> !DividesLiterals(ts))
  {
    hide Scan, TokensTree, FormulaTree, Print, UnspacedText, PlainTokens, NothingMerges, DividesLiterals, Terminated;
    PrintedTokensPlain(t, 0);
    var ts := Print(t, 0);
    PrintedSeparated(t, 0);
    SeparatedMergesIff(ts);
    UnspacedTokensIff(ts);
    ScanUnspaced(ts);
    PrintedLeaves(t, 0);
    PlainIsFaultless(t);
    UnspacedEnd(ts);
    UnspacedFormula(UnspacedText(ts));
    if Scan(UnspacedText(ts)).Success? {
      TokensTreeLeaves(Scan(UnspacedText(ts)).value);
    }
    ParsePrinted(t);
  }

  lemma {:induction false} UnspacedEnd(ts: seq<Token>)
    requires PlainTokens(ts) && ts != []
    ensures UnspacedText(ts) != [] && !IsWhitespace(UnspacedText(ts)[|UnspacedText(ts)| - 1])
  {
    hide TokenText, PlainToken;
    TokenEnd(ts[0]);
    if |ts| > 1 {
      UnspacedEnd(ts[1..]);
      assert UnspacedText(ts)[|UnspacedText(ts)| - 1] == UnspacedText(ts[1..])[|UnspacedText(ts[1..])| - 1];
    } else {
      assert UnspacedText(ts[1..]) == [];
      assert UnspacedText(ts) == TokenText(ts[0]);
    }
  }

  /** The tree of a body without white space at its end. */
  lemma UnspacedFormula(body: string)
    requires body != [] && !IsWhitespace(body[|body| - 1])
    ensures Scan(body).Success? ==> Terminated(Scan(body).value)
    ensures FormulaTree("=" + body) ==
            if Scan(body).Success? then TokensTree(Scan(body).value) else Bad(Scan(body).error)
  {
    hide Scan, TokensTree, Terminated;
    ScanTerminated(body);
    var formula := "=" + body;
    assert formula[|formula| - 1] == body[|body| - 1];
    TrimIdentity(formula);
    assert formula[1..] == body;
  }

  // ---------------------------------------------------------------- the two readings of a quotient

  /** `cell/a/b` without spaces. */
  function MergedQuotient(cell: CellRef, a: string, b: string): Tree {
    Bin(Div, Ref(cell), Lit(a + "/" + b))
  }

  /** `cell / a / b` with spaces. */
  function DoubleQuotient(cell: CellRef, a: string, b: string): Tree {
    Bin(Div, Bin(Div, Ref(cell), Lit(a)), Lit(b))
  }

  predicate Digits(s: string) {
    s != [] && AllDigits(s)
  }

  lemma DigitsParse(s: string)
    requires Digits(s)
    ensures ParseInt(s) == Some(DigitsValue(s)) && '/' !in s && Trim(s) == s
  {
    assert IsDigit(s[0]) && IsDigit(s[|s| - 1]);
    TrimIdentity(s);
    assert forall i :: 0 <= i < |s| ==> IsDigit(s[i]);
  }

  lemma WholeLiteral(a: string)
    requires Digits(a)
    ensures ParseLiteral(a) == Ok(Reduce(DigitsValue(a), 1))
  {
    hide DigitsValue, Trim, ParseInt, ParseRational, Reduce;
    DigitsParse(a);
    OneDigit();
    ParseFraction(a, "1");
    assert a + "/" + "1" == a + "/1";
  }

  lemma OneDigit()
    ensures ParseInt("1") == Some(1)
  {
    assert "1"[..0] == [];
    assert DigitsValue("1") == 1;
  }

  lemma FractionLiteral(a: string, b: string)
    requires Digits(a) && Digits(b)
    ensures ParseLiteral(a + "/" + b) ==
            if DigitsValue(b) == 0 then Fail(InvalidRational(a + "/" + b))
            else Ok(Reduce(DigitsValue(a), DigitsValue(b)))
  {
    hide DigitsValue, Trim, ParseInt, ParseRational, Reduce;
    DigitsParse(a);
    DigitsParse(b);
    ParseFraction(a, b);
    var t := a + "/" + b;
    assert t[0] == a[0] && IsDigit(a[0]) && t[|t| - 1] == b[|b| - 1] && IsDigit(b[|b| - 1]);
    TrimIdentity(t);
    assert t[|a|] == '/';
  }

  lemma RatioZeroIff(n: int, d: int)
    requires d != 0
    ensures Ratio(n, d) == 0.0 <==> n == 0
  {
    var x := Ratio(n, d);
    assert x * (d as real) == n as real;
  }

  /** Dividing exact numbers: a zero divisor fails, any other gives the exact quotient. */
  lemma DivideExact(x: Rational, y: Rational)
    requires Canonical(x) && Canonical(y)
    ensures Denote(y) == 0.0 <==> y.num == 0
    ensures Denote(y) == 0.0 ==> Apply(Div, x, y) == Fail(DivisionByZero)
    ensures Denote(y) != 0.0 ==>
              var o := Apply(Div, x, y);
              o.Ok? && Canonical(o.value) && Denote(o.value) == Denote(x) / Denote(y)
  {
    hide MakeNumber;
    RatioZeroIff(y.num, y.den);
    ApplyMeaning(Div, x, y);
  }

  lemma SameNumberIff(p: Rational, q: Rational)
    requires Canonical(p) && Canonical(q)
    ensures p == q <==> Denote(p) == Denote(q)
  {
    if Denote(p) == Denote(q) {
      CanonicalUnique(p, q);
    }
  }

  lemma QuotientsEqualIff(x: real, a: real, b: real)
    requires a > 0.0 && b > 0.0
    ensures a / b != 0.0
    ensures x / (a / b) == (x / a) / b <==> x == 0.0 || b == 1.0
  {
    var y := x / a;
    assert y * a == x;
    var z := y / b;
    assert z * b == y;
    if y * b == z {
      SquareOne(y, z, b);
    }
  }

  lemma Reassociate(y: real, b: real)
    ensures (y * b) * b == y * (b * b)
  {
  }

  lemma SquareOne(y: real, z: real, b: real)
    requires b > 0.0 && z * b == y && y * b == z
    ensures y == 0.0 || b == 1.0
  {
    Reassociate(y, b);
    assert z * b == y * (b * b);
    Distribute(b * b, 1.0, y);
    assert y * (b * b - 1.0) == 0.0;
    assert b * b - 1.0 == (b - 1.0) * (b + 1.0);
    if y != 0.0 && b != 1.0 {
      RealProductNonZero(b - 1.0, b + 1.0);
      RealProductNonZero(y, b * b - 1.0);
    }
  }

  /** Divisors and dividend that make the two readings agree. */
  predicate ReadingsAgree(x: Outcome, a: nat, b: nat) {
    x.Ok? ==> b != 0 && (a == 0 || x.value.num == 0 || b == 1)
  }

  /** The outcomes of the two readings when the cell answers a number. */
  lemma NumberReadings(q: Rational, a: nat, b: nat)
    requires Canonical(q) && b != 0
    ensures var la, lb, lab := Reduce(a, 1), Reduce(b, 1), Reduce(a, b);
            var once := Apply(Div, q, lab);
            var first := Apply(Div, q, la);
            var twice := if first.Ok? then Apply(Div, first.value, lb) else first;
            once == twice <==> ReadingsAgree(Ok(q), a, b)
  {
    hide Apply, Reduce, Canonical, Ratio;
    var la, lb, lab := Reduce(a, 1), Reduce(b, 1), Reduce(a, b);
    ReduceDenotes(a, 1);
    ReduceDenotes(b, 1);
    ReduceDenotes(a, b);
    RatioZeroIff(a, 1);
    RatioZeroIff(b, 1);
    RatioZeroIff(a, b);
    DivideExact(q, lab);
    DivideExact(q, la);
    if a != 0 {
      var once, first := Apply(Div, q, lab).value, Apply(Div, q, la).value;
      DivideExact(first, lb);
      var twice := Apply(Div, first, lb).value;
      SameNumberIff(once, twice);
      Ratios(a, b);
      CanonicalHasMeaning(q);
      QuotientsEqualIff(Denote(q), a as real, b as real);
      NumeratorZeroIff(q);
    }
  }

  lemma Ratios(a: nat, b: nat)
    requires b != 0
    ensures Ratio(a, 1) == a as real && Ratio(b, 1) == b as real && Ratio(a, b) == a as real / b as real
  {
  }

  lemma NumeratorZeroIff(q: Rational)
    requires Canonical(q)
    ensures Denote(q) == 0.0 <==> q.num == 0
  {
    RatioZeroIff(q.num, q.den);
  }

  /**
   The two readings of `cell/a/b` come to the same outcome exactly when the cell answers no number,
   or `b` is not zero and `a` is zero, the cell is zero, or `b` is one.
   */
  lemma QuotientReadingsAgreeIff(cell: CellRef, a: string, b: string, replies: Replies)
    requires Digits(a) && Digits(b) && CanonicalOutcome(Reply(replies, cell))
    ensures EvalTree(MergedQuotient(cell, a, b), replies).outcome ==
            EvalTree(DoubleQuotient(cell, a, b), replies).outcome
            <==> ReadingsAgree(Reply(replies, cell), DigitsValue(a), DigitsValue(b))
  {
    hide ParseLiteral, DigitsValue, Apply, Reduce, Reply, Canonical;
    WholeLiteral(a);
    WholeLiteral(b);
    FractionLiteral(a, b);
    var x := Reply(replies, cell);
    assert EvalTree(Ref(cell), replies).outcome == x;
    assert EvalTree(Bin(Div, Ref(cell), Lit(a)), replies).outcome ==
           if x.Ok? then Apply(Div, x.value, Reduce(DigitsValue(a), 1)) else x;
    if x.Ok? {
      if DigitsValue(b) == 0 {
        ZeroDivisor(x.value, DigitsValue(a));
      } else {
        NumberReadings(x.value, DigitsValue(a), DigitsValue(b));
      }
    }
  }

  /** Dividing by a literal zero at the end always fails as a division by zero. */
  lemma ZeroDivisor(q: Rational, a: nat)
    requires Canonical(q)
    ensures var first := Apply(Div, q, Reduce(a, 1));
            (if first.Ok? then Apply(Div, first.value, Reduce(0, 1)) else first) == Fail(DivisionByZero)
  {
    hide Apply, Reduce, Canonical, Ratio;
    ReduceDenotes(a, 1);
    ReduceDenotes(0, 1);
    RatioZeroIff(a, 1);
    RatioZeroIff(0, 1);
    DivideExact(q, Reduce(a, 1));
    if a != 0 {
      DivideExact(Apply(Div, q, Reduce(a, 1)).value, Reduce(0, 1));
    }
  }
}
