/** What reading each kind of cell answers, from the value in the sheet to the answer of a formula. */
module SheetReadings {
  import opened CellRefs
  import opened Engine
  import opened Evaluation
  import opened Formulas
  import opened FormulaText
  import opened Rationals
  import opened Sheets
  import opened Wrappers

  /** A sheet is taken in exactly when every number in it has a denominator. */
  lemma ConvertibleIff(cells: Cells)
    ensures Convertible(cells) <==> forall c :: c in cells && cells[c].Number? ==> cells[c].value.den != 0
  {
    forall c | c in cells
      ensures ToContent(cells[c]).Success? <==> (cells[c].Number? ==> cells[c].value.den != 0)
    {
    }
  }

  /** A number cell answers the number in the sheet, in lowest terms. */
  lemma NumberCellReads(cells: Cells, cell: CellRef, stack: seq<Key>)
    requires Convertible(cells) && CellKey(cell) !in stack && CellAt(cells, cell).Number?
    ensures var q := CellAt(cells, cell).value;
            var answer := FreshCell(Snapshot(cells), cell, stack);
            && q.den != 0
            && CanonicalOutcome(answer)
            && OutcomeMeaning(answer) == Some(Ratio(q.num, q.den))
            && answer == Ok(Reduce(q.num, q.den))
  {
    hide Reduce;
    var q := CellAt(cells, cell).value;
    assert ToContent(cells[cell]).Success?;
    ReduceDenotes(q.num, q.den);
    var src := Snapshot(cells);
    assert src[cell] == NumberCell(Reduce(q.num, q.den));
    UnvisitedShrinks(src, stack, cell);
  }

  /** Texts, truth values, blanks and absent cells are not numbers. */
  lemma OtherCellReads(cells: Cells, cell: CellRef, stack: seq<Key>)
    requires Convertible(cells) && CellKey(cell) !in stack
    requires !CellAt(cells, cell).Number? && !CellAt(cells, cell).Formula?
    ensures FreshCell(Snapshot(cells), cell, stack) == Fail(NonNumericCell(cell))
  {
    var src := Snapshot(cells);
    if cell in src {
      UnvisitedShrinks(src, stack, cell);
    }
  }

  /** A formula cell answers its formula's tree, read below the cell itself. */
  lemma FormulaCellReads(cells: Cells, cell: CellRef, stack: seq<Key>)
    requires Convertible(cells) && CellKey(cell) !in stack && CellAt(cells, cell).Formula?
    ensures var t := FormulaTree(CellAt(cells, cell).formula);
            var below := Answers(Snapshot(cells), stack + [CellKey(cell)]);
            var answer := FreshCell(Snapshot(cells), cell, stack);
            && answer == EvalTree(t, below).outcome
            && CanonicalOutcome(answer)
            && OutcomeMeaning(answer) == Meaning(t, below)
  {
    hide EvalTree, FormulaTree, Meaning, OutcomeMeaning, CanonicalOutcome, Answers;
    var src := Snapshot(cells);
    SnapshotExact(cells);
    UnvisitedShrinks(src, stack, cell);
    FreshCanonical(src, cell, stack);
    AnswersCanonical(src, stack + [CellKey(cell)]);
    FormulaTreeCanonical(CellAt(cells, cell).formula);
    EvalTreeExact(FormulaTree(CellAt(cells, cell).formula), Answers(src, stack + [CellKey(cell)]));
  }

  /** A cell being evaluated already answers the cycle that closes there. */
  lemma RepeatedCellReads(cells: Cells, cell: CellRef, stack: seq<Key>)
    requires Convertible(cells) && CellKey(cell) in stack && CellAt(cells, cell).Formula?
    ensures FreshCell(Snapshot(cells), cell, stack) == Cycle(stack + [CellKey(cell)])
  {
  }

  /** The formula that reads one cell. */
  function Reading(cell: CellRef): string {
    "=" + SpacedText([Cell(cell)])
  }

  lemma ReadingIsReference(cell: CellRef)
    requires OneBased(cell)
    ensures FormulaTree(Reading(cell)) == Ref(cell)
  {
    hide FormulaTree, SpacedText;
    FormulaTextRoundTrip(Ref(cell));
    assert Print(Ref(cell), 0) == [Cell(cell)];
  }

  /** What a caller sees of each kind of cell. */
  lemma ReadingAnswers(cells: Cells, cell: CellRef)
    requires Convertible(cells) && OneBased(cell)
    ensures var value := CellAt(cells, cell);
            && (value.Number? ==>
                  value.value.den != 0
                  && EvalOnce(cells, Reading(cell)) == NumberResult(Reduce(value.value.num, value.value.den)))
            && (!value.Number? && !value.Formula? ==>
                  EvalOnce(cells, Reading(cell)) == DomainFailure(NonNumericCell(cell)))
  {
    hide FormulaTree, FreshCell, Reduce, Answers, Reading;
    var src, stack := Snapshot(cells), [FormulaKey(Reading(cell))];
    ReadingIsReference(cell);
    AnswerIsFresh(src, stack, cell);
    assert EvalTree(Ref(cell), Answers(src, stack)).outcome == FreshCell(src, cell, stack);
    if CellAt(cells, cell).Number? {
      NumberCellReads(cells, cell, stack);
    } else if !CellAt(cells, cell).Formula? {
      OtherCellReads(cells, cell, stack);
    }
  }

  // ---------------------------------------------------------------- sessions

  /** The sheet after a run of commands. */
  function CellsAfterAll(cells: Cells, commands: seq<Command>): (after: Cells)
    requires Convertible(cells)
    ensures Convertible(after)
    decreases |commands|
  {
    if commands == [] then cells else CellsAfterAll(CellsAfter(cells, commands[0]), commands[1..])
  }

  /** Commands one after the other: the answers of the first, then those of the rest on the sheet it left. */
  lemma {:induction false} AnswersConcat(cells: Cells, a: seq<Command>, b: seq<Command>)
    requires Convertible(cells)
    ensures FreshAnswers(cells, a + b) == FreshAnswers(cells, a) + FreshAnswers(CellsAfterAll(cells, a), b)
    decreases |a|
  {
    hide CellsAfter, EvalOnce;
    if a == [] {
      assert a + b == b;
    } else {
      assert (a + b)[0] == a[0] && (a + b)[1..] == a[1..] + b;
      AnswersConcat(CellsAfter(cells, a[0]), a[1..], b);
    }
  }

  /**
   In every session: after any commands, a number assigned to a cell is the number that reading the
   cell answers; any value that is no number or formula answers that the cell is not numeric.
   */
  lemma SessionReads(commands: seq<Command>, cell: CellRef, value: CellValue)
    requires OneBased(cell) && !value.Formula? && (value.Number? ==> value.value.den != 0)
    ensures FreshAnswers(map[], commands + [Set(cell, value), Eval(Reading(cell))]) ==
            FreshAnswers(map[], commands)
            + [if value.Number? then NumberResult(Reduce(value.value.num, value.value.den))
               else DomainFailure(NonNumericCell(cell))]
  {
    hide EvalOnce, Reduce, Reading, FreshAnswers;
    AnswersConcat(map[], commands, [Set(cell, value), Eval(Reading(cell))]);
    var before := CellsAfterAll(map[], commands);
    TwoAnswers(before, cell, value);
    var after := CellsAfter(before, Set(cell, value));
    SetIsHeld(before, cell, value);
    ReadingAnswers(after, cell);
  }

  lemma TwoAnswers(cells: Cells, cell: CellRef, value: CellValue)
    requires Convertible(cells)
    ensures FreshAnswers(cells, [Set(cell, value), Eval(Reading(cell))]) ==
            [EvalOnce(CellsAfter(cells, Set(cell, value)), Reading(cell))]
  {
    hide EvalOnce, CellsAfter, Reading;
    var commands := [Set(cell, value), Eval(Reading(cell))];
    var after := CellsAfter(cells, Set(cell, value));
    assert commands[1..] == [Eval(Reading(cell))] && commands[1..][1..] == [];
    assert FreshAnswers(CellsAfter(after, Eval(Reading(cell))), []) == [];
    assert FreshAnswers(after, commands[1..]) == [EvalOnce(after, Reading(cell))];
  }

  lemma SetIsHeld(cells: Cells, cell: CellRef, value: CellValue)
    requires Convertible(cells) && (value.Number? ==> value.value.den != 0)
    ensures CellAt(CellsAfter(cells, Set(cell, value)), cell) == value
  {
  }

  /** A number without a denominator is refused and changes nothing. */
  lemma SessionRefuses(commands: seq<Command>, more: seq<Command>, cell: CellRef, num: int)
    ensures FreshAnswers(map[], commands + ([Set(cell, CellValue.Number(Rational(num, 0)))] + more)) ==
            FreshAnswers(map[], commands + more)
  {
    hide EvalOnce, FreshAnswers;
    var bad := [Set(cell, CellValue.Number(Rational(num, 0)))];
    var before := CellsAfterAll(map[], commands);
    AnswersConcat(map[], commands, bad + more);
    AnswersConcat(map[], commands, more);
    AnswersConcat(before, bad, more);
    RefusedSet(before, cell, num);
    assert [] + FreshAnswers(before, more) == FreshAnswers(before, more);
  }

  lemma RefusedSet(cells: Cells, cell: CellRef, num: int)
    requires Convertible(cells)
    ensures CellsAfterAll(cells, [Set(cell, CellValue.Number(Rational(num, 0)))]) == cells
    ensures FreshAnswers(cells, [Set(cell, CellValue.Number(Rational(num, 0)))]) == []
  {
    var bad := [Set(cell, CellValue.Number(Rational(num, 0)))];
    assert bad[1..] == [];
  }

  // ---------------------------------------------------------------- operations

  /**
   An operation on two numbers is their exact result, or a division by zero; an operand that is no
   number decides the outcome, the left one first.
   */
  lemma OperationOutcome(op: Op, l: Tree, r: Tree, replies: Replies)
    requires CanonicalTree(l) && CanonicalTree(r)
    requires forall c :: c in replies ==> CanonicalOutcome(replies[c])
    ensures var x, y, o := EvalTree(l, replies).outcome, EvalTree(r, replies).outcome,
                           EvalTree(Bin(op, l, r), replies).outcome;
            && (x.Ok? && y.Ok? ==>
                  && x.value.den != 0 && y.value.den != 0
                  && (op == Div && Denote(y.value) == 0.0 ==> o == Fail(DivisionByZero))
                  && (!(op == Div && Denote(y.value) == 0.0) ==>
                        o.Ok? && OutcomeMeaning(o) == RealOp(op, Denote(x.value), Denote(y.value))))
            && (!x.Ok? ==> o == x)
            && (x.Ok? && !y.Ok? ==> o == y)
  {
    hide EvalTree, Apply, RealOp, Canonical;
    EvalTreeExact(l, replies);
    EvalTreeExact(r, replies);
    var x, y := EvalTree(l, replies).outcome, EvalTree(r, replies).outcome;
    BinEvaluates(op, l, r, replies);
    if x.Ok? && y.Ok? {
      CanonicalHasMeaning(x.value);
      CanonicalHasMeaning(y.value);
      ApplyMeaning(op, x.value, y.value);
      ApplyFails(op, x.value, y.value);
    }
  }

  lemma BinEvaluates(op: Op, l: Tree, r: Tree, replies: Replies)
    ensures var x, y := EvalTree(l, replies).outcome, EvalTree(r, replies).outcome;
            EvalTree(Bin(op, l, r), replies).outcome ==
            if !x.Ok? then x else if !y.Ok? then y else Apply(op, x.value, y.value)
  {
  }

  lemma ApplyFails(op: Op, x: Rational, y: Rational)
    requires Canonical(x) && Canonical(y)
    ensures Denote(y) == 0.0 <==> y.num == 0
    ensures op == Div && y.num == 0 ==> Apply(op, x, y) == Fail(DivisionByZero)
    ensures !(op == Div && Denote(y) == 0.0) ==> RealOp(op, Denote(x), Denote(y)).Some?
    ensures OutcomeMeaning(Apply(op, x, y)).Some? ==> Apply(op, x, y).Ok?
  {
    hide MakeNumber;
    var z := Denote(y);
    assert z * (y.den as real) == y.num as real;
  }
}
