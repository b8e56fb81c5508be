/**
 What a formula means when it is evaluated from scratch: trees over exact rationals, cells read
 through their own formulas, and a cycle when a read reaches a cell whose evaluation is under way.
 */
module Evaluation {
  import opened CellRefs
  import opened Collections
  import opened Formulas
  import opened Rationals
  import opened Text
  import opened Wrappers

  datatype Key = CellKey(cell: CellRef) | FormulaKey(formula: string)

  /** A number, a domain failure, or an engine cycle whose path ends with the repeated key. */
  datatype Outcome =
    | Ok(value: Rational)
    | Fail(failure: FormulaFailure)
    | Cycle(path: seq<Key>)

  /** The snapshot the engine evaluates against; blank cells are absent. */
  datatype Content =
    | NumberCell(value: Rational)
    | FormulaCell(formula: string)
    | TextCell(text: string)
    | BoolCell(flag: bool)

  type Source = map<CellRef, Content>

  /** Numbers in a snapshot went through `ExactNumber::new`, so they are in lowest terms. */
  ghost predicate ExactSource(src: Source) {
    forall c :: c in src && src[c].NumberCell? ==> Canonical(src[c].value)
  }

  // ---------------------------------------------------------------- exact arithmetic

  function MakeNumber(num: int, den: int): Outcome {
    match FromParts(num, den)
    case None => Fail(InvalidRational(IntText(num) + "/" + IntText(den)))
    case Some(q) => Ok(q)
  }

  const ZERO := Rational(0, 1)

  function Apply(op: Op, a: Rational, b: Rational): (o: Outcome)
    ensures !o.Cycle?
  {
    match op
    case Add => MakeNumber(a.num * b.den + b.num * a.den, a.den * b.den)
    case Sub => MakeNumber(a.num * b.den - b.num * a.den, a.den * b.den)
    case Mul => MakeNumber(a.num * b.num, a.den * b.den)
    case Div => if b.num == 0 then Fail(DivisionByZero) else MakeNumber(a.num * b.den, a.den * b.num)
  }

  function ParseLiteral(text: string): (o: Outcome)
    ensures !o.Cycle?
  {
    match RationalFromText(text)
    case None => Fail(InvalidRational(Trim(text)))
    case Some(q) => Ok(q)
  }

  // ---------------------------------------------------------------- trees against replies

  /** What each cell answers when it is read. A cell nobody knows is not a number. */
  type Replies = map<CellRef, Outcome>

  function Reply(replies: Replies, cell: CellRef): Outcome {
    if cell in replies then replies[cell] else Fail(NonNumericCell(cell))
  }

  /** An outcome and the cells that answered on the way to it, in reading order. */
  datatype Run = Run(outcome: Outcome, used: seq<CellRef>)

  /** Left to right, stopping at the first failure. */
  function EvalTree(t: Tree, replies: Replies): Run {
    match t
    case Lit(text) => Run(ParseLiteral(text), [])
    case Const(value) => Run(Ok(value), [])
    case Ref(cell) =>
      var reply := Reply(replies, cell);
      Run(reply, if reply.Cycle? then [] else [cell])
    case Neg(inner) =>
      var r := EvalTree(inner, replies);
      if r.outcome.Ok? then Run(Apply(Sub, ZERO, r.outcome.value), r.used) else r
    case Bin(op, left, right) =>
      var l := EvalTree(left, replies);
      if !l.outcome.Ok? then l
      else
        var r := EvalTree(right, replies);
        Run(if r.outcome.Ok? then Apply(op, l.outcome.value, r.outcome.value) else r.outcome,
            l.used + r.used)
    case Bad(failure) => Run(Fail(failure), [])
    case Guard(inner, failure) =>
      var r := EvalTree(inner, replies);
      if r.outcome.Ok? then Run(Fail(failure), r.used) else r
  }

  function RefsOf(t: Tree): set<CellRef> {
    match t
    case Ref(cell) => {cell}
    case Neg(inner) => RefsOf(inner)
    case Bin(_, left, right) => RefsOf(left) + RefsOf(right)
    case Guard(inner, _) => RefsOf(inner)
    case _ => {}
  }

  ghost predicate Agree(a: Replies, b: Replies, cells: seq<CellRef>) {
    forall i :: 0 <= i < |cells| ==> Reply(b, cells[i]) == Reply(a, cells[i])
  }

  lemma AgreeSplit(a: Replies, b: Replies, first: seq<CellRef>, second: seq<CellRef>)
    requires Agree(a, b, first + second)
    ensures Agree(a, b, first) && Agree(a, b, second)
  {
    var all := first + second;
    assert forall i :: 0 <= i < |first| ==> first[i] == all[i];
    assert forall i :: 0 <= i < |second| ==> second[i] == all[|first| + i];
  }

  /** Only the cells that were read matter. */
  lemma {:induction false} SameReadsSameRun(t: Tree, a: Replies, b: Replies)
    requires !EvalTree(t, a).outcome.Cycle?
    requires Agree(a, b, EvalTree(t, a).used)
    ensures EvalTree(t, b) == EvalTree(t, a)
  {
    match t
    case Ref(cell) => assert EvalTree(t, a).used[0] == cell;
    case Neg(inner) => SameReadsSameRun(inner, a, b);
    case Guard(inner, _) => SameReadsSameRun(inner, a, b);
    case Bin(_, left, right) =>
      if EvalTree(left, a).outcome.Ok? {
        AgreeSplit(a, b, EvalTree(left, a).used, EvalTree(right, a).used);
        SameReadsSameRun(right, a, b);
      }
      SameReadsSameRun(left, a, b);
    case _ =>
  }

  /** If the first `i` reads answer as recorded and the next one is a cycle, so is the whole run. */
  lemma {:induction false} FirstCycleDecides(t: Tree, a: Replies, b: Replies, i: nat)
    requires !EvalTree(t, a).outcome.Cycle?
    requires i < |EvalTree(t, a).used|
    requires Agree(a, b, EvalTree(t, a).used[..i])
    requires Reply(b, EvalTree(t, a).used[i]).Cycle?
    ensures EvalTree(t, b).outcome == Reply(b, EvalTree(t, a).used[i])
  {
    match t
    case Ref(_) =>
    case Neg(inner) => FirstCycleDecides(inner, a, b, i);
    case Guard(inner, _) => FirstCycleDecides(inner, a, b, i);
    case Bin(_, left, right) =>
      var l, r, all := EvalTree(left, a).used, EvalTree(right, a).used, EvalTree(t, a).used;
      if i < |l| {
        assert all[..i] == l[..i] && all[i] == l[i];
        FirstCycleDecides(left, a, b, i);
      } else {
        assert all[..i] == l + r[..i - |l|] && all[i] == r[i - |l|];
        AgreeSplit(a, b, l, r[..i - |l|]);
        SameReadsSameRun(left, a, b);
        FirstCycleDecides(right, a, b, i - |l|);
      }
    case _ =>
  }

  /** Every read is a reference of the tree, and a failed or cyclic run comes from one of them. */
  lemma {:induction false} RunComesFromRefs(t: Tree, replies: Replies)
    ensures forall c :: c in EvalTree(t, replies).used ==> c in RefsOf(t)
    ensures EvalTree(t, replies).outcome.Cycle? ==>
              exists c :: c in RefsOf(t) && Reply(replies, c) == EvalTree(t, replies).outcome
  {
    hide Apply, ParseLiteral;
    match t
    case Ref(cell) => assert cell in RefsOf(t);
    case Neg(inner) => RunComesFromRefs(inner, replies);
    case Guard(inner, _) => RunComesFromRefs(inner, replies);
    case Bin(_, left, right) =>
      RunComesFromRefs(left, replies);
      RunComesFromRefs(right, replies);
    case _ =>
  }

  // ---------------------------------------------------------------- exact meaning

  /** The real number an expression denotes, or nothing when an operand or a divisor fails. */
  ghost function Meaning(t: Tree, replies: Replies): Option<real> {
    match t
    case Lit(text) => OutcomeMeaning(ParseLiteral(text))
    case Const(value) => OutcomeMeaning(Ok(value))
    case Ref(cell) => OutcomeMeaning(Reply(replies, cell))
    case Neg(inner) => (match Meaning(inner, replies) case None => None case Some(x) => Some(-x))
    case Bin(op, left, right) =>
      (match (Meaning(left, replies), Meaning(right, replies))
       case (Some(x), Some(y)) => RealOp(op, x, y)
       case _ => None)
    case _ => None
  }

  ghost function RealOp(op: Op, x: real, y: real): Option<real> {
    match op
    case Add => Some(x + y)
    case Sub => Some(x - y)
    case Mul => Some(x * y)
    case Div => if y == 0.0 then None else Some(x / y)
  }

  ghost function OutcomeMeaning(o: Outcome): Option<real> {
    if o.Ok? && o.value.den != 0 then Some(Denote(o.value)) else None
  }

  ghost predicate CanonicalOutcome(o: Outcome) {
    o.Ok? ==> Canonical(o.value)
  }

  ghost predicate CanonicalTree(t: Tree) {
    match t
    case Const(value) => Canonical(value)
    case Neg(inner) => CanonicalTree(inner)
    case Bin(_, left, right) => CanonicalTree(left) && CanonicalTree(right)
    case Guard(inner, _) => CanonicalTree(inner)
    case _ => true
  }

  lemma RatioOps(a: int, b: int, c: int, d: int)
    requires b != 0 && d != 0
    ensures b * d != 0
    ensures Ratio(a * d + c * b, b * d) == Ratio(a, b) + Ratio(c, d)
    ensures Ratio(a * d - c * b, b * d) == Ratio(a, b) - Ratio(c, d)
    ensures Ratio(a * c, b * d) == Ratio(a, b) * Ratio(c, d)
  {
    ProductNonZero(b, d);
    var x, y := Ratio(a, b), Ratio(c, d);
    var rb, rd := b as real, d as real;
    CommonDenominator(x, y, a as real, rb, c as real, rd);
    RealProducts(a, b, c, d);
    RealProductNonZero(rb, rd);
    QuotientIs(x + y, rb * rd, a as real * rd + c as real * rb);
    QuotientIs(x - y, rb * rd, a as real * rd - c as real * rb);
    QuotientIs(x * y, rb * rd, a as real * c as real);
  }

  lemma RealProducts(a: int, b: int, c: int, d: int)
    ensures (b * d) as real == b as real * d as real
    ensures (a * d + c * b) as real == a as real * d as real + c as real * b as real
    ensures (a * d - c * b) as real == a as real * d as real - c as real * b as real
    ensures (a * c) as real == a as real * c as real
  {
  }

  lemma QuotientIs(x: real, den: real, num: real)
    requires den != 0.0 && x * den == num
    ensures num / den == x
  {
  }

  lemma CommonDenominator(x: real, y: real, a: real, b: real, c: real, d: real)
    requires b != 0.0 && d != 0.0 && x == a / b && y == c / d
    ensures (x + y) * (b * d) == a * d + c * b
    ensures (x - y) * (b * d) == a * d - c * b
    ensures (x * y) * (b * d) == a * c
  {
    assert x * b == a && y * d == c;
    assert x * (b * d) == (x * b) * d;
    assert y * (b * d) == (y * d) * b;
    Distribute(x, y, b * d);
    assert (x * y) * (b * d) == (x * b) * (y * d);
  }

  lemma Distribute(x: real, y: real, z: real)
    ensures (x + y) * z == x * z + y * z
    ensures (x - y) * z == x * z - y * z
  {
  }

  lemma RatioQuotient(a: int, b: int, c: int, d: int)
    requires b != 0 && c != 0 && d != 0
    ensures b * c != 0
    ensures Ratio(c, d) != 0.0
    ensures Ratio(a * d, b * c) == Ratio(a, b) / Ratio(c, d)
  {
    ProductNonZero(b, c);
    var x, y := Ratio(a, b), Ratio(c, d);
    var rb, rc, rd := b as real, c as real, d as real;
    assert y * rd == rc && x * rb == a as real;
    assert y != 0.0;
    var q := x / y;
    assert q * y == x;
    assert (b * c) as real == rb * rc;
    assert (a * d) as real == a as real * rd;
    RealProductNonZero(rb, rc);
  }

  lemma FractionMeaning(num: int, den: int)
    requires den != 0
    ensures CanonicalOutcome(MakeNumber(num, den))
    ensures OutcomeMeaning(MakeNumber(num, den)) == Some(Ratio(num, den))
  {
    ReduceDenotes(num, den);
  }

  lemma ProductMeaning(a: Rational, b: Rational)
    requires Canonical(a) && Canonical(b)
    ensures CanonicalOutcome(Apply(Mul, a, b))
    ensures OutcomeMeaning(Apply(Mul, a, b)) == RealOp(Mul, Denote(a), Denote(b))
  {
    hide MakeNumber, Ratio;
    RatioOps(a.num, a.den, b.num, b.den);
    FractionMeaning(a.num * b.num, a.den * b.den);
    assert OutcomeMeaning(Apply(Mul, a, b)) == Some(Ratio(a.num * b.num, a.den * b.den));
    assert Ratio(a.num * b.num, a.den * b.den) == Ratio(a.num, a.den) * Ratio(b.num, b.den);
    assert Denote(a) == Ratio(a.num, a.den) && Denote(b) == Ratio(b.num, b.den);
  }

  lemma ApplyMeaning(op: Op, a: Rational, b: Rational)
    requires Canonical(a) && Canonical(b)
    ensures CanonicalOutcome(Apply(op, a, b))
    ensures OutcomeMeaning(Apply(op, a, b)) == RealOp(op, Denote(a), Denote(b))
  {
    hide MakeNumber, Ratio;
    RatioOps(a.num, a.den, b.num, b.den);
    match op
    case Add => FractionMeaning(a.num * b.den + b.num * a.den, a.den * b.den);
    case Sub => FractionMeaning(a.num * b.den - b.num * a.den, a.den * b.den);
    case Mul => ProductMeaning(a, b);
    case Div =>
      if b.num != 0 {
        RatioQuotient(a.num, a.den, b.num, b.den);
        FractionMeaning(a.num * b.den, a.den * b.num);
      }
  }

  lemma LiteralCanonical(text: string)
    ensures CanonicalOutcome(ParseLiteral(text))
  {
    hide Canonical, ParseInt, Reduce;
    var source := Trim(text);
    var s := if '/' in source then source else source + "/1";
    match FirstAt(s, '/')
    case None =>
    case Some(i) =>
      match (ParseInt(s[..i]), ParseInt(s[i + 1..]))
      case (Some(n), Some(d)) => if d != 0 { ReduceDenotes(n, d); }
      case _ =>
  }

  /**
   Exactness: a tree evaluates to a number exactly when its real meaning is defined, the number is
   in lowest terms, and it denotes that meaning.
   */
  lemma {:induction false} EvalTreeExact(t: Tree, replies: Replies)
    requires CanonicalTree(t)
    requires forall c :: c in replies ==> CanonicalOutcome(replies[c])
    ensures CanonicalOutcome(EvalTree(t, replies).outcome)
    ensures OutcomeMeaning(EvalTree(t, replies).outcome) == Meaning(t, replies)
  {
    hide Apply, RealOp, Canonical, Denote, RationalFromText;
    match t
    case Lit(text) => LiteralCanonical(text);
    case Const(value) => CanonicalHasMeaning(value);
    case Neg(inner) =>
      EvalTreeExact(inner, replies);
      NegExact(EvalTree(inner, replies).outcome);
    case Bin(op, left, right) =>
      EvalTreeExact(left, replies);
      EvalTreeExact(right, replies);
      BinExact(op, EvalTree(left, replies).outcome, EvalTree(right, replies).outcome);
    case Guard(inner, _) => EvalTreeExact(inner, replies);
    case _ =>
  }

  lemma CanonicalHasMeaning(value: Rational)
    requires Canonical(value)
    ensures value.den != 0 && OutcomeMeaning(Ok(value)) == Some(Denote(value))
  {
  }

  lemma NegExact(o: Outcome)
    requires CanonicalOutcome(o)
    ensures o.Ok? <==> OutcomeMeaning(o).Some?
    ensures o.Ok? ==> CanonicalOutcome(Apply(Sub, ZERO, o.value))
    ensures o.Ok? ==> OutcomeMeaning(Apply(Sub, ZERO, o.value)) == Some(-OutcomeMeaning(o).value)
  {
    if o.Ok? {
      ApplyMeaning(Sub, ZERO, o.value);
    }
  }

  lemma BinExact(op: Op, l: Outcome, r: Outcome)
    requires CanonicalOutcome(l) && CanonicalOutcome(r)
    ensures l.Ok? <==> OutcomeMeaning(l).Some?
    ensures r.Ok? <==> OutcomeMeaning(r).Some?
    ensures l.Ok? && r.Ok? ==>
              && CanonicalOutcome(Apply(op, l.value, r.value))
              && OutcomeMeaning(Apply(op, l.value, r.value))
              == RealOp(op, OutcomeMeaning(l).value, OutcomeMeaning(r).value)
  {
    if l.Ok? && r.Ok? {
      ApplyMeaning(op, l.value, r.value);
    }
  }

  lemma {:induction false} ParsedTreesCanonical(ts: seq<Token>, pos: nat)
    requires Terminated(ts) && pos < |ts|
    ensures CanonicalTree(ParseFactor(ts, pos).tree)
    ensures CanonicalTree(ParseTerm(ts, pos).tree)
    ensures CanonicalTree(ParseExpr(ts, pos).tree)
    decreases |ts| - pos, 0
  {
    if pos + 1 < |ts| {
      ParsedTreesCanonical(ts, pos + 1);
    }
    var f := ParseFactor(ts, pos);
    assert CanonicalTree(f.tree);
    if f.ok {
      TailsCanonical(ts, f.pos, f.tree, pos);
    }
    var t := ParseTerm(ts, pos);
    if t.ok {
      TailsCanonical(ts, t.pos, t.tree, pos);
    }
  }

  lemma {:induction false} TailsCanonical(ts: seq<Token>, pos: nat, left: Tree, start: nat)
    requires Terminated(ts) && start < pos < |ts| && CanonicalTree(left)
    ensures CanonicalTree(TermTail(ts, pos, left).tree)
    ensures CanonicalTree(ExprTail(ts, pos, left).tree)
    decreases |ts| - pos, 1
  {
    if pos + 1 < |ts| {
      ParsedTreesCanonical(ts, pos + 1);
      if ProductOp(ts[pos]).Some? {
        var r := ParseFactor(ts, pos + 1);
        if r.ok {
          TailsCanonical(ts, r.pos, Bin(ProductOp(ts[pos]).value, left, r.tree), start);
        }
      }
      if SumOp(ts[pos]).Some? {
        var r := ParseTerm(ts, pos + 1);
        if r.ok {
          TailsCanonical(ts, r.pos, Bin(SumOp(ts[pos]).value, left, r.tree), start);
        }
      }
    }
  }

  // ---------------------------------------------------------------- cells from scratch

  /** The query body of a cell, as a tree. */
  function ContentTree(cell: CellRef, content: Content): Tree {
    match content
    case NumberCell(value) => Const(value)
    case FormulaCell(formula) => FormulaTree(formula)
    case _ => Bad(NonNumericCell(cell))
  }

  function KeyTree(src: Source, key: Key): Tree {
    match key
    case FormulaKey(formula) => FormulaTree(formula)
    case CellKey(cell) => if cell in src then ContentTree(cell, src[cell]) else Bad(NonNumericCell(cell))
  }

  /** Cells whose evaluation has not started. */
  function Unvisited(src: Source, stack: seq<Key>): set<CellRef> {
    set c | c in src && CellKey(c) !in stack
  }

  lemma UnvisitedShrinks(src: Source, stack: seq<Key>, cell: CellRef)
    requires cell in src && CellKey(cell) !in stack
    ensures |Unvisited(src, stack + [CellKey(cell)])| < |Unvisited(src, stack)|
  {
    var smaller := Unvisited(src, stack + [CellKey(cell)]);
    assert smaller <= Unvisited(src, stack) - {cell};
    SubsetSize(smaller, Unvisited(src, stack) - {cell});
  }

  /**
   A cell evaluated from scratch below a stack of evaluations under way. It is a total function:
   each descent visits a cell of the snapshot that was not on the stack.
   */
  function FreshCell(src: Source, cell: CellRef, stack: seq<Key>): Outcome
    decreases |Unvisited(src, stack)|, 0
  {
    if cell !in src then Fail(NonNumericCell(cell))
    else if CellKey(cell) in stack then Cycle(stack + [CellKey(cell)])
    else
      UnvisitedShrinks(src, stack, cell);
      EvalTree(ContentTree(cell, src[cell]), Answers(src, stack + [CellKey(cell)])).outcome
  }

  /** What every cell answers below a stack. */
  function Answers(src: Source, stack: seq<Key>): Replies
    decreases |Unvisited(src, stack)|, 1
  {
    map c | c in src.Keys :: FreshCell(src, c, stack)
  }

  function FreshFormula(src: Source, formula: string): Outcome {
    EvalTree(FormulaTree(formula), Answers(src, [FormulaKey(formula)])).outcome
  }

  lemma AnswerIsFresh(src: Source, stack: seq<Key>, cell: CellRef)
    ensures Reply(Answers(src, stack), cell) == FreshCell(src, cell, stack)
  {
  }

  lemma FormulaTreeCanonical(formula: string)
    ensures CanonicalTree(FormulaTree(formula))
  {
    var source := Trim(formula);
    if source != [] && source[0] == '=' {
      ScanTerminated(source[1..]);
      hide Scan, ParseExpr;
      if Scan(source[1..]).Success? {
        ParsedTreesCanonical(Scan(source[1..]).value, 0);
      }
    }
  }

  /** Over an exact snapshot every number a cell answers is in lowest terms. */
  lemma {:induction false} FreshCanonical(src: Source, cell: CellRef, stack: seq<Key>)
    requires ExactSource(src)
    ensures CanonicalOutcome(FreshCell(src, cell, stack))
    decreases |Unvisited(src, stack)|, 0
  {
    if cell in src && CellKey(cell) !in stack {
      UnvisitedShrinks(src, stack, cell);
      AnswersCanonical(src, stack + [CellKey(cell)]);
      if src[cell].FormulaCell? {
        FormulaTreeCanonical(src[cell].formula);
      }
      EvalTreeExact(ContentTree(cell, src[cell]), Answers(src, stack + [CellKey(cell)]));
    }
  }

  lemma {:induction false} AnswersCanonical(src: Source, stack: seq<Key>)
    requires ExactSource(src)
    ensures forall c :: c in Answers(src, stack) ==> CanonicalOutcome(Answers(src, stack)[c])
    decreases |Unvisited(src, stack)|, 1
  {
    forall c | c in Answers(src, stack)
      ensures CanonicalOutcome(Answers(src, stack)[c])
    {
      FreshCanonical(src, c, stack);
    }
  }

  /** A formula's number is the exact real value of its tree over the cells it reads. */
  lemma FreshFormulaExact(src: Source, formula: string)
    requires ExactSource(src)
    ensures CanonicalOutcome(FreshFormula(src, formula))
    ensures OutcomeMeaning(FreshFormula(src, formula))
         == Meaning(FormulaTree(formula), Answers(src, [FormulaKey(formula)]))
  {
    FormulaTreeCanonical(formula);
    AnswersCanonical(src, [FormulaKey(formula)]);
    EvalTreeExact(FormulaTree(formula), Answers(src, [FormulaKey(formula)]));
  }

  // ---------------------------------------------------------------- cycles

  ghost predicate Distinct(path: seq<Key>) {
    forall i, j :: 0 <= i < j < |path| ==> path[i] != path[j]
  }

  ghost predicate Refers(src: Source, from: Key, to: Key) {
    to.CellKey? && to.cell in RefsOf(KeyTree(src, from))
  }

  /** Each key from `start` on refers to the next one. */
  ghost predicate RefersAlong(src: Source, path: seq<Key>, start: nat) {
    forall i :: start <= i < |path| - 1 ==> Refers(src, path[i], path[i + 1])
  }

  /** A closed walk of references. */
  ghost predicate ReferenceCycle(src: Source, path: seq<Key>) {
    |path| >= 2 && path[0] == path[|path| - 1] && RefersAlong(src, path, 0)
  }

  /** Reported paths: no key repeats before the last one, which is a cell met earlier. */
  ghost predicate RepeatsAtEnd(path: seq<Key>) {
    && |path| >= 2
    && Distinct(path[..|path| - 1])
    && path[|path| - 1].CellKey?
    && path[|path| - 1] in path[..|path| - 1]
  }

  /** A reported path that grew out of a stack at one cell. */
  ghost predicate GrownFrom(src: Source, stack: seq<Key>, cell: CellRef, path: seq<Key>) {
    && |stack| < |path| && path[..|stack|] == stack && path[|stack|] == CellKey(cell)
    && RepeatsAtEnd(path)
    && RefersAlong(src, path, |stack|)
  }

  lemma GrownFromBelow(src: Source, stack: seq<Key>, cell: CellRef, next: CellRef, path: seq<Key>)
    requires GrownFrom(src, stack + [CellKey(cell)], next, path)
    requires Refers(src, CellKey(cell), CellKey(next))
    ensures GrownFrom(src, stack, cell, path)
  {
    hide RepeatsAtEnd, Refers;
    var below := stack + [CellKey(cell)];
    assert path[..|stack|] == path[..|below|][..|stack|] == stack;
    assert path[|stack|] == path[..|below|][|stack|] == CellKey(cell);
  }

  lemma GrownAtRepeat(src: Source, stack: seq<Key>, cell: CellRef)
    requires Distinct(stack) && CellKey(cell) in stack
    ensures GrownFrom(src, stack, cell, stack + [CellKey(cell)])
  {
    var path := stack + [CellKey(cell)];
    assert path[..|path| - 1] == stack;
  }

  lemma {:induction false} CyclePath(src: Source, cell: CellRef, stack: seq<Key>)
    requires Distinct(stack) && FreshCell(src, cell, stack).Cycle?
    ensures GrownFrom(src, stack, cell, FreshCell(src, cell, stack).path)
    decreases |Unvisited(src, stack)|
  {
    if CellKey(cell) in stack {
      GrownAtRepeat(src, stack, cell);
    } else {
      var below := stack + [CellKey(cell)];
      var next := CycleSource(src, KeyTree(src, CellKey(cell)), below);
      UnvisitedShrinks(src, stack, cell);
      hide FreshCell, GrownFrom;
      CyclePath(src, next, below);
      GrownFromBelow(src, stack, cell, next, FreshCell(src, next, below).path);
    }
  }

  /** A cyclic run passes on the cycle of one referenced cell. */
  lemma CycleSource(src: Source, t: Tree, stack: seq<Key>) returns (next: CellRef)
    requires EvalTree(t, Answers(src, stack)).outcome.Cycle?
    ensures next in RefsOf(t)
    ensures FreshCell(src, next, stack) == EvalTree(t, Answers(src, stack)).outcome
  {
    RunComesFromRefs(t, Answers(src, stack));
    next :| next in RefsOf(t) && Reply(Answers(src, stack), next) == EvalTree(t, Answers(src, stack)).outcome;
    AnswerIsFresh(src, stack, next);
  }

  /** From index `k` on, the path is a closed walk of references. */
  ghost predicate ClosesFrom(src: Source, path: seq<Key>, k: nat) {
    k < |path| - 1 && path[k] == path[|path| - 1] && ReferenceCycle(src, path[k..])
  }

  ghost predicate ClosesSomewhere(src: Source, path: seq<Key>) {
    exists k: nat :: ClosesFrom(src, path, k)
  }

  lemma RepeatCloses(src: Source, path: seq<Key>)
    requires RepeatsAtEnd(path) && RefersAlong(src, path, 0)
    ensures ClosesSomewhere(src, path)
  {
    var front, last := path[..|path| - 1], path[|path| - 1];
    assert last in front;
    var k :| 0 <= k < |front| && front[k] == last;
    hide RefersAlong;
    assert ClosesFrom(src, path, k);
  }

  /**
   A cycle is reported only when a read reaches a cell already on the stack: the path starts at the
   formula, follows references, repeats no key before its end, and the named cell closes a walk of
   references.
   */
  lemma ReportedCycleIsReal(src: Source, formula: string)
    requires FreshFormula(src, formula).Cycle?
    ensures var path := FreshFormula(src, formula).path;
            && RepeatsAtEnd(path)
            && path[0] == FormulaKey(formula)
            && RefersAlong(src, path, 0)
            && ClosesSomewhere(src, path)
  {
    var stack := [FormulaKey(formula)];
    var path := FreshFormula(src, formula).path;
    var next := CycleSource(src, FormulaTree(formula), stack);
    CyclePath(src, next, stack);
    hide FreshFormula, FreshCell, RepeatsAtEnd;
    assert path[0] == path[..1][0];
    assert Refers(src, path[0], path[1]);
    hide Refers;
    RepeatCloses(src, path);
  }
}
