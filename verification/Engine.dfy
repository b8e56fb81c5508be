/**
 The persistent formula engine: a single-pass parser that evaluates while it reads tokens, query
 frames that record what was observed, memos that are rechecked in order, and the public operations
 that register, edit and evaluate.
 */
module Engine {
  import opened CellRefs
  import opened Collections
  import opened EngineStates
  import opened Evaluation
  import opened Formulas
  import opened ParsedRuns
  import opened Rationals
  import opened Sheets
  import opened Text
  import opened Wrappers

  /** What the engine hands back to a reader. */
  datatype QueryResult =
    | Answer(value: Outcome)
    | CycleError(path: seq<Key>)
    | UnknownQuery(key: Key)

  function ToResult(o: Outcome): QueryResult {
    match o case Cycle(path) => CycleError(path) case _ => Answer(o)
  }

  datatype Verdict = Unchanged | FirstChanged | Broken(path: seq<Key>)

  /** Registered cells that are not being evaluated: each descent takes one away. */
  function Idle(cells: set<CellRef>, stack: seq<Key>): set<CellRef> {
    set c | c in cells && CellKey(c) !in stack
  }

  lemma IdleShrinks(cells: set<CellRef>, stack: seq<Key>, cell: CellRef)
    requires cell in cells && CellKey(cell) !in stack
    ensures |Idle(cells, stack + [CellKey(cell)])| < |Idle(cells, stack)|
  {
    var smaller := Idle(cells, stack + [CellKey(cell)]);
    assert smaller <= Idle(cells, stack) - {cell};
    SubsetSize(smaller, Idle(cells, stack) - {cell});
  }

  lemma IdleUnmoved(cells: set<CellRef>, stack: seq<Key>, formula: string)
    ensures Idle(cells, stack + [FormulaKey(formula)]) == Idle(cells, stack)
  {
  }

  lemma DescentShrinks(cells: set<CellRef>, stack: seq<Key>, key: Key)
    requires key !in stack && (key.CellKey? ==> key.cell in cells)
    ensures |Idle(cells, stack + [key])| < |Idle(cells, stack)| + (if key.FormulaKey? then 1 else 0)
  {
    match key
    case CellKey(cell) => IdleShrinks(cells, stack, cell);
    case FormulaKey(formula) => IdleUnmoved(cells, stack, formula);
  }

  /** The dependency recorder a running query holds; `stack` ends with the query's own key. */
  class QueryFrame {
    const engine: FormulaEngine
    const stack: seq<Key>
    var deps: seq<Dep>

    constructor (engine: FormulaEngine, stack: seq<Key>)
      ensures this.engine == engine && this.stack == stack && deps == []
    {
      this.engine := engine;
      this.stack := stack;
      this.deps := [];
    }

    ghost predicate Ready()
      reads this, engine
    {
      Sound(engine.State()) && StackOk(engine.State(), stack)
    }

    method ObserveEpoch(key: Key)
      modifies this
      ensures deps == old(deps) + [EpochDep(key, EpochOf(engine.epochs, key))]
    {
      deps := deps + [EpochDep(key, EpochOf(engine.epochs, key))];
    }

    method ObserveMissing(cell: CellRef)
      modifies this
      ensures deps == old(deps) + [MissingDep(cell)]
    {
      deps := deps + [MissingDep(cell)];
    }

    /** Verifies a cell below this query and records the answer. */
    method Read(cell: CellRef) returns (r: QueryResult)
      requires Ready()
      modifies this, engine`memos
      ensures Grows(old(engine.State()), engine.State()) && StackOk(engine.State(), stack)
      ensures cell !in engine.cells ==> r == UnknownQuery(CellKey(cell)) && deps == old(deps)
      ensures cell in engine.cells ==> r == ToResult(FreshCell(engine.source, cell, stack))
      ensures r.Answer? ==> Backed(engine.State(), ReadDep(cell, r.value))
                            && deps == old(deps) + [ReadDep(cell, r.value)]
      decreases |Idle(engine.cells, stack)|, 0, 0, 1
    {
      r := engine.Verify(CellKey(cell), stack);
      if r.Answer? {
        deps := deps + [ReadDep(cell, r.value)];
        assert FreshKey(engine.source, CellKey(cell), stack) == engine.memos[CellKey(cell)].value;
      }
    }
  }

  /** The single-pass parser: it evaluates as it consumes tokens and never steps over `End`. */
  class Parser {
    const frame: QueryFrame
    const tokens: seq<Token>
    var pos: nat

    constructor (frame: QueryFrame, tokens: seq<Token>)
      ensures this.frame == frame && this.tokens == tokens && pos == 0
    {
      this.frame := frame;
      this.tokens := tokens;
      this.pos := 0;
    }

    ghost predicate Ready()
      reads this, frame, frame.engine
    {
      Terminated(tokens) && pos < |tokens| && frame.Ready()
    }

    ghost function Below(): Replies
      reads frame.engine
    {
      Answers(frame.engine.source, frame.stack)
    }

    /** `IncrementalCellReader::read_cell`: an unregistered cell is observed as missing. */
    method ReadCell(cell: CellRef) returns (out: Outcome)
      requires frame.Ready()
      modifies frame, frame.engine`memos
      ensures Ran(old(frame.engine.State()), frame.engine.State(), frame.stack, old(frame.deps), frame.deps,
                  EvalTree(Ref(cell), Below()), out)
      decreases |Idle(frame.engine.cells, frame.stack)|, 0, 0, 2
    {
      var r := frame.Read(cell);
      AnswerIsFresh(frame.engine.source, frame.stack, cell);
      match r
      case Answer(value) =>
        out := value;
        RecordedOne(frame.engine.State(), old(frame.deps), ReadDep(cell, value));
      case CycleError(path) =>
        out := Cycle(path);
      case UnknownQuery(_) =>
        frame.ObserveMissing(cell);
        out := Fail(NonNumericCell(cell));
        RecordedOne(frame.engine.State(), old(frame.deps), MissingDep(cell));
    }

    method Factor() returns (out: Outcome)
      requires Ready()
      modifies this`pos, frame, frame.engine`memos
      ensures var p := ParseFactor(tokens, old(pos));
              && Ran(old(frame.engine.State()), frame.engine.State(), frame.stack, old(frame.deps), frame.deps,
                     EvalTree(p.tree, Below()), out)
              && (out.Ok? ==> p.ok && pos == p.pos)
      decreases |Idle(frame.engine.cells, frame.stack)|, 1, |tokens| - pos, 0
    {
      hide Sound, StackOk, Grows, Ran, ParseExpr, Apply, ParseLiteral;
      ghost var s0, d0, replies := frame.engine.State(), frame.deps, Below();
      var token := tokens[pos];
      match token
      case Number(text) =>
        pos := pos + 1;
        out := ParseLiteral(text);
        RanNothing(s0, frame.stack, d0, out);
      case Cell(cell) =>
        pos := pos + 1;
        out := ReadCell(cell);
      case Minus =>
        pos := pos + 1;
        out := Factor();
        ghost var run := EvalTree(ParseFactor(tokens, old(pos) + 1).tree, replies);
        RanKeeps(s0, frame.engine.State(), frame.stack, d0, frame.deps, run, out);
        if out.Ok? {
          ghost var value := out;
          out := Apply(Sub, ZERO, out.value);
          RanTurns(s0, frame.engine.State(), frame.stack, d0, frame.deps, run, value, out);
        }
      case LParen =>
        pos := pos + 1;
        out := Expression();
        BrokenExprFails(tokens, old(pos) + 1, replies);
        ghost var run := EvalTree(ParseExpr(tokens, old(pos) + 1).tree, replies);
        RanKeeps(s0, frame.engine.State(), frame.stack, d0, frame.deps, run, out);
        if out.Ok? {
          if tokens[pos] == RParen {
            pos := pos + 1;
          } else {
            ghost var value := out;
            out := Fail(ExpectedClose(tokens[pos]));
            RanTurns(s0, frame.engine.State(), frame.stack, d0, frame.deps, run, value, out);
          }
        }
      case _ =>
        out := Fail(ExpectedOperand(token));
        RanNothing(s0, frame.stack, d0, out);
    }

    method Term() returns (out: Outcome)
      requires Ready()
      modifies this`pos, frame, frame.engine`memos
      ensures var p := ParseTerm(tokens, old(pos));
              && Ran(old(frame.engine.State()), frame.engine.State(), frame.stack, old(frame.deps), frame.deps,
                     EvalTree(p.tree, Below()), out)
              && (out.Ok? ==> p.ok && pos == p.pos)
      decreases |Idle(frame.engine.cells, frame.stack)|, 1, |tokens| - pos, 1
    {
      hide EvalTree, ParseFactor, ParseTerm, Ran, Sound, StackOk, Grows;
      ghost var replies := Below();
      TermStart(tokens, pos, replies);
      out := Factor();
      RanKeeps(old(frame.engine.State()), frame.engine.State(), frame.stack, old(frame.deps), frame.deps,
               EvalTree(ParseFactor(tokens, old(pos)).tree, replies), out);
      if !out.Ok? {
        return;
      }
      ghost var left := ParseFactor(tokens, old(pos)).tree;
      while ProductOp(tokens[pos]).Some?
        invariant Ready() && Below() == replies && old(pos) < pos
        invariant out.Ok?
        invariant Ran(old(frame.engine.State()), frame.engine.State(), frame.stack, old(frame.deps), frame.deps,
                      EvalTree(left, replies), out)
        invariant ParseTerm(tokens, old(pos)) == TermTail(tokens, pos, left)
        decreases |tokens| - pos
      {
        var op := ProductOp(tokens[pos]).value;
        TermStep(tokens, pos, left, replies);
        ghost var s1, d1, r := frame.engine.State(), frame.deps, ParseFactor(tokens, pos + 1);
        RanKeeps(old(frame.engine.State()), s1, frame.stack, old(frame.deps), d1, EvalTree(left, replies), out);
        BinRun(op, left, r.tree, replies);
        pos := pos + 1;
        var right := Factor();
        RanKeeps(s1, frame.engine.State(), frame.stack, d1, frame.deps, EvalTree(r.tree, replies), right);
        ghost var l := out;
        out := if right.Ok? then Apply(op, out.value, right.value) else right;
        RanThen(old(frame.engine.State()), s1, frame.engine.State(), frame.stack, old(frame.deps), d1, frame.deps,
                EvalTree(left, replies), EvalTree(r.tree, replies), l, right, out);
        if !out.Ok? {
          return;
        }
        left := Bin(op, left, r.tree);
      }
    }

    method Expression() returns (out: Outcome)
      requires Ready()
      modifies this`pos, frame, frame.engine`memos
      ensures var p := ParseExpr(tokens, old(pos));
              && Ran(old(frame.engine.State()), frame.engine.State(), frame.stack, old(frame.deps), frame.deps,
                     EvalTree(p.tree, Below()), out)
              && (out.Ok? ==> p.ok && pos == p.pos)
      decreases |Idle(frame.engine.cells, frame.stack)|, 1, |tokens| - pos, 2
    {
      hide EvalTree, ParseTerm, ParseExpr, Ran, Sound, StackOk, Grows;
      ghost var replies := Below();
      ExprStart(tokens, pos, replies);
      out := Term();
      RanKeeps(old(frame.engine.State()), frame.engine.State(), frame.stack, old(frame.deps), frame.deps,
               EvalTree(ParseTerm(tokens, old(pos)).tree, replies), out);
      if !out.Ok? {
        return;
      }
      ghost var left := ParseTerm(tokens, old(pos)).tree;
      while SumOp(tokens[pos]).Some?
        invariant Ready() && Below() == replies && old(pos) < pos
        invariant out.Ok?
        invariant Ran(old(frame.engine.State()), frame.engine.State(), frame.stack, old(frame.deps), frame.deps,
                      EvalTree(left, replies), out)
        invariant ParseExpr(tokens, old(pos)) == ExprTail(tokens, pos, left)
        decreases |tokens| - pos
      {
        var op := SumOp(tokens[pos]).value;
        ExprStep(tokens, pos, left, replies);
        ghost var s1, d1, r := frame.engine.State(), frame.deps, ParseTerm(tokens, pos + 1);
        RanKeeps(old(frame.engine.State()), s1, frame.stack, old(frame.deps), d1, EvalTree(left, replies), out);
        BinRun(op, left, r.tree, replies);
        pos := pos + 1;
        var right := Term();
        RanKeeps(s1, frame.engine.State(), frame.stack, d1, frame.deps, EvalTree(r.tree, replies), right);
        ghost var l := out;
        out := if right.Ok? then Apply(op, out.value, right.value) else right;
        RanThen(old(frame.engine.State()), s1, frame.engine.State(), frame.stack, old(frame.deps), d1, frame.deps,
                EvalTree(left, replies), EvalTree(r.tree, replies), l, right, out);
        if !out.Ok? {
          return;
        }
        left := Bin(op, left, r.tree);
      }
    }
  }

  class FormulaEngine {
    var source: Source
    var cells: set<CellRef>
    var formulas: set<string>
    var epochs: map<Key, nat>
    var revision: nat
    var memos: map<Key, Memo>

    ghost function State(): EngineState
      reads this
    {
      EngineState(source, cells, formulas, epochs, revision, memos)
    }

    constructor ()
      ensures Sound(State()) && source == map[]
    {
      source, cells, formulas := map[], {}, {};
      epochs, revision, memos := map[], 0, map[];
    }

    // -------------------------------------------------------------- queries

    /** `evaluate_formula_source`: trim, take the equals sign, tokenize, parse, expect the end. */
    method EvaluateFormula(formula: string, frame: QueryFrame) returns (out: Outcome)
      requires frame.engine == this && frame.Ready()
      modifies frame, this`memos
      ensures Ran(old(State()), State(), frame.stack, old(frame.deps), frame.deps,
                  EvalTree(FormulaTree(formula), Answers(source, frame.stack)), out)
      decreases |Idle(cells, frame.stack)|, 2, 0, 0
    {
      hide Sound, StackOk, Grows, Ran, Scan, ParseExpr, EvalTree;
      ghost var s0, d0, replies := State(), frame.deps, Answers(source, frame.stack);
      FormulaRun(formula, replies);
      var text := Trim(formula);
      if text == [] || text[0] != '=' {
        RanNothing(s0, frame.stack, d0, Fail(MissingEquals));
        return Fail(MissingEquals);
      }
      var scanned := Tokenize(text[1..]);
      ScanTerminated(text[1..]);
      if scanned.Failure? {
        RanNothing(s0, frame.stack, d0, Fail(scanned.error));
        return Fail(scanned.error);
      }
      var parser := new Parser(frame, scanned.value);
      out := parser.Expression();
      ghost var run := EvalTree(ParseExpr(scanned.value, 0).tree, replies);
      RanKeeps(s0, State(), frame.stack, d0, frame.deps, run, out);
      if out.Ok? && parser.tokens[parser.pos] != End {
        ghost var value := out;
        out := Fail(TrailingToken(parser.tokens[parser.pos]));
        RanTurns(s0, State(), frame.stack, d0, frame.deps, run, value, out);
      }
    }

    /** `eval_cell_query`: observe the epoch, look the content up, and evaluate a formula below. */
    method EvalCellQuery(cell: CellRef, frame: QueryFrame) returns (out: Outcome)
      requires frame.engine == this && frame.deps == []
      requires Sound(State()) && Clear(State(), frame.stack)
      requires cell in source ==> frame.Ready()
      modifies frame, this`memos
      ensures Grows(old(State()), State()) && Clear(State(), frame.stack)
      ensures QueryRan(State(), CellKey(cell), frame.stack, frame.deps, out)
      decreases |Idle(cells, frame.stack)|, 3, 0, 0
    {
      frame.ObserveEpoch(CellKey(cell));
      ghost var head := frame.deps;
      RecordedNothing(State(), head);
      if cell in source {
        match source[cell]
        case NumberCell(value) => out := Ok(value);
        case FormulaCell(formula) => out := EvaluateFormula(formula, frame);
        case _ => out := Fail(NonNumericCell(cell));
      } else {
        out := Fail(NonNumericCell(cell));
      }
      ghost var run := EvalTree(KeyTree(source, CellKey(cell)), Answers(source, frame.stack));
      assert out == run.outcome;
      if !out.Cycle? {
        assert Recorded(State(), head, frame.deps, run.used);
        assert frame.deps[0] == frame.deps[..1][0] == head[0];
      }
    }

    method EvalFormulaQuery(formula: string, frame: QueryFrame) returns (out: Outcome)
      requires frame.engine == this && frame.deps == [] && frame.Ready()
      modifies frame, this`memos
      ensures Grows(old(State()), State()) && Clear(State(), frame.stack)
      ensures QueryRan(State(), FormulaKey(formula), frame.stack, frame.deps, out)
      decreases |Idle(cells, frame.stack)|, 3, 0, 0
    {
      out := EvaluateFormula(formula, frame);
      assert frame.deps[0..] == frame.deps;
    }

    /** Rechecks one recorded read. */
    method RecheckRead(d: Dep, stack: seq<Key>) returns (verdict: Verdict)
      requires Sound(State()) && StackOk(State(), stack) && IsCellDep(d)
      modifies this`memos
      ensures Grows(old(State()), State()) && StackOk(State(), stack)
      ensures verdict.Unchanged? ==> Backed(State(), d)
      ensures verdict.Broken? ==> FreshCell(source, d.cell, stack) == Cycle(verdict.path)
      decreases |Idle(cells, stack)|, 3, 0, 0
    {
      match d
      case ReadDep(cell, value) =>
        var r := Verify(CellKey(cell), stack);
        match r {
          case Answer(now) =>
            assert SettledRight(State(), CellKey(cell));
            verdict := if now == value then Unchanged else FirstChanged;
          case CycleError(path) =>
            verdict := Broken(path);
          case UnknownQuery(_) =>
            verdict := FirstChanged;
        }
      case MissingDep(cell) =>
        verdict := if cell in cells then FirstChanged else Unchanged;
    }

    /** Rechecks recorded dependencies in order, stopping at the first that changed or broke. */
    method Recheck(key: Key, memo: Memo, stack: seq<Key>) returns (verdict: Verdict)
      requires Sound(State()) && StackOk(State(), stack) && key !in stack && MemoSound(State(), key, memo)
      requires !Settled(State(), key)
      modifies this`memos
      ensures Grows(old(State()), State()) && StackOk(State(), stack) && !Settled(State(), key)
      ensures verdict.Unchanged? ==> EpochCurrent(State(), key, memo.deps)
                                     && AllBacked(State(), Body(key, memo.deps))
      ensures verdict.Broken? ==> FreshKey(source, key, stack) == Cycle(verdict.path)
      decreases |Idle(cells, stack + [key])|, 4, 0, 0
    {
      if key.CellKey? && EpochOf(epochs, key) != memo.deps[0].epoch {
        return FirstChanged;
      }
      var body := Body(key, memo.deps);
      var below := stack + [key];
      ClearSnoc(State(), stack, key);
      FreshKeyIsTree(source, key, stack);
      if body == [] {
        return Unchanged;
      }
      RecheckReady(State(), key, memo, below);
      assert Replays(KeyTree(source, key), body, memo.value);
      hide Sound, StackOk, Grows, Backed, Replays, MemoSound, AllBacked, FreshKey, KeyTree, Body, EvalTree;
      NoneBacked(State());
      var i := 0;
      while i < |body|
        invariant 0 <= i <= |body|
        invariant Grows(old(State()), State()) && Sound(State()) && StackOk(State(), below)
        invariant source == old(source) && cells == old(cells) && epochs == old(epochs)
        invariant AllBacked(State(), body[..i])
        decreases |body| - i
      {
        ghost var before := State();
        verdict := RecheckRead(body[i], below);
        GrowsKeeps(before, State());
        GrowsTransitive(old(State()), before, State());
        if verdict.FirstChanged? {
          StackPrefix(State(), stack, key);
          return;
        }
        BackedGrows(before, State(), body[..i]);
        if verdict.Broken? {
          StackOkIsClear(State(), below);
          ReplayBreaks(State(), KeyTree(source, key), body, memo.value, below, i);
          StackPrefix(State(), stack, key);
          return;
        }
        AllBackedSnoc(State(), body, i);
        i := i + 1;
      }
      assert body[..i] == body;
      StackPrefix(State(), stack, key);
      return Unchanged;
    }

    /** Runs the registered query of a key and remembers the result unless it is a cycle. */
    method Rerun(key: Key, stack: seq<Key>) returns (out: Outcome)
      requires Sound(State()) && StackOk(State(), stack) && key !in stack && Known(State(), key)
      requires !Settled(State(), key)
      modifies this`memos
      ensures Grows(old(State()), State()) && StackOk(State(), stack)
      ensures out == FreshKey(source, key, stack)
      ensures !out.Cycle? ==> Settled(State(), key)
      decreases |Idle(cells, stack + [key])|, 4, 0, 0
    {
      var below := stack + [key];
      ClearSnoc(State(), stack, key);
      FreshKeyIsTree(source, key, stack);
      var frame := new QueryFrame(this, below);
      match key {
        case CellKey(cell) => out := EvalCellQuery(cell, frame);
        case FormulaKey(formula) => out := EvalFormulaQuery(formula, frame);
      }
      ghost var ran := State();
      ClearPrefix(State(), stack, key);
      if !out.Cycle? {
        RunGivesMemo(State(), key, stack, frame.deps, out);
        memos := memos[key := Memo(out, frame.deps, revision)];
        GrowsTransitive(old(State()), ran, State());
      }
    }

    /**
     Answers a key: a cycle if it is on the stack, the memo if it is settled, the memo again if its
     recorded reads are unchanged, and otherwise the query rerun. The answer is always the fresh one.
     */
    method Verify(key: Key, stack: seq<Key>) returns (r: QueryResult)
      requires Sound(State()) && StackOk(State(), stack)
      requires key.FormulaKey? ==> stack == []
      modifies this`memos
      ensures Grows(old(State()), State()) && StackOk(State(), stack)
      ensures !Known(State(), key) ==> r == UnknownQuery(key)
      ensures Known(State(), key) ==> r == ToResult(FreshKey(source, key, stack))
      ensures r.Answer? ==> Settled(State(), key)
      decreases |Idle(cells, stack)| + (if key.FormulaKey? then 1 else 0), 0, 0, 0
    {
      if key in stack {
        return CycleError(stack + [key]);
      }
      var known := match key case CellKey(cell) => cell in cells case FormulaKey(f) => f in formulas;
      if !known {
        return UnknownQuery(key);
      }
      if key in memos && memos[key].verifiedAt == revision {
        assert SettledRight(State(), key);
        return Answer(memos[key].value);
      }
      DescentShrinks(cells, stack, key);
      if key in memos {
        var memo := memos[key];
        var verdict := Recheck(key, memo, stack);
        ghost var checked := State();
        if verdict.Unchanged? {
          MemoSoundFrame(old(State()), State(), key, memo);
          RecheckGivesMemo(State(), key, memo, stack);
          memos := memos[key := memo.(verifiedAt := revision)];
          GrowsTransitive(old(State()), checked, State());
          return Answer(memo.value);
        } else if verdict.Broken? {
          return CycleError(verdict.path);
        }
        r := Refresh(key, stack);
        GrowsTransitive(old(State()), checked, State());
      } else {
        r := Refresh(key, stack);
      }
    }

    method Refresh(key: Key, stack: seq<Key>) returns (r: QueryResult)
      requires Sound(State()) && StackOk(State(), stack) && key !in stack && Known(State(), key)
      requires !Settled(State(), key)
      modifies this`memos
      ensures Grows(old(State()), State()) && StackOk(State(), stack)
      ensures r == ToResult(FreshKey(source, key, stack))
      ensures r.Answer? ==> Settled(State(), key)
      decreases |Idle(cells, stack + [key])|, 5, 0, 0
    {
      var out := Rerun(key, stack);
      return ToResult(out);
    }

    // -------------------------------------------------------------- registration and edits

    method EnsureCellQuery(cell: CellRef)
      requires Sound(State())
      modifies this`cells, this`revision
      ensures State() == RegisterCell(old(State()), cell) && Sound(State())
    {
      RegisterKeepsSound(State(), cell, "");
      if cell !in cells {
        cells := cells + {cell};
        revision := revision + 1;
      }
    }

    method EnsureFormulaQuery(formula: string)
      requires Sound(State())
      modifies this`formulas, this`revision
      ensures State() == RegisterFormula(old(State()), formula) && Sound(State())
    {
      RegisterKeepsSound(State(), CellRef(1, 1), formula);
      if formula !in formulas {
        formulas := formulas + {formula};
        revision := revision + 1;
      }
    }

    method InvalidateCell(cell: CellRef)
      modifies this`epochs, this`revision
      ensures State() == Invalidate(old(State()), cell)
    {
      epochs := epochs[CellKey(cell) := EpochOf(epochs, CellKey(cell)) + 1];
      revision := revision + 1;
    }

    /** `set_cell`: register, convert, store when different, and invalidate only a real change. */
    method SetCell(cell: CellRef, value: CellValue) returns (r: Result<(), FormulaFailure>)
      requires Sound(State())
      modifies this
      ensures Sound(State())
      ensures r.Success? <==> ToContent(value).Success?
      ensures r.Failure? ==> source == old(source) && r.error == ToContent(value).error
      ensures r.Success? ==> source == PutContent(old(source), cell, ToContent(value).value)
    {
      EnsureCellQuery(cell);
      var next := ToContent(value);
      if next.Failure? {
        return Failure(next.error);
      }
      ContentExact(value);
      EditCellKeepsSound(State(), cell, next.value);
      hide Sound;
      var changed: bool;
      match next.value {
        case Some(content) =>
          if cell in source && source[cell] == content {
            changed := false;
          } else {
            source := source[cell := content];
            changed := true;
          }
        case None =>
          changed := cell in source;
          source := source - {cell};
      }
      if changed {
        InvalidateCell(cell);
      }
      return Success(());
    }

    method RegisterAll(keys: set<CellRef>)
      requires Sound(State())
      modifies this`cells, this`revision
      ensures Sound(State()) && old(cells) + keys <= cells
    {
      var pending := keys;
      while pending != {}
        invariant Sound(State()) && old(cells) <= cells && keys <= cells + pending
        decreases pending
      {
        var cell :| cell in pending;
        EnsureCellQuery(cell);
        pending := pending - {cell};
      }
    }

    method InvalidateAll(changed: set<CellRef>)
      modifies this`epochs, this`revision
      ensures Invalidated(old(State()), State(), changed)
    {
      hide Invalidate;
      var rest := changed;
      NothingInvalidated(State(), changed - rest);
      while rest != {}
        invariant rest <= changed
        invariant Invalidated(old(State()), State(), changed - rest)
        decreases rest
      {
        var cell :| cell in rest;
        InvalidateOne(old(State()), State(), changed - rest, cell);
        InvalidateCell(cell);
        assert changed - (rest - {cell}) == changed - rest + {cell};
        rest := rest - {cell};
      }
      assert changed - rest == changed;
    }

    /** `replace_source`: register both key sets, swap the snapshot, invalidate what differs. */
    method ReplaceSource(next: Source)
      requires Sound(State()) && ExactSource(next)
      modifies this
      ensures Sound(State()) && source == next
    {
      var changed := Changed(source, next);
      RegisterAll(source.Keys + next.Keys);
      ghost var before := State();
      source := next;
      InvalidateAll(changed);
      EditKeepsSound(before, next, State());
    }

    /** `sync_sheet`: convert every cell; a number that cannot be reduced leaves the engine alone. */
    method SyncSheet(sheet: Cells) returns (r: Result<(), FormulaFailure>)
      requires Sound(State())
      modifies this
      ensures Sound(State())
      ensures r.Success? <==> Convertible(sheet)
      ensures r.Success? ==> source == Snapshot(sheet)
      ensures r.Failure? ==> source == old(source)
      ensures r.Failure? ==> exists c :: c in sheet && ToContent(sheet[c]) == Failure(r.error)
    {
      var next: Source := map[];
      var pending := sheet.Keys;
      while pending != {}
        invariant pending <= sheet.Keys && State() == old(State())
        invariant forall c :: c in sheet && c !in pending ==> ToContent(sheet[c]).Success?
        invariant forall c :: c in next <==>
          c in sheet && c !in pending && ToContent(sheet[c]).value.Some?
        invariant forall c :: c in next ==> next[c] == ToContent(sheet[c]).value.value
        decreases pending
      {
        var cell :| cell in pending;
        var content := ToContent(sheet[cell]);
        if content.Failure? {
          return Failure(content.error);
        }
        if content.value.Some? {
          next := next[cell := content.value.value];
        }
        pending := pending - {cell};
      }
      assert next == Snapshot(sheet);
      SnapshotExact(sheet);
      ReplaceSource(next);
      return Success(());
    }

    /** `eval_formula`: the persistent engine answers what an evaluation from scratch answers. */
    method EvalFormula(formula: string) returns (r: SheetResult)
      requires Sound(State())
      modifies this
      ensures Sound(State()) && source == old(source)
      ensures r == Report(FreshFormula(source, formula))
    {
      EnsureFormulaQuery(formula);
      var answer := Verify(FormulaKey(formula), []);
      FreshFormulaExact(source, formula);
      assert FreshKey(source, FormulaKey(formula), []) == FreshFormula(source, formula) by {
        assert [] + [FormulaKey(formula)] == [FormulaKey(formula)];
      }
      match answer
      case Answer(value) =>
        match value {
          case Ok(q) =>
            ReduceCanonical(q);
            r := NumberResult(Reduce(q.num, q.den));
          case Fail(failure) => r := DomainFailure(failure);
        }
      case CycleError(path) =>
        r := CycleReport(path);
    }
  }

  // ---------------------------------------------------------------- reports and sessions

  /** What a caller sees: a number, a domain failure, or a cycle that names a cell. */
  datatype SheetResult =
    | NumberResult(value: Rational)
    | DomainFailure(failure: FormulaFailure)
    | FormulaCycle(cell: CellRef)
    | UnnamedCycle

  /** `incremental_error_to_sheet_error`: the last cell of the path, looking backwards. */
  function CycleReport(path: seq<Key>): SheetResult {
    if path == [] then UnnamedCycle
    else match path[|path| - 1]
      case CellKey(cell) => FormulaCycle(cell)
      case FormulaKey(_) => CycleReport(path[..|path| - 1])
  }

  function Report(o: Outcome): SheetResult {
    match o
    case Ok(value) => NumberResult(value)
    case Fail(failure) => DomainFailure(failure)
    case Cycle(path) => CycleReport(path)
  }

  /** A reported cycle always names a cell, and that cell closes a walk of references. */
  lemma CycleNamesCell(src: Source, formula: string)
    requires FreshFormula(src, formula).Cycle?
    ensures var path := FreshFormula(src, formula).path;
            && path != [] && path[|path| - 1].CellKey?
            && Report(FreshFormula(src, formula)) == FormulaCycle(path[|path| - 1].cell)
            && ClosesSomewhere(src, path)
  {
    hide FreshFormula, RefersAlong, ClosesSomewhere;
    ReportedCycleIsReal(src, formula);
  }

  datatype Command =
    | Set(cell: CellRef, value: CellValue)
    | Sync(cells: Cells)
    | Eval(formula: string)

  /** The free function `eval_formula`: a fresh engine for one evaluation. */
  function EvalOnce(cells: Cells, formula: string): SheetResult
    requires Convertible(cells)
  {
    Report(FreshFormula(Snapshot(cells), formula))
  }

  /** The sheet a session has built: refused numbers leave it alone. */
  function CellsAfter(cells: Cells, command: Command): (after: Cells)
    requires Convertible(cells)
    ensures Convertible(after)
  {
    match command
    case Set(cell, value) => if ToContent(value).Success? then SetCell(cells, cell, value) else cells
    case Sync(next) => if Convertible(next) then next else cells
    case Eval(_) => cells
  }

  /** Every evaluation of a session done from scratch on the sheet of that moment. */
  function FreshAnswers(cells: Cells, commands: seq<Command>): seq<SheetResult>
    requires Convertible(cells)
    decreases |commands|
  {
    if commands == [] then []
    else
      var rest := FreshAnswers(CellsAfter(cells, commands[0]), commands[1..]);
      if commands[0].Eval? then [EvalOnce(cells, commands[0].formula)] + rest else rest
  }

  lemma CellsAfterSet(cells: Cells, cell: CellRef, value: CellValue)
    requires Convertible(cells)
    ensures Snapshot(CellsAfter(cells, Set(cell, value)))
         == if ToContent(value).Success? then PutContent(Snapshot(cells), cell, ToContent(value).value)
            else Snapshot(cells)
  {
    if ToContent(value).Success? {
      SnapshotOfSetCell(cells, cell, value);
    }
  }

  lemma CellsAfterSync(cells: Cells, next: Cells)
    requires Convertible(cells)
    ensures CellsAfter(cells, Sync(next)) == if Convertible(next) then next else cells
  {
  }

  lemma CellsAfterEval(cells: Cells, formula: string)
    requires Convertible(cells)
    ensures CellsAfter(cells, Eval(formula)) == cells
  {
  }

  method EvalFormulaOnce(cells: Cells, formula: string) returns (r: Result<SheetResult, FormulaFailure>)
    ensures Convertible(cells) ==> r == Success(EvalOnce(cells, formula))
    ensures !Convertible(cells) ==> r.Failure?
  {
    var engine := new FormulaEngine();
    var synced := engine.SyncSheet(cells);
    if synced.Failure? {
      return Failure(synced.error);
    }
    var value := engine.EvalFormula(formula);
    return Success(value);
  }

  /** Whole runs: one persistent engine gives exactly the answers of from-scratch evaluations. */
  method RunSession(commands: seq<Command>) returns (answers: seq<SheetResult>)
    ensures answers == FreshAnswers(map[], commands)
  {
    hide Sound, Report, FreshFormula, ToContent, CellsAfter;
    var engine := new FormulaEngine();
    answers := [];
    ghost var cells: Cells := map[];
    var i := 0;
    while i < |commands|
      invariant 0 <= i <= |commands|
      invariant fresh(engine) && Sound(engine.State())
      invariant Convertible(cells) && engine.source == Snapshot(cells)
      invariant FreshAnswers(map[], commands) == answers + FreshAnswers(cells, commands[i..])
      decreases |commands| - i
    {
      assert commands[i..][1..] == commands[i + 1..];
      match commands[i] {
        case Set(cell, value) =>
          var r := engine.SetCell(cell, value);
          CellsAfterSet(cells, cell, value);
        case Sync(next) =>
          var r := engine.SyncSheet(next);
          CellsAfterSync(cells, next);
        case Eval(formula) =>
          var answer := engine.EvalFormula(formula);
          answers := answers + [answer];
          CellsAfterEval(cells, formula);
      }
      cells := CellsAfter(cells, commands[i]);
      i := i + 1;
    }
  }
}
