/**
 The stated contract of the incremental engine, on values: memos with the reads they recorded, key
 epochs, a revision that every invalidation and every new registration advances. A memo settled at
 the current revision must answer what a fresh evaluation would answer.
 */
module EngineStates {
  import opened CellRefs
  import opened Evaluation
  import opened Formulas
  import opened Rationals
  import opened Sheets
  import opened Wrappers

  /** One dependency a query observed, in order. */
  datatype Dep =
    | EpochDep(key: Key, epoch: nat)
    | ReadDep(cell: CellRef, value: Outcome)
    | MissingDep(cell: CellRef)

  datatype Memo = Memo(value: Outcome, deps: seq<Dep>, verifiedAt: nat)

  datatype EngineState = EngineState(
    source: Source,
    cells: set<CellRef>,
    formulas: set<string>,
    epochs: map<Key, nat>,
    revision: nat,
    memos: map<Key, Memo>)

  function EpochOf(epochs: map<Key, nat>, key: Key): nat {
    if key in epochs then epochs[key] else 0
  }

  predicate Known(s: EngineState, key: Key) {
    match key
    case CellKey(cell) => cell in s.cells
    case FormulaKey(formula) => formula in s.formulas
  }

  /** What a key answers when nothing is remembered. */
  function FreshKey(src: Source, key: Key, stack: seq<Key>): Outcome {
    match key
    case CellKey(cell) => FreshCell(src, cell, stack)
    case FormulaKey(_) => EvalTree(KeyTree(src, key), Answers(src, stack + [key])).outcome
  }

  // ---------------------------------------------------------------- recorded reads

  predicate IsCellDep(d: Dep) {
    d.ReadDep? || d.MissingDep?
  }

  function DepReply(d: Dep): Outcome
    requires IsCellDep(d)
  {
    match d
    case ReadDep(_, value) => value
    case MissingDep(cell) => Fail(NonNumericCell(cell))
  }

  /** The dependencies are exactly these reads, in order. */
  ghost predicate ReadsAre(deps: seq<Dep>, used: seq<CellRef>) {
    && |deps| == |used|
    && forall i :: 0 <= i < |deps| ==> IsCellDep(deps[i]) && deps[i].cell == used[i]
  }

  /** The replies give every recorded read the recorded answer. */
  ghost predicate AnswersAsRecorded(replies: Replies, deps: seq<Dep>) {
    forall i :: 0 <= i < |deps| && IsCellDep(deps[i]) ==> Reply(replies, deps[i].cell) == DepReply(deps[i])
  }

  /** Running the tree against the recorded answers makes exactly the recorded reads. */
  ghost predicate Replays(t: Tree, deps: seq<Dep>, value: Outcome) {
    exists replies: Replies ::
      && AnswersAsRecorded(replies, deps)
      && EvalTree(t, replies).outcome == value
      && ReadsAre(deps, EvalTree(t, replies).used)
  }

  /** A cell query first observes its own epoch. */
  ghost predicate HeadObserved(key: Key, deps: seq<Dep>) {
    key.CellKey? ==> deps != [] && deps[0].EpochDep? && deps[0].key == key
  }

  function Body(key: Key, deps: seq<Dep>): seq<Dep> {
    if key.CellKey? && deps != [] then deps[1..] else deps
  }

  ghost predicate EpochCurrent(s: EngineState, key: Key, deps: seq<Dep>)
    requires HeadObserved(key, deps)
  {
    key.CellKey? ==> deps[0].epoch == EpochOf(s.epochs, key)
  }

  ghost predicate MemoSound(s: EngineState, key: Key, memo: Memo) {
    && !memo.value.Cycle?
    && HeadObserved(key, memo.deps)
    && (key.CellKey? ==> memo.deps[0].epoch <= EpochOf(s.epochs, key))
    && (forall i :: 0 <= i < |Body(key, memo.deps)| ==> IsCellDep(Body(key, memo.deps)[i]))
    && (EpochCurrent(s, key, memo.deps) ==> Replays(KeyTree(s.source, key), Body(key, memo.deps), memo.value))
  }

  // ---------------------------------------------------------------- settled memos

  /** Verified at the current revision, so returned without rechecking. */
  predicate Settled(s: EngineState, key: Key) {
    key in s.memos && s.memos[key].verifiedAt == s.revision
  }

  /** No key of the stack is settled: their evaluations are still under way. */
  ghost predicate Clear(s: EngineState, stack: seq<Key>) {
    forall i :: 0 <= i < |stack| ==> !Settled(s, stack[i])
  }

  ghost predicate SettledRight(s: EngineState, key: Key)
    requires key in s.memos
  {
    forall stack: seq<Key> :: Clear(s, stack) ==> FreshKey(s.source, key, stack) == s.memos[key].value
  }

  ghost predicate Sound(s: EngineState) {
    && s.source.Keys <= s.cells
    && ExactSource(s.source)
    && (forall k :: k in s.memos ==> Known(s, k) && s.memos[k].verifiedAt <= s.revision && MemoSound(s, k, s.memos[k]))
    && (forall k :: Settled(s, k) ==> SettledRight(s, k))
  }

  /** Only cells with content are evaluated into, so only they stay on a stack that is read from. */
  ghost predicate StackOk(s: EngineState, stack: seq<Key>) {
    && Clear(s, stack)
    && (forall i :: 0 <= i < |stack| && stack[i].CellKey? ==> stack[i].cell in s.source)
  }

  /** What evaluation may do to the engine: settle more keys, nothing else. */
  ghost predicate Grows(a: EngineState, b: EngineState) {
    && b == a.(memos := b.memos)
    && Sound(b)
    && (forall k :: Settled(a, k) ==> Settled(b, k) && b.memos[k].value == a.memos[k].value)
  }

  /** A recorded read that the current revision backs. */
  ghost predicate Backed(s: EngineState, d: Dep) {
    match d
    case ReadDep(cell, value) => Settled(s, CellKey(cell)) && s.memos[CellKey(cell)].value == value
    case MissingDep(cell) => cell !in s.cells
    case EpochDep(_, _) => false
  }

  ghost predicate AllBacked(s: EngineState, deps: seq<Dep>) {
    forall i :: 0 <= i < |deps| ==> Backed(s, deps[i])
  }

  lemma BackedGrows(a: EngineState, b: EngineState, deps: seq<Dep>)
    requires Grows(a, b) && AllBacked(a, deps)
    ensures AllBacked(b, deps)
  {
  }

  lemma AllBackedAnswers(s: EngineState, deps: seq<Dep>, stack: seq<Key>)
    requires Sound(s) && Clear(s, stack) && AllBacked(s, deps)
    ensures AnswersAsRecorded(Answers(s.source, stack), deps)
  {
    forall i | 0 <= i < |deps|
      ensures IsCellDep(deps[i]) && Reply(Answers(s.source, stack), deps[i].cell) == DepReply(deps[i])
    {
      assert Backed(s, deps[i]);
      AnswerIsFresh(s.source, stack, deps[i].cell);
    }
  }

  /** Dependencies grew by exactly these reads, all backed. */
  ghost predicate Recorded(s: EngineState, before: seq<Dep>, after: seq<Dep>, used: seq<CellRef>) {
    && |before| <= |after| && after[..|before|] == before
    && ReadsAre(after[|before|..], used)
    && AllBacked(s, after[|before|..])
  }

  lemma RecordedNothing(s: EngineState, deps: seq<Dep>)
    ensures Recorded(s, deps, deps, [])
  {
  }

  lemma RecordedOne(s: EngineState, deps: seq<Dep>, d: Dep)
    requires Backed(s, d)
    ensures IsCellDep(d) && Recorded(s, deps, deps + [d], [d.cell])
  {
  }

  lemma RecordedThen(s: EngineState, s': EngineState, a: seq<Dep>, b: seq<Dep>, c: seq<Dep>,
                     first: seq<CellRef>, second: seq<CellRef>)
    requires Grows(s, s') && Recorded(s, a, b, first) && Recorded(s', b, c, second)
    ensures Recorded(s', a, c, first + second)
  {
    assert c[..|a|] == c[..|b|][..|a|] == a;
    var x, y := b[|a|..], c[|b|..];
    assert c[|a|..] == x + y by { assert c == b + y; }
    BackedGrows(s, s', x);
  }

  /**
   What evaluating part of a formula does: the outcome is that of a fresh run, and unless it is a
   cycle the frame has recorded exactly the reads of that run.
   */
  ghost predicate Ran(s: EngineState, s': EngineState, stack: seq<Key>, before: seq<Dep>, after: seq<Dep>,
                      run: Run, out: Outcome)
  {
    && Grows(s, s') && StackOk(s', stack)
    && out == run.outcome
    && (!out.Cycle? ==> Recorded(s', before, after, run.used))
  }

  lemma RanKeeps(s: EngineState, s': EngineState, stack: seq<Key>, before: seq<Dep>, after: seq<Dep>,
                 run: Run, out: Outcome)
    requires Ran(s, s', stack, before, after, run, out)
    ensures s' == s.(memos := s'.memos) && Sound(s') && StackOk(s', stack)
    ensures out == run.outcome
  {
  }

  /** Nothing was read. */
  lemma RanNothing(s: EngineState, stack: seq<Key>, deps: seq<Dep>, out: Outcome)
    requires Sound(s) && StackOk(s, stack)
    ensures Ran(s, s, stack, deps, deps, Run(out, []), out)
  {
    RecordedNothing(s, deps);
  }

  /** A number turned into another outcome without reading anything more. */
  lemma RanTurns(s: EngineState, s': EngineState, stack: seq<Key>, before: seq<Dep>, after: seq<Dep>,
                 run: Run, value: Outcome, out: Outcome)
    requires Ran(s, s', stack, before, after, run, value) && value.Ok? && !out.Cycle?
    ensures Ran(s, s', stack, before, after, Run(out, run.used), out)
  {
  }

  lemma StackOkIsClear(s: EngineState, stack: seq<Key>)
    requires StackOk(s, stack)
    ensures Clear(s, stack)
  {
  }

  lemma NoneBacked(s: EngineState)
    ensures AllBacked(s, [])
  {
  }

  lemma AllBackedSnoc(s: EngineState, deps: seq<Dep>, i: nat)
    requires i < |deps| && AllBacked(s, deps[..i]) && Backed(s, deps[i])
    ensures AllBacked(s, deps[..i + 1])
  {
    assert deps[..i + 1] == deps[..i] + [deps[i]];
  }

  lemma GrowsKeeps(a: EngineState, b: EngineState)
    requires Grows(a, b)
    ensures b == a.(memos := b.memos) && Sound(b)
  {
  }

  lemma ClearPrefix(s: EngineState, stack: seq<Key>, key: Key)
    requires Clear(s, stack + [key])
    ensures Clear(s, stack) && !Settled(s, key)
  {
    var below := stack + [key];
    assert below[|stack|] == key;
    assert forall i :: 0 <= i < |stack| ==> below[i] == stack[i];
  }

  lemma StackPrefix(s: EngineState, stack: seq<Key>, key: Key)
    requires StackOk(s, stack + [key])
    ensures StackOk(s, stack) && !Settled(s, key)
  {
    ClearPrefix(s, stack, key);
    var below := stack + [key];
    assert forall i :: 0 <= i < |stack| ==> below[i] == stack[i];
  }

  lemma GrowsTransitive(a: EngineState, b: EngineState, c: EngineState)
    requires Grows(a, b) && Grows(b, c)
    ensures Grows(a, c)
  {
  }

  /** A part that finished with a number, then another part. */
  lemma RanThen(s0: EngineState, s1: EngineState, s2: EngineState, stack: seq<Key>,
                d0: seq<Dep>, d1: seq<Dep>, d2: seq<Dep>, first: Run, second: Run, o1: Outcome, o2: Outcome,
                out: Outcome)
    requires Ran(s0, s1, stack, d0, d1, first, o1) && !o1.Cycle?
    requires Ran(s1, s2, stack, d1, d2, second, o2)
    requires if o2.Ok? then !out.Cycle? else out == o2
    ensures Ran(s0, s2, stack, d0, d2, Run(out, first.used + second.used), out)
  {
    GrowsTransitive(s0, s1, s2);
    if !o2.Cycle? {
      RecordedThen(s1, s2, d0, d1, d2, first.used, second.used);
    }
  }

  // ---------------------------------------------------------------- rechecking and settling

  /** A finished query: its outcome is fresh, and unless it is a cycle its frame is a sound memo. */
  ghost predicate QueryRan(s: EngineState, key: Key, stack: seq<Key>, deps: seq<Dep>, out: Outcome) {
    var run := EvalTree(KeyTree(s.source, key), Answers(s.source, stack));
    && out == run.outcome
    && (!out.Cycle? ==>
          && HeadObserved(key, deps) && EpochCurrent(s, key, deps)
          && ReadsAre(Body(key, deps), run.used)
          && AllBacked(s, Body(key, deps)))
  }

  /** A memo found unchanged is fresh and may be settled. */
  lemma RecheckGivesMemo(s: EngineState, key: Key, memo: Memo, stack: seq<Key>)
    requires Sound(s) && Known(s, key) && StackOk(s, stack) && key !in stack && !Settled(s, key)
    requires MemoSound(s, key, memo) && EpochCurrent(s, key, memo.deps) && AllBacked(s, Body(key, memo.deps))
    ensures FreshKey(s.source, key, stack) == memo.value
    ensures var s' := s.(memos := s.memos[key := memo.(verifiedAt := s.revision)]);
            Grows(s, s') && Settled(s', key) && StackOk(s', stack)
  {
    SettledKeyRight(s, key, memo, stack);
    MemoSoundFrame(s, s, key, memo);
    SettleKeepsSound(s, key, memo.(verifiedAt := s.revision));
    SettleKeepsStack(s, key, memo.(verifiedAt := s.revision), stack);
  }

  lemma SettleKeepsStack(s: EngineState, key: Key, memo: Memo, stack: seq<Key>)
    requires StackOk(s, stack) && key !in stack
    ensures StackOk(s.(memos := s.memos[key := memo]), stack)
  {
    forall i | 0 <= i < |stack|
      ensures !Settled(s.(memos := s.memos[key := memo]), stack[i])
    {
      assert !Settled(s, stack[i]) && stack[i] != key;
    }
  }

  lemma RunGivesMemo(s: EngineState, key: Key, stack: seq<Key>, deps: seq<Dep>, out: Outcome)
    requires Sound(s) && Known(s, key) && StackOk(s, stack) && key !in stack && !Settled(s, key)
    requires QueryRan(s, key, stack + [key], deps, out) && !out.Cycle?
    ensures var s' := s.(memos := s.memos[key := Memo(out, deps, s.revision)]);
            Grows(s, s') && Settled(s', key) && StackOk(s', stack)
  {
    ClearSnoc(s, stack, key);
    SettleKeepsSound(s, key, Memo(out, deps, s.revision));
    SettleKeepsStack(s, key, Memo(out, deps, s.revision), stack);
  }

  /** If every recorded read is backed, the recorded value is the fresh one, below any clear stack. */
  lemma ReplayIsFresh(s: EngineState, t: Tree, deps: seq<Dep>, value: Outcome, stack: seq<Key>)
    requires Sound(s) && Clear(s, stack) && AllBacked(s, deps)
    requires Replays(t, deps, value) && !value.Cycle?
    ensures EvalTree(t, Answers(s.source, stack)).outcome == value
  {
    var a: Replies :| AnswersAsRecorded(a, deps) && EvalTree(t, a).outcome == value
                      && ReadsAre(deps, EvalTree(t, a).used);
    var b := Answers(s.source, stack);
    AllBackedAnswers(s, deps, stack);
    var used := EvalTree(t, a).used;
    forall i | 0 <= i < |used|
      ensures Reply(b, used[i]) == Reply(a, used[i])
    {
      assert IsCellDep(deps[i]) && deps[i].cell == used[i];
    }
    SameReadsSameRun(t, a, b);
  }

  /** If the reads before `i` are backed and read `i` is a cycle, evaluating afresh is that cycle. */
  lemma ReplayBreaks(s: EngineState, t: Tree, deps: seq<Dep>, value: Outcome, stack: seq<Key>, i: nat)
    requires Sound(s) && Clear(s, stack) && i < |deps| && AllBacked(s, deps[..i])
    requires Replays(t, deps, value) && !value.Cycle?
    requires IsCellDep(deps[i]) && FreshCell(s.source, deps[i].cell, stack).Cycle?
    ensures EvalTree(t, Answers(s.source, stack)).outcome == FreshCell(s.source, deps[i].cell, stack)
  {
    var a: Replies :| AnswersAsRecorded(a, deps) && EvalTree(t, a).outcome == value
                      && ReadsAre(deps, EvalTree(t, a).used);
    var b := Answers(s.source, stack);
    AllBackedAnswers(s, deps[..i], stack);
    var used := EvalTree(t, a).used;
    forall j | 0 <= j < i
      ensures Reply(b, used[..i][j]) == Reply(a, used[..i][j])
    {
      assert deps[..i][j] == deps[j];
      assert IsCellDep(deps[j]) && deps[j].cell == used[j];
    }
    AnswerIsFresh(s.source, stack, used[i]);
    FirstCycleDecides(t, a, b, i);
  }

  /** While a memo with reads is rechecked, its own key has content. */
  lemma RecheckReady(s: EngineState, key: Key, memo: Memo, stack: seq<Key>)
    requires MemoSound(s, key, memo) && EpochCurrent(s, key, memo.deps)
    requires Body(key, memo.deps) != []
    requires Clear(s, stack) && (forall i :: 0 <= i < |stack| && stack[i].CellKey? ==>
                                   stack[i].cell in s.source || stack[i] == key)
    ensures StackOk(s, stack)
  {
    if key.CellKey? {
      ReadingHasContent(s.source, key.cell, Body(key, memo.deps), memo.value);
    }
  }

  /** A query that read something has content. */
  lemma ReadingHasContent(src: Source, cell: CellRef, deps: seq<Dep>, value: Outcome)
    requires Replays(KeyTree(src, CellKey(cell)), deps, value) && deps != []
    ensures cell in src
  {
  }

  /** A key outside the stack is evaluated through its tree. */
  lemma FreshKeyIsTree(src: Source, key: Key, stack: seq<Key>)
    requires key !in stack
    ensures FreshKey(src, key, stack) == EvalTree(KeyTree(src, key), Answers(src, stack + [key])).outcome
  {
  }

  lemma ClearSnoc(s: EngineState, stack: seq<Key>, key: Key)
    requires Clear(s, stack) && !Settled(s, key)
    ensures Clear(s, stack + [key])
  {
  }

  /** Remembering a finished or rechecked query at the current revision keeps the engine sound. */
  lemma SettleKeepsSound(s: EngineState, key: Key, memo: Memo)
    requires Sound(s) && Known(s, key) && !Settled(s, key)
    requires memo.verifiedAt == s.revision && MemoSound(s, key, memo)
    requires EpochCurrent(s, key, memo.deps)
    requires AllBacked(s, Body(key, memo.deps))
    ensures Grows(s, s.(memos := s.memos[key := memo]))
    ensures Settled(s.(memos := s.memos[key := memo]), key)
  {
    var s' := s.(memos := s.memos[key := memo]);
    assert forall k :: Settled(s, k) ==> Settled(s', k);
    forall k | Settled(s', k)
      ensures SettledRight(s', k)
    {
      forall stack: seq<Key> | Clear(s', stack)
        ensures FreshKey(s'.source, k, stack) == s'.memos[k].value
      {
        assert Clear(s, stack);
        if k == key {
          SettledKeyRight(s, key, memo, stack);
          assert key in stack ==> !Settled(s', key);
        } else {
          assert SettledRight(s, k);
        }
      }
    }
    forall k | k in s'.memos
      ensures Known(s', k) && s'.memos[k].verifiedAt <= s'.revision && MemoSound(s', k, s'.memos[k])
    {
      MemoSoundFrame(s, s', k, s'.memos[k]);
    }
  }

  lemma SettledKeyRight(s: EngineState, key: Key, memo: Memo, stack: seq<Key>)
    requires Sound(s) && !Settled(s, key) && MemoSound(s, key, memo)
    requires EpochCurrent(s, key, memo.deps) && AllBacked(s, Body(key, memo.deps))
    requires Clear(s, stack)
    ensures key !in stack ==> FreshKey(s.source, key, stack) == memo.value
  {
    if key !in stack {
      ClearSnoc(s, stack, key);
      ReplayIsFresh(s, KeyTree(s.source, key), Body(key, memo.deps), memo.value, stack + [key]);
      FreshKeyIsTree(s.source, key, stack);
    }
  }

  /** Memo soundness looks only at the key's own content and epoch. */
  lemma MemoSoundFrame(a: EngineState, b: EngineState, key: Key, memo: Memo)
    requires MemoSound(a, key, memo)
    requires KeyTree(a.source, key) == KeyTree(b.source, key)
    requires EpochOf(a.epochs, key) == EpochOf(b.epochs, key)
    ensures MemoSound(b, key, memo)
  {
  }

  // ---------------------------------------------------------------- registration and edits

  /** Late registration: nothing is settled any more, so every dependent rechecks. */
  function RegisterCell(s: EngineState, cell: CellRef): EngineState {
    if cell in s.cells then s else s.(cells := s.cells + {cell}, revision := s.revision + 1)
  }

  function RegisterFormula(s: EngineState, formula: string): EngineState {
    if formula in s.formulas then s else s.(formulas := s.formulas + {formula}, revision := s.revision + 1)
  }

  function Invalidate(s: EngineState, cell: CellRef): EngineState {
    var key := CellKey(cell);
    s.(epochs := s.epochs[key := EpochOf(s.epochs, key) + 1], revision := s.revision + 1)
  }

  lemma RegisterKeepsSound(s: EngineState, cell: CellRef, formula: string)
    requires Sound(s)
    ensures Sound(RegisterCell(s, cell)) && Sound(RegisterFormula(s, formula))
  {
    if cell !in s.cells {
      var s' := RegisterCell(s, cell);
      forall k | k in s'.memos
        ensures Known(s', k) && MemoSound(s', k, s'.memos[k])
      {
        MemoSoundFrame(s, s', k, s'.memos[k]);
      }
    }
    if formula !in s.formulas {
      var s' := RegisterFormula(s, formula);
      forall k | k in s'.memos
        ensures Known(s', k) && MemoSound(s', k, s'.memos[k])
      {
        MemoSoundFrame(s, s', k, s'.memos[k]);
      }
    }
  }

  /** Cells whose content differs between two snapshots. */
  function Changed(a: Source, b: Source): set<CellRef> {
    set c | c in a.Keys + b.Keys && (c !in a || c !in b || a[c] != b[c])
  }

  /** Invalidating a set of cells advances each of their epochs, and the revision once for each. */
  ghost predicate Invalidated(s: EngineState, s': EngineState, cells: set<CellRef>) {
    && s' == s.(epochs := s'.epochs, revision := s'.revision)
    && s'.revision == s.revision + |cells|
    && (forall k :: EpochOf(s'.epochs, k) == EpochOf(s.epochs, k) + if k.CellKey? && k.cell in cells then 1 else 0)
  }

  lemma NothingInvalidated(s: EngineState, cells: set<CellRef>)
    requires cells == {}
    ensures Invalidated(s, s, cells)
  {
  }

  lemma InvalidateOne(s: EngineState, s': EngineState, cells: set<CellRef>, cell: CellRef)
    requires Invalidated(s, s', cells) && cell !in cells
    ensures Invalidated(s, Invalidate(s', cell), cells + {cell})
  {
  }

  /** A new snapshot is safe once every changed cell has been invalidated. */
  lemma EditKeepsSound(s: EngineState, src: Source, s': EngineState)
    requires Sound(s) && ExactSource(src) && src.Keys <= s.cells
    requires Invalidated(s.(source := src), s', Changed(s.source, src))
    ensures Sound(s')
  {
    hide MemoSound;
    if Changed(s.source, src) == {} {
      SameSource(s.source, src);
      SameEditKeepsSound(s, s');
    } else {
      assert |Changed(s.source, src)| > 0;
      forall k | k in s'.memos
        ensures MemoSound(s', k, s'.memos[k])
      {
        MemoAfterEdit(s, src, s', k);
      }
    }
  }

  /** An edit that changes nothing. */
  lemma SameEditKeepsSound(s: EngineState, s': EngineState)
    requires Sound(s)
    ensures Invalidated(s, s', {}) ==> Sound(s')
  {
    hide MemoSound, Invalidated;
    InvalidatedNothing(s, s');
    if Invalidated(s, s', {}) {
      forall k | k in s'.memos
        ensures MemoSound(s', k, s'.memos[k])
      {
        MemoSoundFrame(s, s', k, s'.memos[k]);
      }
      assert forall k :: Settled(s', k) ==> Settled(s, k);
      assert forall stack :: Clear(s', stack) ==> Clear(s, stack);
    }
  }

  lemma InvalidatedNothing(s: EngineState, s': EngineState)
    ensures Invalidated(s, s', {}) ==>
              && s' == s.(epochs := s'.epochs)
              && forall k :: EpochOf(s'.epochs, k) == EpochOf(s.epochs, k)
  {
  }

  lemma SameSource(a: Source, b: Source)
    requires Changed(a, b) == {}
    ensures a == b
  {
    forall c | c in a.Keys + b.Keys
      ensures c in a && c in b && a[c] == b[c]
    {
      assert c !in Changed(a, b);
    }
  }

  lemma MemoAfterEdit(s: EngineState, src: Source, s': EngineState, key: Key)
    requires Sound(s) && key in s.memos
    ensures Invalidated(s.(source := src), s', Changed(s.source, src)) ==> MemoSound(s', key, s.memos[key])
  {
    assert MemoSound(s, key, s.memos[key]);
    var changed := Changed(s.source, src);
    if Invalidated(s.(source := src), s', changed) && !(key.CellKey? && key.cell in changed) {
      MemoSoundFrame(s, s', key, s.memos[key]);
    }
  }

  /** One cell assigned: sound again once a real change has been invalidated. */
  lemma EditCellKeepsSound(s: EngineState, cell: CellRef, content: Option<Content>)
    requires Sound(s) && cell in s.cells
    requires content.Some? && content.value.NumberCell? ==> Canonical(content.value.value)
    ensures var src := PutContent(s.source, cell, content);
            if src == s.source then Sound(s.(source := src))
            else Sound(Invalidate(s.(source := src), cell))
  {
    var src := PutContent(s.source, cell, content);
    if src != s.source {
      assert Changed(s.source, src) == {cell} by {
        if Changed(s.source, src) == {} {
          SameSource(s.source, src);
        }
      }
      assert {} + {cell} == {cell};
      NothingInvalidated(s.(source := src), {});
      InvalidateOne(s.(source := src), s.(source := src), {}, cell);
      EditKeepsSound(s, src, Invalidate(s.(source := src), cell));
    }
  }
}
