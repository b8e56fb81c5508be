# Office models

Dafny models of the hard parts of four office components, with proofs. Each component is given
twice: as a specification on values (datatypes and functions), about which the main results are
proved, and, where the Rust code works step by step, as classes and loops whose contracts tie every
call to that specification.

## Components

**Sheet formulas.** `Formulas` holds the scanner and the single-pass grammar, `FormulaText` the
formulas as text, `UnspacedTexts` what happens without spaces, `Evaluation` the meaning of a formula
evaluated from scratch over exact rationals, with cycles, and `ParsedRuns` the step from parsed trees to evaluation while parsing. `EngineStates`
states the contract of the incremental engine on values and what keeps it sound; `Engine` holds the
query frame, the evaluating parser and the persistent engine as classes. `SheetReadings` says what each
kind of cell answers, down to sessions, and `FormulaFaults` which texts are formulas and which error
every other one gives. The main result is `RunSession`: over every sequence of edits, synchronisations and evaluations the persistent engine
and a fresh evaluation give the same answers.

**Gantt scheduling.** `Graphs` and `Kahn` hold walks, cycles and the topological sort over counters
and a queue; `Schedules` says what earliest and latest starts, slack and critical chains mean, with no
reference to how they are computed; `CriticalPath` holds the two passes over arrays and
`critical_tasks`; `CriticalPlans` states the results in terms of links and days. `GanttPlans` is
plan validation. `GanttStore` holds the three tables, their keys, and saving and loading a plan.

**Source library.** `LibraryStates` is the state machine of editions, verified spans, annotations and
the derived index, with quotation ceilings; `SourceLibraries` is the class whose methods follow it, and
`LibraryRules` says in plain words what is accepted, what is fresh and what a refusal means.

**Codecs and coordinates.** `CellRefs` (A1 notation), `Decimals` (two decimal conversions),
`Xml` and `XmlSearch` (element trees, escaping, search), `OdsTables`, `OdsRoundTrip` and `OdsCodec`
(the positional table), `DeckPackages`, `DeckShapes`, `DeckRoundTrip` and `DeckCodec` (the presentation
package), `ZipEntries` (bounded extraction), `SheetExprs` and `SheetEdits` (documents and reversible
edits). What is read from documents other programs wrote is said by their attributes and places alone in
`OdsForeign` and `OdsPlaces` (tables), `DeckReadings` (presentations: slides, losses, refusals) and
`SheetDecodings` (document expressions); `DeckDisplay` says what a written slide shows to others.
`XmlNames` is attribute lookup. `Text`, `Rationals`, `CellOrder`, `Collections` and `Wrappers` are shared.

## Assumptions

- The incremental engine is an external crate. Its contract is written out as the class
  `FormulaEngine`: memos hold a value and its reads in order; verifying rechecks them in order and
  reruns the query at the first that changed; registration and invalidation make dependents recheck;
  a key already on the stack is a cycle, and cycles are not remembered.
- `parse_rational_parts` reduces by the greatest common divisor and leaves a positive denominator;
  it refuses a zero denominator (`Rationals.Reduce`, `Rationals.FromParts`).
- `neighbors` of the graph crate gives one entry for every outgoing edge, parallel edges included.
  Its strongly connected components come into `CriticalTasks` as a parameter that must be right.
- A selector verifies exactly when it names the representation and its exact text is that slice.
- Dates are days of the years -9999 to 9999, the calendar crate's range without its large-dates option.
- The relational provider runs a transaction all or nothing and may fail before any statement or at
  the commit; it may refuse any query, for its row limits among other reasons.
- An integer literal is an optional sign and digits.
- Expressions stored in a document body read back unchanged; a symbol is a namespace and a name.
- Machine arithmetic in the table and presentation codecs is given for both kinds of build: one with
  overflow checks stops where a u32 leaves its range, any other wraps (`Text.Build`).

## Findings

Where a property first expected of the code is false, the exact condition is proved.

- Text without spaces: an expression reads back exactly when it never divides one slash-free literal
  by another (`UnspacedTexts.UnspacedPrintedIff`). For `cell/a/b` the trees always differ; when the
  outcomes do is `UnspacedTexts.QuotientReadingsAgreeIff`.
- A plan can have an empty critical list (`CriticalPlans.StartStartCanLeaveNothingCritical`); it is
  empty exactly when no sink ends last (`CriticalPlans.EmptyListIff`).
- The two decimal conversions accept different texts, exactly as `Decimals.AcceptanceDiffersIff`
  says: cells read `.5`, `5.`, `0. 5` and even `0.-5` as numbers. Where both accept, they differ only
  for a non-zero fraction of 2^32 digits or more (`Decimals.ConversionsAgreeIff`), a length no JSON
  number reaches in practice.
- Extraction could cut a stream short only when both byte limits are the u64 maximum and the stream
  is longer than that (`ZipEntries.EntryWholeIff`; `ZipEntries.UnlimitedCanCut` writes such an entry
  down). No memory holds such a stream, so this is a limit of the arithmetic and nothing the code does.
- A removed span id can be admitted again in another text, which then carries the notes of the old
  one (`LibraryStates.AdoptedByOtherText`).
- In a build with overflow checks, a cell in the last u32 row or column stops the table encoder
  (`OdsRoundTrip.EncodeOverflowIff`) and a slide of more than 8257 blocks the presentation encoder
  (`DeckRoundTrip.DeckFitsIff`). Other builds wrap, write them and read them back.
- Formulas with no or several leading equals signs come back with one
  (`OdsRoundTrip.SheetRoundTripIff`); empty strings drop out of lists and tables
  (`DeckRoundTrip.DeckExactIff`).

## Model

| member | source | states |
|---|---|---|
| Engine.RunSession | crates/sim-lib-sheet/src/formula.rs:51-159 | over any sequence of `set_cell`, `sync_sheet` and `eval_formula` calls, the one persistent engine answers every evaluation exactly as an evaluation from scratch on the sheet of that moment would: same number, same domain failure, or a cycle naming the same cell |
| Engine.EvalFormulaOnce | crates/sim-lib-sheet/src/formula.rs:18-21 | the free function builds a fresh engine, fails exactly when some number of the sheet cannot be reduced, and otherwise gives the from-scratch answer |
| Engine.FormulaEngine.EvalFormula | crates/sim-lib-sheet/src/formula.rs:91-100 | on a sound engine the answer is the fresh one and the engine stays sound, whatever was remembered |
| Engine.FormulaEngine.Verify | crates/sim-lib-sheet/src/formula.rs:91-100 | a key is answered by a cycle if it is on the stack, by its memo if settled or if its recorded reads recheck unchanged, else by rerunning; in every case the answer equals the fresh evaluation below the same stack |
| Engine.FormulaEngine.Recheck | crates/sim-lib-sheet/src/formula.rs:463-479 | recorded reads are rechecked in order up to the first that changed or closed a cycle; the verdict says which, and an unchanged memo is fresh |
| Engine.FormulaEngine.Rerun | crates/sim-lib-sheet/src/formula.rs:134-159 | running a registered query gives the fresh outcome and remembers it unless it is a cycle |
| Engine.FormulaEngine.EvalCellQuery | crates/sim-lib-sheet/src/formula.rs:303-332 | a cell query observes its epoch, looks its content up and evaluates a formula below; its outcome is fresh and its recorded reads are exactly those made |
| Engine.FormulaEngine.EvaluateFormula | crates/sim-lib-sheet/src/formula.rs:481-498 | trimming, the equals sign, scanning, one expression and the end: the outcome is that of the formula's tree, read for read |
| Engine.FormulaEngine.SetCell | crates/sim-lib-sheet/src/formula.rs:62-88 | registers the cell, refuses a number that cannot be reduced, stores a different value and invalidates only then; soundness is kept and the snapshot is the one-cell update |
| Engine.FormulaEngine.SyncSheet | crates/sim-lib-sheet/src/formula.rs:51-59 | converts every cell first; one refusal leaves the engine as it was, otherwise the snapshot becomes the sheet's and soundness is kept |
| Engine.FormulaEngine.ReplaceSource | crates/sim-lib-sheet/src/formula.rs:109-132 | every key of either snapshot is registered and exactly the differing cells are invalidated, which keeps the engine sound |
| Engine.QueryFrame.Read | crates/sim-lib-sheet/src/formula.rs:463-479 | a read answers the fresh value of the cell below this query and appends exactly that read to the frame |
| Engine.Parser.ReadCell | crates/sim-lib-sheet/src/formula.rs:463-479 | an unregistered cell is observed as missing and is not a number; any other answers its fresh value |
| Engine.Parser.Factor | crates/sim-lib-sheet/src/formula.rs:545-578 | evaluating while consuming tokens gives the run of the parsed tree, records its reads in order and never steps over `End` |
| Engine.Parser.Term | crates/sim-lib-sheet/src/formula.rs:526-543 | the product loop is the left-associative tree's run |
| Engine.Parser.Expression | crates/sim-lib-sheet/src/formula.rs:507-524 | the sum loop is the left-associative tree's run |
| Engine.CycleNamesCell | crates/sim-lib-sheet/src/formula.rs:344-359 | a reported cycle names the last cell of its path, and from an earlier place the path is a closed walk of references through that cell |
| EngineStates.ReplayIsFresh | crates/sim-lib-sheet/src/formula.rs:463-479 | if every recorded read is still answered as recorded, the remembered value is what evaluating now would give, below any stack whose keys are not settled |
| EngineStates.ReplayBreaks | crates/sim-lib-sheet/src/formula.rs:463-479 | if the reads before one hold and that one closes a cycle, evaluating now is that very cycle |
| EngineStates.SettleKeepsSound | crates/sim-lib-sheet/src/formula.rs:134-159 | remembering a finished or rechecked query at the current revision keeps every settled memo right |
| EngineStates.RegisterKeepsSound | crates/sim-lib-sheet/src/formula.rs:134-159 | late registration unsettles everything, so a query registered after its readers cannot leave a stale answer |
| EngineStates.EditKeepsSound | crates/sim-lib-sheet/src/formula.rs:109-132 | a new snapshot is safe once every cell that differs has been invalidated |
| EngineStates.EditCellKeepsSound | crates/sim-lib-sheet/src/formula.rs:62-88 | one assignment is safe when a real change, and only that, is invalidated |
| ParsedRuns.FormulaRun | crates/sim-lib-sheet/src/formula.rs:481-498 | evaluating a formula on the fly equals evaluating its tree, including scanning errors and text after the expression |
| ParsedRuns.TermStep | crates/sim-lib-sheet/src/formula.rs:526-543 | one round of the product loop is one more left operand of the tree |
| ParsedRuns.ExprStep | crates/sim-lib-sheet/src/formula.rs:507-524 | one round of the sum loop is one more left operand of the tree |
| ParsedRuns.BrokenExprFails | crates/sim-lib-sheet/src/formula.rs:507-587 | a token list that ends in a syntax error never evaluates to a number, whatever the cells answer |
| Evaluation.EvalTreeExact | crates/sim-lib-sheet/src/formula.rs:236-260 | a tree evaluates to a number exactly when its real value is defined; the number is then in lowest terms with a positive denominator and denotes that real value |
| Evaluation.FreshFormulaExact | crates/sim-lib-sheet/src/formula.rs:196-260 | over a reduced snapshot a formula's number is the exact real value of its tree over the cells it reads |
| Evaluation.FreshCanonical | crates/sim-lib-sheet/src/formula.rs:183-194 | every number a cell answers is in lowest terms |
| Evaluation.SameReadsSameRun | crates/sim-lib-sheet/src/formula.rs:463-479 | two worlds that agree on the cells actually read give the same outcome and the same reads |
| Evaluation.FirstCycleDecides | crates/sim-lib-sheet/src/formula.rs:463-479 | when the first reads answer as recorded and the next one is a cycle, the whole evaluation is that cycle |
| Evaluation.CyclePath | crates/sim-lib-sheet/src/formula.rs:303-359 | evaluation ends on every sheet; a cycle below a stack of distinct keys grows that stack by a chain of references until a cell on it repeats |
| Evaluation.ReportedCycleIsReal | crates/sim-lib-sheet/src/formula.rs:303-359 | a reported path starts at the formula, follows references, repeats nothing before its last key, and its last key closes a walk of references |
| Sheets.SnapshotOfSetCell | crates/sim-lib-sheet/src/formula.rs:62-88 | assigning one cell of a convertible sheet changes the engine snapshot at that cell only, and blanks vanish |
| SheetReadings.ConvertibleIff | crates/sim-lib-sheet/src/formula.rs:216-227 | a sheet can be read exactly when no number cell has a zero denominator |
| SheetReadings.NumberCellReads | crates/sim-lib-sheet/src/formula.rs:183-227 | a cell holding a number with a non-zero denominator answers that very ratio, in lowest terms, below any stack that does not hold it |
| SheetReadings.OtherCellReads | crates/sim-lib-sheet/src/formula.rs:303-332 | a text, truth value, blank or absent cell answers that it is not a number, and names itself |
| SheetReadings.FormulaCellReads | crates/sim-lib-sheet/src/formula.rs:303-332 | a cell holding a formula answers what the formula's tree gives below the stack with that cell on it |
| SheetReadings.RepeatedCellReads | crates/sim-lib-sheet/src/formula.rs:344-359 | a cell already on the stack answers the cycle that ends with it |
| SheetReadings.ReadingIsReference | crates/sim-lib-sheet/src/formula.rs:463-498 | the formula `= cell` asks for that one cell and nothing else |
| SheetReadings.ReadingAnswers | crates/sim-lib-sheet/src/formula.rs:18-21 | evaluating `= cell` once gives the exact number the sheet holds there, or says that the cell is not a number |
| SheetReadings.SessionReads | crates/sim-lib-sheet/src/formula.rs:51-159 | after any commands, assigning a cell and evaluating `= cell` answers by the value assigned: its exact number, or that it is not a number |
| SheetReadings.SessionRefuses | crates/sim-lib-sheet/src/formula.rs:51-88 | after any commands, assigning a number with a zero denominator is refused and changes no later answer |
| SheetReadings.OperationOutcome | crates/sim-lib-sheet/src/formula.rs:236-260 | an operation on two numbers gives the exact real result in lowest terms, a zero divisor is the failure, and the first failing operand decides |
| Formulas.Tokenize | crates/sim-lib-sheet/src/formula.rs:378-453 | the scanning loop equals the recursive scan of the whole text: same tokens or same failure |
| Formulas.ScanTerminated | crates/sim-lib-sheet/src/formula.rs:378-453 | a scanned list is not empty and ends with `End`, and holds it only there |
| Formulas.ParsePrinted | crates/sim-lib-sheet/src/formula.rs:500-596 | parsing the tokens of any printed expression tree consumes all of them and gives the tree back, left-associative, products before sums, parentheses only where needed |
| Formulas.ExprOfPrinted | crates/sim-lib-sheet/src/formula.rs:507-524 | the same at any position of a longer token list: the rule stops right after the printed expression |
| FormulaFaults.OperatorTexts | crates/sim-lib-sheet/src/formula.rs:507-578 | `= a + b` adds, `-` subtracts, `*` multiplies and `/` divides the two cells in the order written, and `= - a` negates |
| FormulaFaults.LiteralReads | crates/sim-lib-sheet/src/formula.rs:202-227 | digits are that whole number, digits over digits that fraction in lowest terms, and a zero below is refused with the literal as written |
| FormulaFaults.SpaceSkipped | crates/sim-lib-sheet/src/formula.rs:378-453 | ASCII white space between tokens is skipped |
| FormulaFaults.StrayCharacter | crates/sim-lib-sheet/src/formula.rs:378-453 | a character that starts no token is the failure reported |
| FormulaFaults.BadReference | crates/sim-lib-sheet/src/formula.rs:378-453 | letters and digits that are no cell reference are refused as one piece, as far as they go |
| FormulaFaults.EqualsMissing | crates/sim-lib-sheet/src/formula.rs:481-498 | without an equals sign first, white space aside, there is no formula |
| FormulaFaults.SyntaxFault | crates/sim-lib-sheet/src/formula.rs:507-596 | the parser accepts exactly the token lists that a counter of open groups accepts, and otherwise carries exactly the counter's first token out of place: a missing operand, a group left open or text after the expression |
| FormulaFaults.FaultDecides | crates/sim-lib-sheet/src/formula.rs:500-596 | a faulty formula never gives a number, and gives its first fault when everything before it is a number |
| FormulaText.ScanSpacedText | crates/sim-lib-sheet/src/formula.rs:378-453 | tokenizing plain tokens written with a space before each gives those tokens back |
| FormulaText.FormulaTextRoundTrip | crates/sim-lib-sheet/src/formula.rs:378-596 | reading the spaced text of a printed expression gives the same tree |
| FormulaText.UnspacedDivision | crates/sim-lib-sheet/src/formula.rs:409-425 | `cell/a/b` without spaces divides by the one literal `a/b`, with spaces it divides twice, and the two trees always differ |
| UnspacedTexts.UnspacedTokensIff | crates/sim-lib-sheet/src/formula.rs:378-453 | plain tokens written without spaces are read back exactly when no number follows an operand at once and no slash-free number is followed by a slash and a number |
| UnspacedTexts.UnspacedPrintedIff | crates/sim-lib-sheet/src/formula.rs:378-596 | an expression printed without spaces reads back, as tokens and as a tree, exactly when it never divides one slash-free literal by another |
| UnspacedTexts.QuotientReadingsAgreeIff | crates/sim-lib-sheet/src/formula.rs:250-260 | the two readings of `cell/a/b` come to the same outcome exactly when the cell answers no number, or `b` is not zero and `a` is zero, the cell is zero or `b` is one |
| Rationals.ReduceIsCanonical | crates/sim-lib-sheet/src/model.rs:242-257 | reducing any fraction with a non-zero denominator, negative ones included, gives lowest terms and a positive denominator, and keeps the ratio |
| Rationals.ReduceEqualIff | crates/sim-lib-sheet/src/model.rs:242-257 | two fractions reduce to the same rational exactly when their cross products agree |
| Rationals.ReduceDenotes | crates/sim-lib-sheet/src/model.rs:242-257 | the reduced fraction denotes the same real number |
| Rationals.CanonicalUnique | crates/sim-lib-sheet/src/model.rs:242-257 | a real number has at most one canonical rational |
| Rationals.RationalTextReads | crates/sim-lib-sheet/src/model.rs:223-240 | printing any numerator and denominator and reading the text back gives the reduced fraction, or nothing for a zero denominator |
| Rationals.RationalTextRoundTrip | crates/sim-lib-sheet/src/model.rs:223-240 | canonical text of a canonical rational reads back as that rational |
| CellRefs.PrintCell | crates/sim-lib-sheet/src/model.rs:52-66 | the letter loop and the backwards write give bijective base 26 and the decimal row |
| CellRefs.ParseCellText | crates/sim-lib-sheet/src/model.rs:68-109 | the one-pass parser equals the grammar on every text; no intermediate column leaves u32 unless the text is refused |
| CellRefs.CellTextRoundTrip | crates/sim-lib-sheet/src/model.rs:52-109 | printing any one-based u32 reference and parsing it gives it back |
| CellRefs.AcceptedTextNormalises | crates/sim-lib-sheet/src/model.rs:52-109 | an accepted text names a one-based cell whose printed form parses to the same cell |
| CellRefs.EitherCaseSame | crates/sim-lib-sheet/src/model.rs:68-109 | any text reads as the same text in upper case does, accepted or not |
| CellRefs.AcceptedTextPrints | crates/sim-lib-sheet/src/model.rs:52-109 | an accepted text prints as its letters in upper case followed by its row digits without leading zeros, white space aside |
| CellRefs.AcceptedTextIff | crates/sim-lib-sheet/src/model.rs:68-109 | a text is accepted as a cell exactly when, white space aside, it is letters of either case and digits that spell that cell's column and row |
| CellRefs.PrintedFormIff | crates/sim-lib-sheet/src/model.rs:52-109 | an accepted text is already the printed form exactly when it has no outer white space, only upper-case letters and no leading zero in the row |
| CellRefs.CellTextInjective | crates/sim-lib-sheet/src/model.rs:52-66 | distinct one-based references print differently |
| CellRefs.UpperLettersCanonical | crates/sim-lib-sheet/src/model.rs:52-66 | every upper-case letter run is the column text of its own value, so bijective base 26 has one spelling for each number |
| GanttPlans.ValidatePlan | crates/sim-lib-gantt/src/critical.rs:65-117 | accepts exactly the valid plans and returns their durations in order; a refusal names what is really wrong, an invalid field by the very field at fault |
| GanttPlans.ValidPlanIff | crates/sim-lib-gantt/src/critical.rs:65-117 | the plans that are valid, in plain words: visible names, percentages up to a hundred, no task that ends before it starts, no id twice, links between tasks of the plan |
| CriticalPath.WeightMeansLink | crates/sim-lib-gantt/src/critical.rs:240-247 | the start-to-start weight says the same as the link between the four dates, for all four kinds |
| CriticalPath.BuildGraph | crates/sim-lib-gantt/src/critical.rs:126-150 | one edge for each link, in link order, with the right endpoints and weight |
| CriticalPath.EnsureAcyclic | crates/sim-lib-gantt/src/critical.rs:152-174 | given right components, succeeds exactly on acyclic graphs; otherwise every task it names is on a cycle |
| Kahn.CountIndegrees | crates/sim-lib-gantt/src/critical.rs:176-180 | counters hold the number of incoming edges, parallel edges counted |
| Kahn.ReleaseOne | crates/sim-lib-gantt/src/critical.rs:190-197 | taking one edge off never underflows and queues its target exactly when it was the last one |
| Kahn.TopologicalOrder | crates/sim-lib-gantt/src/critical.rs:176-202 | returns every task once with every edge pointing forward, parallel edges included, and comes up short exactly when there is a directed cycle |
| Kahn.ShortOrderMeansCycle | crates/sim-lib-gantt/src/critical.rs:198-202 | an empty queue with tasks left over means a directed cycle among them |
| Graphs.TopologicalMeansAcyclic | crates/sim-lib-gantt/src/critical.rs:176-202 | a graph with a topological order has no cycle |
| Graphs.LeftoversHaveCycle | crates/sim-lib-gantt/src/critical.rs:198-202 | tasks that all have an incoming edge from among themselves contain a cycle |
| CriticalPath.EarliestStarts | crates/sim-lib-gantt/src/critical.rs:204-213 | the forward pass gives the least non-negative solution of all links |
| CriticalPath.LatestStarts | crates/sim-lib-gantt/src/critical.rs:215-237 | the backward pass gives the greatest solution with every sink done by the project finish |
| CriticalPath.CriticalTasks | crates/sim-lib-gantt/src/critical.rs:43-58 | succeeds exactly on valid acyclic plans and lists, in plan order, exactly those tasks whose start is the same day in every feasible schedule, from an earliest and a latest pass over the plan's graph; a cycle error names only tasks that are on a cycle |
| Schedules.PushedIsEarliest | crates/sim-lib-gantt/src/critical.rs:204-213 | starts that are zero or pushed exactly by one link, along a topological order, are least among all schedules |
| Schedules.HeldIsLatest | crates/sim-lib-gantt/src/critical.rs:215-237 | starts held by the deadline at sinks and by one link elsewhere are greatest |
| Schedules.EarliestGivesFinish | crates/sim-lib-gantt/src/critical.rs:215-222 | the earliest starts attain the least possible project finish |
| Schedules.ProjectFinishUnique | crates/sim-lib-gantt/src/critical.rs:215-222 | there is only one project finish |
| Schedules.ZeroSlackIff | crates/sim-lib-gantt/src/critical.rs:43-58 | equal earliest and latest starts mean exactly that every feasible schedule gives that start |
| Schedules.CriticalChainIff | crates/sim-lib-gantt/src/critical.rs:204-237 | a chain of tight links from day zero to a sink at the project finish exists exactly when some sink ends last, and without such a sink nothing at all is critical |
| Schedules.FinishStartHasChain | crates/sim-lib-gantt/src/critical.rs:204-247 | links whose target cannot finish before their source always leave a critical chain |
| Schedules.NoOverflow | crates/sim-lib-gantt/src/critical.rs:204-237 | up to 2^28 tasks, every start, candidate, finish and difference of both passes fits i64, and latest is never below earliest |
| CriticalPlans.RespectsMeansLinks | crates/sim-lib-gantt/src/critical.rs:126-150 | a solution of the graph is exactly a list of start days that keeps every link of the plan |
| CriticalPlans.ListNamesForced | crates/sim-lib-gantt/src/critical.rs:43-58 | the list `critical_tasks` returns names the tasks with a forced start and nothing else |
| CriticalPlans.ChainIsListed | crates/sim-lib-gantt/src/critical.rs:43-58 | every task of a critical chain of the passes that made the list is on it |
| CriticalPlans.FinishStartPlanHasChain | crates/sim-lib-gantt/src/critical.rs:204-247 | for a non-empty plan with only finish-start links and no lead, the list `critical_tasks` returns contains a whole critical chain |
| CriticalPlans.EmptyListIff | crates/sim-lib-gantt/src/critical.rs:43-58 | the list `critical_tasks` returns is empty exactly when no sink is among the tasks that end last |
| CriticalPlans.StartStartCanLeaveNothingCritical | crates/sim-lib-gantt/src/critical.rs:224-234 | why finish-start is needed: every valid plan of two tasks with a start-start link, the first outlasting the second by more than the lag, has the empty list, and there is such a plan |
| CriticalPlans.PlanIsBounded | crates/sim-lib-gantt/src/critical.rs:240-247 | with 31-bit durations and 32-bit lags no weight leaves 33 bits |
| CriticalPlans.PlanNeverOverflows | crates/sim-lib-gantt/src/critical.rs:204-247 | for every valid plan of up to 2^28 tasks, nothing computed by the passes that make the list leaves 64 bits, nor any sum a weight is made of |
| GanttStore.ExecuteKeepsKeys | crates/sim-lib-gantt/src/local.rs:433-502 | a statement that is not refused keeps every primary and foreign key |
| GanttStore.EveryStepKeepsKeys | crates/sim-lib-gantt/src/local.rs:79-158 | keys hold after every prefix of a transaction |
| GanttStore.SaveRuns | crates/sim-lib-gantt/src/local.rs:79-158 | for every valid plan and every database, no statement of the save is refused and the result replaces exactly that plan's rows |
| GanttStore.SaveStepsKeepKeys | crates/sim-lib-gantt/src/local.rs:79-158 | for every valid plan, every database with its keys in order and every k, the first k statements of the save run and leave all keys in order |
| GanttStore.TasksBeforeLinksRefused | crates/sim-lib-gantt/src/local.rs:143-146 | the order matters: with the two deletions the other way round a save is refused exactly when the plan has a stored link, and otherwise does the same |
| GanttStore.OtherPlansUntouched | crates/sim-lib-gantt/src/local.rs:79-158 | replacing one plan leaves the rows of every other plan as they were |
| GanttStore.KindRoundTrip | crates/sim-lib-gantt/src/model.rs:88-108 | link kinds survive their stored token |
| GanttStore.OnlyListing | crates/sim-lib-gantt/src/local.rs:267-332 | rows that carry their own position have only one arrangement by position, so `ORDER BY` gives back the saved order |
| GanttStore.SavedPlanDecodes | crates/sim-lib-gantt/src/local.rs:160-213 | any position-ordered reading of a saved plan decodes to that plan |
| GanttStore.DecodeTasksIff | crates/sim-lib-gantt/src/local.rs:160-213 | stored tasks load exactly when every date is a day of the calendar and every percentage is from 0 to 100, and then field by field |
| GanttStore.DecodeLinksIff | crates/sim-lib-gantt/src/local.rs:160-213 | stored links load exactly when every kind is one of the four tokens and every lag fits 32 bits, and then field by field |
| GanttStore.LoadsIff | crates/sim-lib-gantt/src/local.rs:160-213 | a stored plan loads exactly when every one of its own rows is in range, whatever order rows with equal positions come in |
| GanttStore.Select | crates/sim-lib-gantt/src/local.rs:267-332 | each stored row once, by ascending position |
| GanttStore.Store.Transaction | crates/sim-lib-gantt/src/local.rs:79-158 | all statements or none: a refused statement or a failure of the provider at any point leaves the prior database |
| GanttStore.Store.SavePlan | crates/sim-lib-gantt/src/local.rs:76-158 | commits exactly for a valid plan whose positions fit and a provider that does not fail; otherwise the prior database stays |
| GanttStore.Store.LoadPlan | crates/sim-lib-gantt/src/local.rs:160-213 | nothing for an unknown id, otherwise the decoding of the rows in position order with its calendar, range and token errors, or the provider's refusal of any of the three queries |
| GanttStore.Store.SaveThenLoad | crates/sim-lib-gantt/src/local.rs:76-213 | whatever was stored before, a committed plan loads back as exactly that plan, in order, unless the provider refuses a query; it stays committed either way |
| LibraryStates.ApplyKeepsValid | crates/sim-lib-doc-web/src/reading.rs:138-295 | every command keeps the library valid: each span's edition exists and its exact text is that slice of the edition's text, keys match records, and the index is the grouping of the spans |
| LibraryStates.ReachableIsValid | crates/sim-lib-doc-web/src/reading.rs:138-295 | the same after any sequence of commands |
| LibraryStates.EditionsNeverChange | crates/sim-lib-doc-web/src/reading.rs:140-175 | an admitted edition is never rewritten; it goes away exactly when it is removed |
| LibraryStates.AnnotationsKept | crates/sim-lib-doc-web/src/reading.rs:211-224 | annotations are kept for ever with their target and text |
| LibraryStates.OrphanStepIff | crates/sim-lib-doc-web/src/reading.rs:178-208 | an orphaned annotation stays orphaned in one step exactly unless that step admits its span id again |
| LibraryStates.OrphanUntilReadmitted | crates/sim-lib-doc-web/src/reading.rs:178-303 | over whole runs it stays orphaned as long as nobody admits its span id again |
| LibraryStates.RemovalOrphans | crates/sim-lib-doc-web/src/reading.rs:277-282 | removing an edition orphans exactly the annotations on its spans, besides those that already were |
| LibraryStates.AdoptedByOtherText | crates/sim-lib-doc-web/src/reading.rs:195-197 | a reachable library where a note moves to another text: from the empty library, for any two texts, annotating a span of one, removing it and admitting the same span id in the other leaves the note on the other |
| LibraryStates.SourceNeverRemoved | crates/sim-lib-doc-web/src/reading.rs:238-245 | in a valid library the `source was removed` answer of a quotation cannot occur |
| LibraryStates.QuoteCeilings | crates/sim-lib-doc-web/src/reading.rs:227-274 | a reply holds one quotation for each request, in order, each a piece of its edition's text within the quote ceiling, and each edition's total within its export ceiling, for every mix and repetition of spans |
| LibraryStates.QuotedIsRequested | crates/sim-lib-doc-web/src/reading.rs:250-262 | the characters quoted from an edition are the characters requested from it, repetitions counted |
| LibraryRules.TextBeforeIff | crates/sim-lib-doc-web/src/reading.rs:244-250 | one instant is before another exactly when, after a common start, it ends or goes on with a smaller character |
| LibraryRules.QuotableIff | crates/sim-lib-doc-web/src/reading.rs:227-274 | a request is quotable exactly when every span is admitted, its source unexpired at the instant given, open to export if export is asked, long enough to quote, and no source gives more than its ceiling in all |
| LibraryRules.QuotedIsFresh | crates/sim-lib-doc-web/src/reading.rs:244-253 | every edition quoted from has no expiry or one that the instant precedes, and permits export when that is asked |
| LibraryRules.StaleIsRefused | crates/sim-lib-doc-web/src/reading.rs:244-250 | the first expired span refuses the request as stale when nothing before it is refused |
| LibraryRules.RefusalSays | crates/sim-lib-doc-web/src/reading.rs:227-274 | every refusal of a quotation is true of the span it stopped at |
| LibraryRules.AcceptedIff | crates/sim-lib-doc-web/src/reading.rs:140-282 | a command is accepted exactly when what is demanded of it holds: ceilings, identity, text character by character, unused ids; a refused one changes nothing |
| LibraryRules.CommandRefusalSays | crates/sim-lib-doc-web/src/reading.rs:140-224 | every refused command is refused for something that is wrong with it |
| LibraryRules.AcceptedDoes | crates/sim-lib-doc-web/src/reading.rs:140-282 | an accepted command changes the one record it is about; removal takes away exactly the edition and its spans |
| LibraryRules.IndexLists | crates/sim-lib-doc-web/src/reading.rs:285-295 | the index lists under every admitted edition exactly its spans, and no edition without any |
| SourceLibraries.SourceLibrary.Import | crates/sim-lib-doc-web/src/reading.rs:140-175 | refuses bad ceilings and a known id with different material, accepts the same material again without change, and otherwise adds the edition |
| SourceLibraries.SourceLibrary.AdmitSpan | crates/sim-lib-doc-web/src/reading.rs:178-208 | the checks in their order; the span is added only when its selector verifies against the edition's own text |
| SourceLibraries.SourceLibrary.Annotate | crates/sim-lib-doc-web/src/reading.rs:211-224 | refuses an unadmitted target and a used id, otherwise adds the annotation |
| SourceLibraries.SourceLibrary.Remove | crates/sim-lib-doc-web/src/reading.rs:277-282 | removes the edition and exactly its spans, keeps every annotation, and says whether the edition was there |
| SourceLibraries.SourceLibrary.RebuildIndexes | crates/sim-lib-doc-web/src/reading.rs:285-295 | whatever the index held, it becomes the grouping of the spans by admitted edition |
| SourceLibraries.SourceLibrary.OrphanedAnnotations | crates/sim-lib-doc-web/src/reading.rs:298-303 | exactly the orphans, once each, in ascending id order |
| SourceLibraries.SourceLibrary.Quote | crates/sim-lib-doc-web/src/reading.rs:227-274 | succeeds exactly when every requested span may be quoted and every edition's total fits; then answers in request order; otherwise fails with the refusal of the first refused span |
| OdsCodec.GroupRows | crates/sim-codec-odf/src/ods.rs:60-66 | visiting cells by column groups the non-blank cells by row with every group in ascending column order |
| OdsCodec.WriteRow | crates/sim-codec-odf/src/ods.rs:75-84 | a row is its cells with gaps written once with a repeat count; only a checked build stops, at the last column |
| OdsCodec.WriteTable | crates/sim-codec-odf/src/ods.rs:60-88 | the whole table loop equals the table specification, empty rows between included |
| OdsCodec.ReadRepeated | crates/sim-codec-odf/src/ods.rs:175-187 | the repetition loop of one cell |
| OdsCodec.ReadRow | crates/sim-codec-odf/src/ods.rs:152-191 | the column loop, where each child moves the column by its repeat count |
| OdsCodec.ReadRows | crates/sim-codec-odf/src/ods.rs:132-150 | the row loop, where each row is read once for every repetition |
| OdsCodec.RepeatedCellFillsRun | crates/sim-codec-odf/src/ods.rs:175-189 | a non-blank cell without stored address fills exactly the run of columns its repeat count covers, and fails exactly when that run leaves u32, as an overflow or, wrapped, as a cell that is not one-based |
| OdsTables.AscendingIsSorted | crates/sim-codec-odf/src/ods.rs:60-66 | an ascending enumeration of a set is unique |
| OdsRoundTrip.RowDecodes | crates/sim-codec-odf/src/ods.rs:152-191 | decoding an encoded row from any start column sets exactly its cells, with or without stored addresses |
| OdsRoundTrip.RowsDecode | crates/sim-codec-odf/src/ods.rs:132-150 | the same for the rows of a table from any start row |
| OdsRoundTrip.TableRoundTrip | crates/sim-codec-odf/src/ods.rs:60-212 | for every sheet of one-based cells, below the u32 maximum if the build is checked, decoding the encoded table gives exactly its non-blank cells, numbers reduced and formulas with one leading `=` |
| OdsRoundTrip.PositionsSuffice | crates/sim-codec-odf/src/ods.rs:60-212 | rows, gaps and repeat counts alone (OpenDocument 1.2 part 1, sections 19.675 and 19.679) put every cell where its stored address says |
| OdsRoundTrip.SheetRoundTripIff | crates/sim-codec-odf/src/ods.rs:60-212 | the sheet itself comes back exactly when it stores no blank, every number is reduced and every formula has exactly one leading `=` |
| OdsRoundTrip.EncodeOverflowIff | crates/sim-codec-odf/src/ods.rs:60-88 | encoding stops exactly in a checked build, when a non-blank cell sits in the last u32 column or row |
| OdsRoundTrip.EmptyCellsRead | crates/sim-codec-odf/src/ods.rs:90-97 | an empty cell with a repeat count reads as that many blanks |
| OdsForeign.ReadsIff | crates/sim-codec-odf/src/ods.rs:195-240 | every cell, whoever wrote it, reads exactly as its attributes and paragraphs say: this codec's kinds first, then a formula, then the value type, and the errors of each |
| OdsForeign.NumberCellPlaced | crates/sim-codec-odf/src/ods.rs:224-235 | a float, currency or percentage cell puts at its place the exact value of its digits over a power of ten |
| OdsForeign.FortyTwoPlaced | crates/sim-codec-odf/src/ods.rs:230-235 | the cell with value type float and value 42 puts the number 42 |
| OdsForeign.BoolCellPlaced | crates/sim-codec-odf/src/ods.rs:225-229 | a boolean cell puts the truth value its word stands for, and any other word refuses the row |
| OdsForeign.FormulaCellPlaced | crates/sim-codec-odf/src/ods.rs:242-253 | a formula written `of:=`, `oooc:=` or `=` puts the formula from its equals sign on |
| OdsForeign.OtherFormulaRefused | crates/sim-codec-odf/src/ods.rs:242-253 | a formula in any other syntax refuses the row |
| OdsForeign.TextCellPlaced | crates/sim-codec-odf/src/ods.rs:236-236 | words, dates and times put the text of the cell |
| OdsForeign.UntypedCellPlaced | crates/sim-codec-odf/src/ods.rs:237-238 | without a value type, blank text puts nothing and other text is kept |
| OdsForeign.ParagraphsAreLines | crates/sim-codec-odf/src/package.rs:133-139 | the text of a cell is its paragraphs, one line each |
| OdsForeign.NextParagraph | crates/sim-codec-odf/src/package.rs:133-139 | every further paragraph of a cell is a line feed and its text |
| OdsForeign.OthersRead | crates/sim-codec-odf/src/ods.rs:98-130 | an encoded cell without the attributes only this codec knows still says the same text, truth value or formula, and a number as the text of its fraction |
| OdsPlaces.CountReads | crates/sim-codec-odf/src/ods.rs:255-261 | a repeat count is the number it spells, 1 when it is missing, and refused above u32 |
| OdsPlaces.RowPlaces | crates/sim-codec-odf/src/ods.rs:152-191 | in any row of readable cells every value fills exactly the columns its cell stands for; a checked build overflows exactly when the columns leave u32 |
| OdsPlaces.StoredAddress | crates/sim-codec-odf/src/ods.rs:175-189 | a stored address wins over the place of the cell, for its first repetition only; a text that is no address is refused |
| OdsPlaces.FirstFaultRefuses | crates/sim-codec-odf/src/ods.rs:152-240 | the first cell that cannot be counted or read refuses the row with its own error |
| OdsPlaces.RepeatedRow | crates/sim-codec-odf/src/ods.rs:139-149 | a row repeated n times sets exactly those n rows and moves the next row by n |
| OdsPlaces.TablePlaces | crates/sim-codec-odf/src/ods.rs:132-191 | in any table of readable rows, the cell that stands for a place, by adding up counts, decides its value, and no other place gets one |
| Xml.EscapeRoundTrip | crates/sim-codec-odf/src/package.rs:150-160 | unescaping text or an attribute value that was escaped gives it back, and nothing bare is left that would end it early |
| Xml.EscapeConcat | crates/sim-codec-ooxml/src/pptx.rs:350-360 | escaping works character by character, so the order of the replacements does no harm |
| XmlSearch.TaggedElement | crates/sim-codec-ooxml/src/pptx/decode.rs:51-58 | searching a tree visits the element itself and then its children in order |
| DeckShapes.BlockShapesFitIff | crates/sim-codec-ooxml/src/pptx.rs:189-204 | in a checked build the shapes are written exactly while the last position fits u32; with wrapping positions always |
| DeckShapes.SlideBlocksFound | crates/sim-codec-ooxml/src/pptx/decode.rs:131-135 | in an encoded slide the search for blocks finds its own metadata blocks, in order, and nothing in the shapes or the frame |
| DeckShapes.SlideLosses | crates/sim-codec-ooxml/src/pptx/decode.rs:138-172 | an encoded slide reports a loss exactly when it has no block, and then only its shapes |
| DeckRoundTrip.BlockRoundTrip | crates/sim-codec-ooxml/src/pptx/decode.rs:174-219 | every block reads back from its metadata, less the empty strings of lists and tables |
| DeckRoundTrip.SlideRoundTrip | crates/sim-codec-ooxml/src/pptx/decode.rs:114-136 | a slide reads back with its id, title and blocks |
| DeckRoundTrip.PathsFound | crates/sim-codec-ooxml/src/pptx/decode.rs:31-90 | slide list, relationship ids and targets lead to the slide parts in deck order |
| DeckRoundTrip.TargetResolves | crates/sim-codec-ooxml/src/pptx/decode.rs:81-90 | a written target resolves to the part the slide was written to |
| DeckRoundTrip.RelationshipsRead | crates/sim-codec-ooxml/src/pptx/decode.rs:60-79 | reading the written relationships gives every slide id its target |
| DeckRoundTrip.NoOrphans | crates/sim-codec-ooxml/src/pptx/decode.rs:92-112 | no slide of an encoded deck is reported orphaned |
| DeckRoundTrip.DeckRoundTrip | crates/sim-codec-ooxml/src/pptx.rs:91-125 | every deck comes back, with wrapping shape positions always and in a checked build with at most 8257 blocks a slide: title, slide order, ids, titles and blocks, with exactly one loss for each slide without a block |
| DeckRoundTrip.DeckExactIff | crates/sim-codec-ooxml/src/pptx/decode.rs:205-219 | the very same deck comes back exactly when no list or table holds an empty string |
| DeckRoundTrip.LosslessIff | crates/sim-codec-ooxml/src/pptx/decode.rs:138-172 | the report is lossless exactly when every slide has a block |
| DeckRoundTrip.DeckFitsIff | crates/sim-codec-ooxml/src/pptx.rs:189-204 | a deck is written by every build exactly when no slide has more than 8257 blocks; a build that wraps writes every deck |
| DeckCodec.WriteSlide | crates/sim-codec-ooxml/src/pptx.rs:189-211 | the block loop, which numbers shapes and appends metadata side by side |
| DeckCodec.WriteSlideIds | crates/sim-codec-ooxml/src/pptx.rs:157-173 | one entry for each slide, with ids from 256 and relationship ids from `rId2` |
| DeckCodec.WriteRelationships | crates/sim-codec-ooxml/src/pptx.rs:175-187 | the master first, then one relationship for each slide |
| DeckCodec.WritePackage | crates/sim-codec-ooxml/src/pptx.rs:91-125 | the part-by-part loop writes the package of the deck |
| DeckDisplay.SlideShows | crates/sim-codec-ooxml/src/pptx.rs:189-229 | a written slide shows the lines of its title and then of every block, and no other text |
| DeckDisplay.ShapesPlaced | crates/sim-codec-ooxml/src/pptx.rs:189-223 | every block has a shape of its own, numbered from three, each placed 520000 units below the one before, wrapped at u32 |
| DeckDisplay.LinesSplit | crates/sim-codec-ooxml/src/pptx.rs:225-229 | text is cut at line feeds, a carriage return before one dropped, and an empty last line left out |
| DeckDisplay.HeadingAndImageLines | crates/sim-codec-ooxml/src/pptx.rs:278-293 | a heading shows its own lines, an image one line with its id in brackets |
| DeckDisplay.ListLines | crates/sim-codec-ooxml/src/pptx.rs:278-293 | a list shows one line for every item, behind a dash |
| DeckDisplay.TableLines | crates/sim-codec-ooxml/src/pptx.rs:278-293 | a table shows its head and every row on a line of its own, cells apart by a bar |
| DeckCodec.ReadRelationships | crates/sim-codec-ooxml/src/pptx/decode.rs:60-79 | other relationship types are skipped, later ids overwrite earlier ones, missing ids and targets are errors |
| DeckReadings.LossesIff | crates/sim-codec-ooxml/src/pptx/decode.rs:92-172 | whoever wrote the presentation, an accepted reading reports a transition, media or shapes exactly for the read slide parts that hold such elements at any depth (shapes only without a block), and an orphan exactly for the unread parts named like slides |
| DeckReadings.AcceptedIff | crates/sim-codec-ooxml/src/pptx/decode.rs:11-22 | a presentation is read exactly when its parts are there, its relationships are complete and lead, and every block is of a known kind |
| DeckReadings.PathsAre | crates/sim-codec-ooxml/src/pptx/decode.rs:31-90 | the slide list leads, entry by entry, to the target of the last slide relationship with its id |
| DeckReadings.TargetCases | crates/sim-codec-ooxml/src/pptx/decode.rs:81-90 | a target is absolute, already below `ppt/` or relative to it, backslashes counting as slashes |
| DeckReadings.DeckReads | crates/sim-codec-ooxml/src/pptx/decode.rs:11-29 | every slide is read from its part, in order, under its id and title or their defaults, with every block found at any depth |
| DeckReadings.BlockIs | crates/sim-codec-ooxml/src/pptx/decode.rs:174-203 | a block is of the kind it names, with the defaults of an image without a backend or an id |
| DeckReadings.DeckRefusalMeans | crates/sim-codec-ooxml/src/pptx/decode.rs:11-203 | every refused presentation is refused for something that is wrong with it, and the error names it |
| DeckCodec.ReadPaths | crates/sim-codec-ooxml/src/pptx/decode.rs:31-49 | every id of the slide list must lead to a slide relationship |
| DeckCodec.ReadDeck | crates/sim-codec-ooxml/src/pptx/decode.rs:11-22 | slides are read in list order and every loss is collected |
| Decimals.WriteLiteral | crates/sim-codec-ooxml/src/xlsx.rs:382-407 | the rewriting loop, with its leading-zero removal, equals the recursive rewriting |
| Decimals.CellNumberDenotes | crates/sim-codec-odf/src/ods.rs:297-329 | a signed decimal with digits on both sides is read as all its digits over ten to the number of fraction digits |
| Decimals.DecimalRationalDenotes | crates/sim-lib-sheet/src/graph.rs:196-226 | the big-integer conversion gives whole part times power plus fraction over that power, the exponent cut to 32 bits |
| Decimals.ConversionsAgreeIff | crates/sim-lib-sheet/src/graph.rs:196-226 | on every signed decimal both conversions succeed, and they agree exactly when the fraction's length fits 32 bits or the fraction is zero |
| Decimals.AcceptedDecimalIff | crates/sim-lib-sheet/src/graph.rs:196-226 | on text with a point the big-integer conversion accepts exactly the signed decimals with digits on both sides |
| Decimals.AcceptedDecimalsAgree | crates/sim-codec-ooxml/src/xlsx.rs:382-407 | whatever the big-integer conversion accepts a cell accepts too, and reads as the same number exactly while the fraction's length fits 32 bits or the fraction is zero |
| Decimals.PointNumberRead | crates/sim-codec-odf/src/ods.rs:297-329 | what a cell reads from text with a point and no slash, exactly: nothing with an exponent letter, otherwise the rewritten numerator, leading white space aside, over ten to the bytes of the fraction |
| Decimals.CellAcceptsIff | crates/sim-codec-odf/src/ods.rs:297-329 | a cell accepts text with a point exactly when it holds no slash and no exponent letter and its rewritten numerator is an integer literal |
| Decimals.AcceptanceDiffersIff | crates/sim-lib-sheet/src/graph.rs:196-226 | the two conversions differ on which texts with a point they accept exactly for those a cell accepts that are not signed decimals with digits on both sides; the big-integer conversion accepts nothing more |
| Decimals.MinusAcceptsIff | crates/sim-codec-ooxml/src/xlsx.rs:382-407 | a cell accepts text that starts with a minus sign exactly when everything else but the first point is digits, at least one |
| Decimals.MissingWholePart | crates/sim-codec-odf/src/ods.rs:304-329 | a point and digits alone are a fraction for a cell and refused by the big-integer conversion |
| Decimals.SignAfterPoint | crates/sim-codec-ooxml/src/xlsx.rs:399-406 | `0.-5` and its like are negative numbers for a cell and refused by the big-integer conversion |
| ZipEntries.ReadZipEntries | crates/sim-lib-doc-core/src/zip_package.rs:37-105 | the entry loop equals the extraction specification, refusal for refusal |
| ZipEntries.ExtractionIsBounded | crates/sim-lib-doc-core/src/zip_package.rs:37-105 | every accepted extraction keeps each entry within its limit and the sum of what is retained within the total, whatever the headers declare and however often names repeat |
| ZipEntries.EntryWholeIff | crates/sim-lib-doc-core/src/zip_package.rs:69-87 | an accepted entry is whole, except for a first stream past 2^64 - 1 bytes when both limits are the u64 maximum |
| ZipEntries.ExtractionIsWhole | crates/sim-lib-doc-core/src/zip_package.rs:37-105 | an accepted archive yields the whole last file of every name, unless there are no limits and a stream passes 64 bits |
| ZipEntries.AcceptedIff | crates/sim-lib-doc-core/src/zip_package.rs:37-162 | an archive is accepted exactly when it has few enough entries and the declared and real sizes of every file respect the limits after the real bytes before it |
| ZipEntries.ExtractedByName | crates/sim-lib-doc-core/src/zip_package.rs:37-105 | the bytes found under a name are those of the last file of that name, with backslashes turned into slashes, and no other name is found |
| ZipEntries.RefusalBreaks | crates/sim-lib-doc-core/src/zip_package.rs:37-162 | every refusal is true of the entry it names: too many entries, a size or total past its limit, a ratio past its limit, or an unreadable stream |
| ZipEntries.RatioRejectedIff | crates/sim-lib-doc-core/src/zip_package.rs:142-162 | saturation never changes the ratio verdict: it is the exact comparison of declared with compressed times ratio |
| ZipEntries.DeclaredTotalRejectedIff | crates/sim-lib-doc-core/src/zip_package.rs:124-140 | the declared total is compared exactly, except that the largest limit refuses nothing |
| ZipEntries.RetainedInsert | crates/sim-lib-doc-core/src/zip_package.rs:102-102 | a repeated name frees what it replaces, so inserting adds at most the new bytes |
| SheetExprs.ValueRoundTrip | crates/sim-lib-sheet/src/model.rs:321-392 | every cell value survives its expression, numbers reduced; a zero denominator is refused |
| SheetExprs.SheetRoundTrip | crates/sim-lib-sheet/src/model.rs:285-319 | a sheet of one-based, non-blank cells with reduced numbers survives its expression |
| SheetExprs.DecodedSheetRegular | crates/sim-lib-sheet/src/model.rs:303-319 | whatever a document body holds, the sheet read from it has only one-based cells, no blank entries and reduced numbers |
| SheetDecodings.ValueDecodes | crates/sim-lib-sheet/src/model.rs:352-392 | an expression is a value exactly when its first kind field and its first value field make that value; numbers only in the rational domain |
| SheetDecodings.CellDecodes | crates/sim-lib-sheet/src/model.rs:303-319 | an expression is a cell exactly when its first fields name one and hold a value |
| SheetDecodings.EditDecodes | crates/sim-lib-sheet/src/doc.rs:88-103 | an expression is an edit exactly when its kind says so and its first fields name a cell and hold a value |
| SheetDecodings.SheetAcceptedIff | crates/sim-lib-sheet/src/model.rs:303-319 | exactly the expressions with the sheet kind, a name and a list of cells are sheets |
| SheetDecodings.SheetDecodes | crates/sim-lib-sheet/src/model.rs:303-319 | of several items for one cell the last decides, and a cell no item names is blank |
| CellOrder.InOrderAscends | crates/sim-lib-sheet/src/model.rs:285-301 | cells are listed column by column, and down each column |
| SheetEdits.SheetDocIff | crates/sim-lib-sheet/src/doc.rs:18-29 | a sheet comes back from its document exactly when it holds only one-based, non-blank cells and reduced numbers |
| SheetEdits.Document.SetCellEdit | crates/sim-lib-sheet/src/doc.rs:32-45 | builds the edit and its inverse from what the cell holds now, without changing the document |
| SheetEdits.Document.ApplySheetEdit | crates/sim-lib-sheet/src/doc.rs:48-70 | replaces the body by the edited sheet, or reports the first thing wrong and leaves the document |
| SheetEdits.WriteSheet | crates/sim-lib-sheet/src/model.rs:285-301 | the cells are written in cell order |
| SheetEdits.EditAppliesIff | crates/sim-lib-sheet/src/doc.rs:32-103 | an edit built for a readable document applies exactly when its cell is one-based and its number has a denominator, and then changes that one cell only |
| SheetEdits.ForeignEditRefused | crates/sim-lib-sheet/src/doc.rs:48-70 | an edit of another kind of document, another domain or another document is refused |
| SheetEdits.AppliedChangesOneCell | crates/sim-lib-sheet/src/doc.rs:48-70 | whatever an applied edit holds, the document keeps its kind, id and sheet name and changes at most the one cell the edit names |
| SheetEdits.InverseRestores | crates/sim-lib-sheet/src/doc.rs:32-70 | the inverse, applied to any readable document of that identity with the edited sheet, restores the sheet the edit was built for |
| SheetEdits.RunSucceedsIff | crates/sim-lib-sheet/src/doc.rs:32-70 | a run of edits, each built for the then-current document, goes through exactly when every change can be set |
| SheetEdits.RunIsUndone | crates/sim-lib-doc-core/src/edit.rs:34-41 | applying the inverses of any such run in reverse order succeeds and restores every original cell, blank ones included |
| SheetEdits.PutBack | crates/sim-lib-sheet/src/model.rs:158-169 | setting a cell and setting it back to what it held restores the sparse map itself |
| Text.TrimEmptyIffBlank | crates/sim-lib-sheet/src/model.rs:71-78 | trimming leaves nothing exactly for blank text |
| Text.TrimSplits | crates/sim-lib-sheet/src/model.rs:71-78 | trimming takes white space off both ends and stops at the first other character on each side |
| Text.NatTextValue | crates/sim-lib-sheet/src/model.rs:52-66 | decimal text has the right value and no leading zero |
| Text.ParseU32OfText | crates/sim-lib-sheet/src/model.rs:100-103 | printed unsigned numbers parse back up to the u32 maximum and are refused above it |

## Left out

- Raw XML and ZIP parsing, byte-level packages and UTF-8 decoding: external libraries; the models start from element trees and entry lists. White space normalisation in XML attribute values, and characters XML cannot carry, are outside the tree-level claims.
- The graph, office-suite and mail services, tokens, cassettes and capability gates: plumbing around the modelled logic.
- SQL plans, schema builders, the SQLite driver and adoption manifests: only the resulting table operations are modelled.
- Internals of the incremental engine, the graph crate and the selector crate: used through the contracts above.
- The wrapping elements around an ODS table, its style losses and the fidelity report of that codec; the tree claims start at the table element.
- The worksheet codec of xlsx.rs, apart from its number literals, and the range conversion of graph.rs, apart from its decimals.
- Web evidence persistence, reconciliation review, projections, scenes, citations and redaction.
- Error messages are reduced to cases; a message's text is not modelled; a plan error keeps its field name without the accompanying message.
- The content of the presentation parts that are never read back is a parameter; content types are among them.
- ZipEntries.ReadZipEntries: an entry is readable or not as a whole; a read fault after some bytes is not told apart from one at the start.
- DeckCodec.ReadDeck: losses are a set, so their order and repetitions in the report are not modelled.
- DeckDisplay.SlideShows: fonts, colours and the fixed frame of a slide are written out but nothing is proved of them.
- GanttStore.Select: rows with equal positions may come in any order, as the query language leaves it open.
