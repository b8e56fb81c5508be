/**
 The local Gantt store: three related tables, their keys, the replace-a-plan transaction, and loading
 a plan back in stored order. Tables are sets of rows, so nothing depends on storage order.
 */
module GanttStore {
  import opened GanttPlans
  import opened Wrappers

  datatype TaskRow = TaskRow(
    planId: string, id: string, name: string, startJulian: int, finishJulian: int, percentComplete: int, position: int)

  datatype LinkRow = LinkRow(
    planId: string, predecessor: string, successor: string, kind: string, lagDays: int, position: int)

  datatype Database = Database(plans: set<string>, tasks: set<TaskRow>, links: set<LinkRow>)

  // ---------------------------------------------------------------- keys

  predicate HasTaskRow(db: Database, planId: string, id: string) {
    exists row :: row in db.tasks && row.planId == planId && row.id == id
  }

  ghost predicate TaskKeys(db: Database) {
    && (forall a, b :: a in db.tasks && b in db.tasks && a.planId == b.planId && a.id == b.id ==> a == b)
    && (forall row :: row in db.tasks ==> row.planId in db.plans)
  }

  ghost predicate LinkKeys(db: Database) {
    && (forall a, b :: a in db.links && b in db.links && a.planId == b.planId && a.position == b.position ==> a == b)
    && (forall row :: row in db.links ==>
          && row.planId in db.plans
          && HasTaskRow(db, row.planId, row.predecessor) && HasTaskRow(db, row.planId, row.successor))
  }

  /** All primary and foreign keys hold. */
  ghost predicate KeysHold(db: Database) {
    TaskKeys(db) && LinkKeys(db)
  }

  // ---------------------------------------------------------------- mutations

  datatype Mutation =
    | InsertPlan(id: string)
    | DeleteLinks(planId: string)
    | DeleteTasks(planId: string)
    | InsertTask(task: TaskRow)
    | InsertLink(link: LinkRow)

  function TasksOf(db: Database, planId: string): set<TaskRow> {
    set row | row in db.tasks && row.planId == planId
  }

  function LinksOf(db: Database, planId: string): set<LinkRow> {
    set row | row in db.links && row.planId == planId
  }

  const CONSTRAINT := StoreError("constraint violation")
  const PROVIDER := StoreError("provider failure")

  /** One statement, refused when it would break a key. A plan id that exists is left alone. */
  function Execute(db: Database, m: Mutation): Result<Database, ScheduleError> {
    match m
    case InsertPlan(id) => Success(db.(plans := db.plans + {id}))
    case DeleteLinks(planId) => Success(db.(links := db.links - LinksOf(db, planId)))
    case DeleteTasks(planId) =>
      if LinksOf(db, planId) != {} then Failure(CONSTRAINT)
      else Success(db.(tasks := db.tasks - TasksOf(db, planId)))
    case InsertTask(row) =>
      if HasTaskRow(db, row.planId, row.id) || row.planId !in db.plans then Failure(CONSTRAINT)
      else Success(db.(tasks := db.tasks + {row}))
    case InsertLink(row) =>
      if (exists other :: other in db.links && other.planId == row.planId && other.position == row.position)
         || row.planId !in db.plans
         || !HasTaskRow(db, row.planId, row.predecessor) || !HasTaskRow(db, row.planId, row.successor)
      then Failure(CONSTRAINT)
      else Success(db.(links := db.links + {row}))
  }

  /** Every statement that is not refused keeps every key. */
  lemma ExecuteKeepsKeys(db: Database, m: Mutation)
    requires KeysHold(db) && Execute(db, m).Success?
    ensures KeysHold(Execute(db, m).value)
  {
    var db' := Execute(db, m).value;
    forall row | row in db'.links && row in db.links
      ensures HasTaskRow(db', row.planId, row.predecessor) && HasTaskRow(db', row.planId, row.successor)
    {
      RowSurvives(db, db', m, row, row.predecessor);
      RowSurvives(db, db', m, row, row.successor);
    }
    if m.InsertLink? {
      assert db'.tasks == db.tasks;
    }
  }

  lemma RowSurvives(db: Database, db': Database, m: Mutation, link: LinkRow, id: string)
    requires Execute(db, m) == Success(db') && link in db.links && link in db'.links
    requires HasTaskRow(db, link.planId, id)
    ensures HasTaskRow(db', link.planId, id)
  {
    var row :| row in db.tasks && row.planId == link.planId && row.id == id;
    if m.DeleteTasks? {
      assert link !in LinksOf(db, m.planId);
    }
    assert row in db'.tasks;
  }

  function RunAll(db: Database, ops: seq<Mutation>): Result<Database, ScheduleError>
    decreases |ops|
  {
    if ops == [] then Success(db)
    else match Execute(db, ops[0])
      case Failure(e) => Failure(e)
      case Success(next) => RunAll(next, ops[1..])
  }

  lemma {:induction false} RunAllConcat(db: Database, a: seq<Mutation>, b: seq<Mutation>)
    requires RunAll(db, a).Success?
    ensures RunAll(db, a + b) == RunAll(RunAll(db, a).value, b)
    decreases |a|
  {
    if a == [] {
      assert a + b == b;
    } else {
      assert (a + b)[1..] == a[1..] + b;
      RunAllConcat(Execute(db, a[0]).value, a[1..], b);
    }
  }

  lemma RunAllSnoc(db: Database, a: seq<Mutation>, m: Mutation)
    requires RunAll(db, a).Success?
    ensures RunAll(db, a + [m]) == Execute(RunAll(db, a).value, m)
  {
    RunAllConcat(db, a, [m]);
    var mid := RunAll(db, a).value;
    if Execute(mid, m).Success? {
      assert RunAll(Execute(mid, m).value, [m][1..]) == Execute(mid, m);
    }
  }

  lemma {:induction false} RunAllPrefix(db: Database, ops: seq<Mutation>, k: nat)
    requires k <= |ops| && RunAll(db, ops).Success?
    ensures RunAll(db, ops[..k]).Success?
    decreases k
  {
    if k > 0 {
      RunAllPrefix(Execute(db, ops[0]).value, ops[1..], k - 1);
      assert ops[..k][1..] == ops[1..][..k - 1];
    }
  }

  /** Keys hold after every prefix of a run. */
  lemma {:induction false} EveryStepKeepsKeys(db: Database, ops: seq<Mutation>, k: nat)
    requires KeysHold(db) && k <= |ops| && RunAll(db, ops[..k]).Success?
    ensures KeysHold(RunAll(db, ops[..k]).value)
    decreases k
  {
    if k > 0 {
      assert ops[..k][1..] == ops[1..][..k - 1];
      ExecuteKeepsKeys(db, ops[0]);
      EveryStepKeepsKeys(Execute(db, ops[0]).value, ops[1..], k - 1);
    }
  }

  // ---------------------------------------------------------------- encoding a plan

  function KindToken(kind: LinkKind): string {
    match kind
    case FinishStart => "finish-start"
    case StartStart => "start-start"
    case FinishFinish => "finish-finish"
    case StartFinish => "start-finish"
  }

  function KindFromToken(token: string): Option<LinkKind> {
    if token == "finish-start" then Some(FinishStart)
    else if token == "start-start" then Some(StartStart)
    else if token == "finish-finish" then Some(FinishFinish)
    else if token == "start-finish" then Some(StartFinish)
    else None
  }

  function TaskRowAt(plan: GanttPlan, i: nat): TaskRow
    requires i < |plan.tasks|
  {
    var t := plan.tasks[i];
    TaskRow(plan.id, t.id, t.name, t.start, t.finish, t.percentComplete, i)
  }

  function LinkRowAt(plan: GanttPlan, i: nat): LinkRow
    requires i < |plan.links|
  {
    var l := plan.links[i];
    LinkRow(plan.id, l.predecessor, l.successor, KindToken(l.kind), l.lagDays, i)
  }

  function TaskRows(plan: GanttPlan, k: nat): set<TaskRow>
    requires k <= |plan.tasks|
  {
    set i | 0 <= i < k :: TaskRowAt(plan, i)
  }

  function LinkRows(plan: GanttPlan, k: nat): set<LinkRow>
    requires k <= |plan.links|
  {
    set i | 0 <= i < k :: LinkRowAt(plan, i)
  }

  const POSITION_LIMIT: nat := 0x8000_0000_0000_0000

  /** Row positions fit the relational integer. */
  predicate PositionsFit(plan: GanttPlan) {
    |plan.tasks| <= POSITION_LIMIT && |plan.links| <= POSITION_LIMIT
  }

  /** The database with one plan's rows replaced and nothing else touched. */
  function Replaced(db: Database, plan: GanttPlan): Database {
    Database(db.plans + {plan.id},
             (db.tasks - TasksOf(db, plan.id)) + TaskRows(plan, |plan.tasks|),
             (db.links - LinksOf(db, plan.id)) + LinkRows(plan, |plan.links|))
  }

  function Header(plan: GanttPlan): seq<Mutation> {
    [InsertPlan(plan.id), DeleteLinks(plan.id), DeleteTasks(plan.id)]
  }

  function TaskInserts(plan: GanttPlan, k: nat): seq<Mutation>
    requires k <= |plan.tasks|
  {
    seq(k, i requires 0 <= i < k => InsertTask(TaskRowAt(plan, i)))
  }

  function LinkInserts(plan: GanttPlan, k: nat): seq<Mutation>
    requires k <= |plan.links|
  {
    seq(k, i requires 0 <= i < k => InsertLink(LinkRowAt(plan, i)))
  }

  /** Parent first, then children out in foreign-key order, then tasks before the links to them. */
  function SaveOps(plan: GanttPlan): seq<Mutation> {
    Header(plan) + TaskInserts(plan, |plan.tasks|) + LinkInserts(plan, |plan.links|)
  }

  // ---------------------------------------------------------------- no statement is refused

  function AfterTasks(db: Database, plan: GanttPlan, k: nat): Database
    requires k <= |plan.tasks|
  {
    Database(db.plans + {plan.id},
             (db.tasks - TasksOf(db, plan.id)) + TaskRows(plan, k),
             db.links - LinksOf(db, plan.id))
  }

  function AfterLinks(db: Database, plan: GanttPlan, k: nat): Database
    requires k <= |plan.links|
  {
    AfterTasks(db, plan, |plan.tasks|).(links := (db.links - LinksOf(db, plan.id)) + LinkRows(plan, k))
  }

  lemma HeaderRuns(db: Database, plan: GanttPlan)
    ensures RunAll(db, Header(plan)) == Success(AfterTasks(db, plan, 0))
  {
    var d1 := db.(plans := db.plans + {plan.id});
    var d2 := d1.(links := db.links - LinksOf(db, plan.id));
    assert LinksOf(d1, plan.id) == LinksOf(db, plan.id);
    assert LinksOf(d2, plan.id) == {};
    assert TasksOf(d2, plan.id) == TasksOf(db, plan.id);
    assert TaskRows(plan, 0) == {};
    var d3 := d2.(tasks := db.tasks - TasksOf(db, plan.id));
    assert d3 == AfterTasks(db, plan, 0);
    RunAllSnoc(db, [], InsertPlan(plan.id));
    assert [] + [InsertPlan(plan.id)] == [InsertPlan(plan.id)];
    RunAllSnoc(db, [InsertPlan(plan.id)], DeleteLinks(plan.id));
    assert [InsertPlan(plan.id)] + [DeleteLinks(plan.id)] == [InsertPlan(plan.id), DeleteLinks(plan.id)];
    RunAllSnoc(db, [InsertPlan(plan.id), DeleteLinks(plan.id)], DeleteTasks(plan.id));
    assert [InsertPlan(plan.id), DeleteLinks(plan.id)] + [DeleteTasks(plan.id)] == Header(plan);
  }

  lemma TaskInsertRuns(db: Database, plan: GanttPlan, k: nat)
    requires DistinctIds(plan.tasks) && k < |plan.tasks|
    ensures Execute(AfterTasks(db, plan, k), InsertTask(TaskRowAt(plan, k))) == Success(AfterTasks(db, plan, k + 1))
  {
    var mid := AfterTasks(db, plan, k);
    var row := TaskRowAt(plan, k);
    forall other | other in mid.tasks && other.planId == plan.id
      ensures other.id != row.id
    {
      assert other in TaskRows(plan, k);
      var i :| 0 <= i < k && other == TaskRowAt(plan, i);
      assert plan.tasks[i].id != plan.tasks[k].id;
    }
    assert TaskRows(plan, k + 1) == TaskRows(plan, k) + {row};
    assert mid.tasks + {row} == AfterTasks(db, plan, k + 1).tasks;
  }

  lemma {:induction false} TaskInsertsRun(db: Database, plan: GanttPlan, k: nat)
    requires DistinctIds(plan.tasks) && k <= |plan.tasks|
    ensures RunAll(AfterTasks(db, plan, 0), TaskInserts(plan, k)) == Success(AfterTasks(db, plan, k))
  {
    if k > 0 {
      TaskInsertsRun(db, plan, k - 1);
      TaskInsertRuns(db, plan, k - 1);
      assert TaskInserts(plan, k) == TaskInserts(plan, k - 1) + [InsertTask(TaskRowAt(plan, k - 1))];
      RunAllSnoc(AfterTasks(db, plan, 0), TaskInserts(plan, k - 1), InsertTask(TaskRowAt(plan, k - 1)));
    }
  }

  lemma EndpointStored(db: Database, plan: GanttPlan, k: nat, id: string)
    requires k <= |plan.links| && HasTask(plan.tasks, id)
    ensures HasTaskRow(AfterLinks(db, plan, k), plan.id, id)
  {
    var i :| 0 <= i < |plan.tasks| && plan.tasks[i].id == id;
    var row := TaskRowAt(plan, i);
    assert row in TaskRows(plan, |plan.tasks|);
    assert row in AfterLinks(db, plan, k).tasks && row.planId == plan.id && row.id == id;
  }

  lemma LinkInsertRuns(db: Database, plan: GanttPlan, k: nat)
    requires ValidPlan(plan) && k < |plan.links|
    ensures Execute(AfterLinks(db, plan, k), InsertLink(LinkRowAt(plan, k))) == Success(AfterLinks(db, plan, k + 1))
  {
    var mid := AfterLinks(db, plan, k);
    var row := LinkRowAt(plan, k);
    EndpointStored(db, plan, k, row.predecessor);
    EndpointStored(db, plan, k, row.successor);
    hide ValidPlan, HasTaskRow;
    forall other | other in mid.links && other.planId == plan.id
      ensures other.position != row.position
    {
      assert other in LinkRows(plan, k);
      var i :| 0 <= i < k && other == LinkRowAt(plan, i);
    }
    assert LinkRows(plan, k + 1) == LinkRows(plan, k) + {row};
    assert mid.links + {row} == AfterLinks(db, plan, k + 1).links;
  }

  lemma LinkInsertsSnoc(plan: GanttPlan, k: nat)
    requires k < |plan.links|
    ensures LinkInserts(plan, k + 1) == LinkInserts(plan, k) + [InsertLink(LinkRowAt(plan, k))]
  {
  }

  lemma {:induction false} LinkInsertsRun(db: Database, plan: GanttPlan, k: nat)
    requires ValidPlan(plan) && k <= |plan.links|
    ensures RunAll(AfterTasks(db, plan, |plan.tasks|), LinkInserts(plan, k)) == Success(AfterLinks(db, plan, k))
  {
    hide ValidPlan;
    var start := AfterTasks(db, plan, |plan.tasks|);
    if k > 0 {
      LinkInsertsRun(db, plan, k - 1);
      LinkInsertRuns(db, plan, k - 1);
      LinkInsertsSnoc(plan, k - 1);
      hide AfterTasks, LinkInserts, Execute, AfterLinks, RunAll;
      RunAllSnoc(start, LinkInserts(plan, k - 1), InsertLink(LinkRowAt(plan, k - 1)));
    } else {
      assert LinkRows(plan, 0) == {};
      assert start == AfterLinks(db, plan, 0);
    }
  }

  /** For every valid plan and every database, no statement is refused and the plan is replaced. */
  lemma SaveRuns(db: Database, plan: GanttPlan)
    requires ValidPlan(plan)
    ensures RunAll(db, SaveOps(plan)) == Success(Replaced(db, plan))
  {
    HeaderRuns(db, plan);
    TaskInsertsRun(db, plan, |plan.tasks|);
    LinkInsertsRun(db, plan, |plan.links|);
    hide RunAll, AfterTasks;
    var head, tasks, links := Header(plan), TaskInserts(plan, |plan.tasks|), LinkInserts(plan, |plan.links|);
    RunAllConcat(db, head, tasks);
    RunAllConcat(db, head + tasks, links);
    AfterAllLinks(db, plan);
  }

  lemma AfterAllLinks(db: Database, plan: GanttPlan)
    ensures AfterLinks(db, plan, |plan.links|) == Replaced(db, plan)
  {
  }

  /** Every statement of a save runs, from any database with its keys in order, and leaves them in order. */
  lemma SaveStepsKeepKeys(db: Database, plan: GanttPlan, k: nat)
    requires KeysHold(db) && ValidPlan(plan) && k <= |SaveOps(plan)|
    ensures RunAll(db, SaveOps(plan)[..k]).Success?
    ensures KeysHold(RunAll(db, SaveOps(plan)[..k]).value)
  {
    hide KeysHold, ValidPlan, SaveOps, RunAll;
    SaveRuns(db, plan);
    RunAllPrefix(db, SaveOps(plan), k);
    EveryStepKeepsKeys(db, SaveOps(plan), k);
  }

  /** The save with its two deletions the other way round. */
  function TasksFirstOps(plan: GanttPlan): seq<Mutation> {
    [InsertPlan(plan.id), DeleteTasks(plan.id), DeleteLinks(plan.id)]
    + TaskInserts(plan, |plan.tasks|) + LinkInserts(plan, |plan.links|)
  }

  /**
   Deleting links first matters: with the two deletions the other way round, a save is refused exactly
   when the plan has a stored link, and otherwise does the same.
   */
  lemma TasksBeforeLinksRefused(db: Database, plan: GanttPlan)
    requires ValidPlan(plan)
    ensures RunAll(db, TasksFirstOps(plan)).Success? <==> LinksOf(db, plan.id) == {}
    ensures RunAll(db, TasksFirstOps(plan)).Success? ==> RunAll(db, TasksFirstOps(plan)) == RunAll(db, SaveOps(plan))
  {
    hide ValidPlan;
    var rest := TaskInserts(plan, |plan.tasks|) + LinkInserts(plan, |plan.links|);
    var swapped := [InsertPlan(plan.id), DeleteTasks(plan.id), DeleteLinks(plan.id)];
    assert TasksFirstOps(plan) == swapped + rest;
    assert SaveOps(plan) == Header(plan) + rest;
    SwappedHeader(db, plan.id);
    HeaderRuns(db, plan);
    SaveRuns(db, plan);
    RunAllConcat(db, Header(plan), rest);
    hide RunAll, AfterTasks, Header, SaveOps, TasksFirstOps;
    if LinksOf(db, plan.id) == {} {
      RunAllConcat(db, swapped, rest);
    } else {
      assert (swapped + rest)[..3] == swapped;
      RunAllStops(db, swapped + rest, 3);
    }
  }

  lemma SwappedHeader(db: Database, id: string)
    ensures RunAll(db, [InsertPlan(id), DeleteTasks(id), DeleteLinks(id)]).Success? <==> LinksOf(db, id) == {}
    ensures LinksOf(db, id) == {} ==>
              RunAll(db, [InsertPlan(id), DeleteTasks(id), DeleteLinks(id)]) ==
              RunAll(db, [InsertPlan(id), DeleteLinks(id), DeleteTasks(id)])
  {
    var d1 := db.(plans := db.plans + {id});
    assert LinksOf(d1, id) == LinksOf(db, id);
    RunThree(db, InsertPlan(id), DeleteTasks(id), DeleteLinks(id));
    RunThree(db, InsertPlan(id), DeleteLinks(id), DeleteTasks(id));
    if LinksOf(db, id) == {} {
      var d2 := d1.(tasks := d1.tasks - TasksOf(d1, id));
      assert LinksOf(d2, id) == {};
      assert d1.links - LinksOf(d1, id) == d1.links && d2.links - LinksOf(d2, id) == d2.links;
      assert d1.(links := d1.links - LinksOf(d1, id)) == d1 && d2.(links := d2.links - LinksOf(d2, id)) == d2;
    }
  }

  /** A run of three statements. */
  lemma RunThree(db: Database, a: Mutation, b: Mutation, c: Mutation)
    ensures RunAll(db, [a, b, c]) ==
            match Execute(db, a)
            case Failure(e) => Failure(e)
            case Success(d1) =>
              match Execute(d1, b)
              case Failure(e) => Failure(e)
              case Success(d2) => Execute(d2, c)
  {
    hide Execute;
    assert [a, b, c][1..] == [b, c] && [b, c][1..] == [c] && [c][1..] == [];
    if Execute(db, a).Success? {
      var d1 := Execute(db, a).value;
      if Execute(d1, b).Success? {
        var d2 := Execute(d1, b).value;
        assert RunAll(d2, [c]) == Execute(d2, c) by {
          if Execute(d2, c).Success? {
            assert RunAll(Execute(d2, c).value, []) == Execute(d2, c);
          }
        }
      }
    }
  }

  /** Replacing one plan leaves every other plan's rows as they were. */
  lemma OtherPlansUntouched(db: Database, plan: GanttPlan, other: string)
    requires other != plan.id
    ensures other in Replaced(db, plan).plans <==> other in db.plans
    ensures TasksOf(Replaced(db, plan), other) == TasksOf(db, other)
    ensures LinksOf(Replaced(db, plan), other) == LinksOf(db, other)
  {
  }

  // ---------------------------------------------------------------- loading

  function TaskPosition(row: TaskRow): int {
    row.position
  }

  function LinkPosition(row: LinkRow): int {
    row.position
  }

  /** Each row once, by ascending position; SQL leaves ties open. */
  ghost predicate InOrder<R(!new)>(rows: seq<R>, stored: set<R>, position: R -> int) {
    && (forall row :: row in rows <==> row in stored)
    && |rows| == |stored|
    && (forall i, j :: 0 <= i < j < |rows| ==> rows[i] != rows[j] && position(rows[i]) <= position(rows[j]))
  }

  predicate IsI32(v: int) {
    -0x8000_0000 <= v < 0x8000_0000
  }

  predicate IsJulian(v: int) {
    FIRST_DAY <= v <= LAST_DAY
  }

  const CONVERSION := StoreError("persisted value is out of range")

  /** Dates inside the calendar, percentages up to a hundred. */
  function DecodeTask(row: TaskRow): Result<Task, ScheduleError> {
    if !IsJulian(row.startJulian) || !IsJulian(row.finishJulian) then Failure(CONVERSION)
    else if row.percentComplete < 0 || row.percentComplete > 100 then Failure(CONVERSION)
    else Success(Task(row.id, row.name, row.startJulian, row.finishJulian, row.percentComplete))
  }

  /** A known kind token and a 32-bit lag. */
  function DecodeLink(row: LinkRow): Result<TaskLink, ScheduleError> {
    match KindFromToken(row.kind)
    case None => Failure(CONVERSION)
    case Some(kind) =>
      if !IsI32(row.lagDays) then Failure(CONVERSION)
      else Success(TaskLink(row.predecessor, row.successor, kind, row.lagDays))
  }

  function DecodeTasks(rows: seq<TaskRow>): Result<seq<Task>, ScheduleError> {
    if rows == [] then Success([])
    else match (DecodeTasks(rows[..|rows| - 1]), DecodeTask(rows[|rows| - 1]))
      case (Success(front), Success(last)) => Success(front + [last])
      case (Failure(e), _) => Failure(e)
      case (_, Failure(e)) => Failure(e)
  }

  function DecodeLinks(rows: seq<LinkRow>): Result<seq<TaskLink>, ScheduleError> {
    if rows == [] then Success([])
    else match (DecodeLinks(rows[..|rows| - 1]), DecodeLink(rows[|rows| - 1]))
      case (Success(front), Success(last)) => Success(front + [last])
      case (Failure(e), _) => Failure(e)
      case (_, Failure(e)) => Failure(e)
  }

  /** Stored dates and percentages a load takes: days of the calendar, nought to a hundred. */
  predicate StoredInRange(row: TaskRow) {
    && -1_930_999 <= row.startJulian <= 5_373_484
    && -1_930_999 <= row.finishJulian <= 5_373_484
    && 0 <= row.percentComplete <= 100
  }

  /** Stored links a load takes: one of the four kinds and a lag that fits 32 bits. */
  predicate StoredLinkKnown(row: LinkRow) {
    && row.kind in {"finish-start", "start-start", "finish-finish", "start-finish"}
    && -2_147_483_648 <= row.lagDays <= 2_147_483_647
  }

  /** Rows load exactly when every one is in range, and then field by field. */
  lemma {:induction false} DecodeTasksIff(rows: seq<TaskRow>)
    ensures DecodeTasks(rows).Success? <==> forall i :: 0 <= i < |rows| ==> StoredInRange(rows[i])
    ensures DecodeTasks(rows).Success? ==>
              var tasks := DecodeTasks(rows).value;
              && |tasks| == |rows|
              && forall i :: 0 <= i < |rows| ==>
                   && tasks[i].id == rows[i].id && tasks[i].name == rows[i].name
                   && tasks[i].start == rows[i].startJulian && tasks[i].finish == rows[i].finishJulian
                   && tasks[i].percentComplete == rows[i].percentComplete
  {
    if rows != [] {
      DecodeTasksIff(rows[..|rows| - 1]);
    }
  }

  lemma {:induction false} DecodeLinksIff(rows: seq<LinkRow>)
    ensures DecodeLinks(rows).Success? <==> forall i :: 0 <= i < |rows| ==> StoredLinkKnown(rows[i])
    ensures DecodeLinks(rows).Success? ==>
              var links := DecodeLinks(rows).value;
              && |links| == |rows|
              && forall i :: 0 <= i < |rows| ==>
                   && links[i].predecessor == rows[i].predecessor && links[i].successor == rows[i].successor
                   && KindToken(links[i].kind) == rows[i].kind && links[i].lagDays == rows[i].lagDays
  {
    if rows != [] {
      var before := rows[..|rows| - 1];
      DecodeLinksIff(before);
      LastLinkIff(rows[|rows| - 1]);
      hide KindFromToken, KindToken, DecodeLink, StoredLinkKnown;
      assert forall i :: 0 <= i < |before| ==> before[i] == rows[i];
    }
  }

  lemma LastLinkIff(row: LinkRow)
    ensures DecodeLink(row).Success? <==> StoredLinkKnown(row)
    ensures DecodeLink(row).Success? ==>
              var link := DecodeLink(row).value;
              && link.predecessor == row.predecessor && link.successor == row.successor
              && KindToken(link.kind) == row.kind && link.lagDays == row.lagDays
  {
    KindKnownIff(row.kind);
    hide KindFromToken, KindToken;
  }

  lemma KindKnownIff(token: string)
    ensures KindFromToken(token).Some? <==> token in {"finish-start", "start-start", "finish-finish", "start-finish"}
    ensures KindFromToken(token).Some? ==> KindToken(KindFromToken(token).value) == token
    ensures KindFromToken(token) == Some(FinishStart) <==> token == "finish-start"
    ensures KindFromToken(token) == Some(StartStart) <==> token == "start-start"
    ensures KindFromToken(token) == Some(FinishFinish) <==> token == "finish-finish"
  {
    assert "start-start"[0] != "finish-start"[0] && "finish-finish"[7] != "finish-start"[7];
  }

  /** A stored plan loads exactly when every row of it is in range, whatever order ties come in. */
  lemma LoadsIff(db: Database, id: string, ts: seq<TaskRow>, ls: seq<LinkRow>)
    requires InOrder(ts, TasksOf(db, id), TaskPosition) && InOrder(ls, LinksOf(db, id), LinkPosition)
    ensures Assemble(id, DecodeTasks(ts), DecodeLinks(ls)).Success? <==>
              && (forall row :: row in db.tasks && row.planId == id ==> StoredInRange(row))
              && (forall row :: row in db.links && row.planId == id ==> StoredLinkKnown(row))
  {
    hide StoredInRange, StoredLinkKnown, DecodeTasks, DecodeLinks;
    DecodeTasksIff(ts);
    DecodeLinksIff(ls);
    assert forall row :: row in ts <==> row in db.tasks && row.planId == id;
    assert forall row :: row in ls <==> row in db.links && row.planId == id;
    assert (forall i :: 0 <= i < |ts| ==> StoredInRange(ts[i])) <==> (forall row :: row in ts ==> StoredInRange(row));
    assert (forall i :: 0 <= i < |ls| ==> StoredLinkKnown(ls[i]))
           <==> (forall row :: row in ls ==> StoredLinkKnown(row));
  }

  function Assemble(id: string, tasks: Result<seq<Task>, ScheduleError>, links: Result<seq<TaskLink>, ScheduleError>)
    : Result<Option<GanttPlan>, ScheduleError>
  {
    match (tasks, links)
    case (Success(ts), Success(ls)) => Success(Some(GanttPlan(id, ts, ls)))
    case (Failure(e), _) => Failure(e)
    case (_, Failure(e)) => Failure(e)
  }

  /** The answer of a query, unless the provider refused it. */
  function Unless<T>(refused: bool, answer: Result<T, ScheduleError>): Result<T, ScheduleError> {
    if refused then Failure(PROVIDER) else answer
  }

  lemma KindRoundTrip(kind: LinkKind)
    ensures KindFromToken(KindToken(kind)) == Some(kind)
  {
    assert |"start-start"| != |"finish-start"|;
    assert "start-finish"[0] != "finish-start"[0];
    assert "finish-finish"[7] != "finish-start"[7];
    assert |"start-start"| == 11 && |"start-finish"| == 12 && |"finish-finish"| == 13;
  }

  lemma {:induction false} DecodeSavedTasks(plan: GanttPlan, k: nat)
    requires k <= |plan.tasks| && forall i :: 0 <= i < |plan.tasks| ==> ValidTask(plan.tasks[i])
    ensures DecodeTasks(TaskRowSeq(plan, k)) == Success(plan.tasks[..k])
  {
    var rows := TaskRowSeq(plan, k);
    if k > 0 {
      DecodeSavedTasks(plan, k - 1);
      assert rows[..k - 1] == TaskRowSeq(plan, k - 1);
      assert ValidTask(plan.tasks[k - 1]);
      assert DecodeTask(rows[k - 1]) == Success(plan.tasks[k - 1]);
      assert plan.tasks[..k] == plan.tasks[..k - 1] + [plan.tasks[k - 1]];
    }
  }

  lemma {:induction false} DecodeSavedLinks(plan: GanttPlan, k: nat)
    requires k <= |plan.links|
    ensures DecodeLinks(LinkRowSeq(plan, k)) == Success(plan.links[..k])
  {
    var rows := LinkRowSeq(plan, k);
    if k > 0 {
      DecodeSavedLinks(plan, k - 1);
      assert rows[..k - 1] == LinkRowSeq(plan, k - 1);
      LinkRowDecodes(plan, k - 1);
      hide DecodeLink, LinkRowAt;
      assert plan.links[..k] == plan.links[..k - 1] + [plan.links[k - 1]];
    }
  }

  lemma LinkRowDecodes(plan: GanttPlan, i: nat)
    requires i < |plan.links|
    ensures DecodeLink(LinkRowAt(plan, i)) == Success(plan.links[i])
  {
    KindRoundTrip(plan.links[i].kind);
    hide KindToken, KindFromToken;
  }

  /** Rows that carry their own index have only one arrangement by position. */
  lemma OnlyListing<R(!new)>(encoded: seq<R>, rows: seq<R>, stored: set<R>, position: R -> int)
    requires InOrder(rows, stored, position) && |stored| == |encoded|
    requires forall row :: row in stored <==> row in encoded
    requires forall i :: 0 <= i < |encoded| ==> position(encoded[i]) == i
    ensures rows == encoded
  {
    var n := |encoded|;
    forall i | 0 <= i < n
      ensures 0 <= position(rows[i]) < n && rows[i] == encoded[position(rows[i])]
    {
      assert rows[i] in rows;
    }
    var positions := seq(n, i requires 0 <= i < n => position(rows[i]));
    forall i, j | 0 <= i < j < n
      ensures positions[i] < positions[j]
    {
      assert rows[i] != rows[j];
    }
    StrictlyUpIsIdentity(positions, n);
    forall i | 0 <= i < n
      ensures rows[i] == encoded[i]
    {
      assert positions[i] == i == position(rows[i]);
    }
  }

  /** `n` strictly increasing numbers below `n` count up from zero. */
  lemma StrictlyUpIsIdentity(s: seq<int>, n: nat)
    requires |s| == n && forall i, j :: 0 <= i < j < n ==> s[i] < s[j]
    requires forall i :: 0 <= i < n ==> 0 <= s[i] < n
    ensures forall i :: 0 <= i < n ==> s[i] == i
  {
    forall i | 0 <= i < n
      ensures s[i] == i
    {
      AtLeastIndex(s, n, i);
      AtMostIndex(s, n, i);
    }
  }

  lemma {:induction false} AtLeastIndex(s: seq<int>, n: nat, i: nat)
    requires i < n == |s| && (forall j, k :: 0 <= j < k < n ==> s[j] < s[k]) && s[0] >= 0
    ensures s[i] >= i
  {
    if i > 0 {
      AtLeastIndex(s, n, i - 1);
    }
  }

  lemma {:induction false} AtMostIndex(s: seq<int>, n: nat, i: nat)
    requires i < n == |s| && (forall j, k :: 0 <= j < k < n ==> s[j] < s[k]) && s[n - 1] < n
    ensures s[i] <= i
    decreases n - i
  {
    if i < n - 1 {
      AtMostIndex(s, n, i + 1);
    }
  }

  function TaskRowSeq(plan: GanttPlan, k: nat): seq<TaskRow>
    requires k <= |plan.tasks|
  {
    seq(k, i requires 0 <= i < k => TaskRowAt(plan, i))
  }

  function LinkRowSeq(plan: GanttPlan, k: nat): seq<LinkRow>
    requires k <= |plan.links|
  {
    seq(k, i requires 0 <= i < k => LinkRowAt(plan, i))
  }

  lemma SavedTasksListed(db: Database, plan: GanttPlan, rows: seq<TaskRow>)
    requires InOrder(rows, TasksOf(Replaced(db, plan), plan.id), TaskPosition)
    ensures rows == TaskRowSeq(plan, |plan.tasks|)
  {
    hide InOrder, TasksOf, LinksOf, Replaced;
    TaskRowsOnly(db, plan);
    TaskRowsSize(plan, |plan.tasks|);
    SavedTaskRowsAre(plan);
    OnlyListing(TaskRowSeq(plan, |plan.tasks|), rows, TaskRows(plan, |plan.tasks|), TaskPosition);
  }

  lemma TaskRowsOnly(db: Database, plan: GanttPlan)
    ensures TasksOf(Replaced(db, plan), plan.id) == TaskRows(plan, |plan.tasks|)
  {
  }

  lemma SavedTaskRowsAre(plan: GanttPlan)
    ensures var encoded := TaskRowSeq(plan, |plan.tasks|);
            && |encoded| == |plan.tasks|
            && (forall row :: row in TaskRows(plan, |plan.tasks|) <==> row in encoded)
            && forall i :: 0 <= i < |encoded| ==> TaskPosition(encoded[i]) == i
  {
    var encoded := TaskRowSeq(plan, |plan.tasks|);
    assert forall i :: 0 <= i < |plan.tasks| ==> encoded[i] == TaskRowAt(plan, i);
  }

  lemma SavedLinksListed(db: Database, plan: GanttPlan, rows: seq<LinkRow>)
    requires InOrder(rows, LinksOf(Replaced(db, plan), plan.id), LinkPosition)
    ensures rows == LinkRowSeq(plan, |plan.links|)
  {
    hide InOrder, TasksOf, LinksOf, Replaced;
    LinkRowsOnly(db, plan);
    LinkRowsSize(plan, |plan.links|);
    SavedLinkRowsAre(plan);
    OnlyListing(LinkRowSeq(plan, |plan.links|), rows, LinkRows(plan, |plan.links|), LinkPosition);
  }

  lemma LinkRowsOnly(db: Database, plan: GanttPlan)
    ensures LinksOf(Replaced(db, plan), plan.id) == LinkRows(plan, |plan.links|)
  {
  }

  lemma SavedLinkRowsAre(plan: GanttPlan)
    ensures var encoded := LinkRowSeq(plan, |plan.links|);
            && |encoded| == |plan.links|
            && (forall row :: row in LinkRows(plan, |plan.links|) <==> row in encoded)
            && forall i :: 0 <= i < |encoded| ==> LinkPosition(encoded[i]) == i
  {
    var encoded := LinkRowSeq(plan, |plan.links|);
    assert forall i :: 0 <= i < |plan.links| ==> encoded[i] == LinkRowAt(plan, i);
  }

  lemma {:induction false} TaskRowsSize(plan: GanttPlan, k: nat)
    requires k <= |plan.tasks|
    ensures |TaskRows(plan, k)| == k
  {
    if k > 0 {
      TaskRowsSize(plan, k - 1);
      assert TaskRows(plan, k) == TaskRows(plan, k - 1) + {TaskRowAt(plan, k - 1)};
    }
  }

  lemma {:induction false} LinkRowsSize(plan: GanttPlan, k: nat)
    requires k <= |plan.links|
    ensures |LinkRows(plan, k)| == k
  {
    if k > 0 {
      LinkRowsSize(plan, k - 1);
      assert LinkRows(plan, k) == LinkRows(plan, k - 1) + {LinkRowAt(plan, k - 1)};
    }
  }

  // ---------------------------------------------------------------- the store

  class Store {
    var db: Database

    constructor ()
      ensures KeysHold(db) && db == Database({}, {}, {})
    {
      db := Database({}, {}, {});
    }

    /**
     All statements in one transaction; the provider may fail before any of them, or at the commit.
     A failure leaves the database as it was.
     */
    method Transaction(ops: seq<Mutation>, failsAt: Option<nat>) returns (r: Result<(), ScheduleError>)
      requires KeysHold(db)
      modifies this
      ensures KeysHold(db)
      ensures r.Success? <==> RunAll(old(db), ops).Success? && !(failsAt.Some? && failsAt.value <= |ops|)
      ensures r.Success? ==> db == RunAll(old(db), ops).value
      ensures r.Failure? ==> db == old(db)
    {
      hide Execute, KeysHold;
      var tx := db;
      var i := 0;
      assert ops[..0] == [];
      while i < |ops|
        invariant 0 <= i <= |ops|
        invariant RunAll(db, ops[..i]) == Success(tx)
        invariant failsAt.Some? ==> failsAt.value >= i
        invariant db == old(db)
      {
        if failsAt == Some(i) {
          return Failure(PROVIDER);
        }
        var step := Execute(tx, ops[i]);
        RunAllSnoc(db, ops[..i], ops[i]);
        assert ops[..i + 1] == ops[..i] + [ops[i]];
        if step.Failure? {
          RunAllStops(db, ops, i + 1);
          return Failure(step.error);
        }
        tx := step.value;
        i := i + 1;
      }
      if failsAt == Some(i) {
        return Failure(PROVIDER);
      }
      assert ops[..i] == ops;
      EveryStepKeepsKeys(db, ops, i);
      db := tx;
      return Success(());
    }

    /** `save_plan`: validate, build every statement, then replace the plan's snapshot or nothing. */
    method SavePlan(plan: GanttPlan, failsAt: Option<nat>) returns (r: Result<(), ScheduleError>)
      requires KeysHold(db)
      modifies this
      ensures KeysHold(db)
      ensures r.Success? <==>
                ValidPlan(plan) && PositionsFit(plan) && !(failsAt.Some? && failsAt.value <= |SaveOps(plan)|)
      ensures r.Success? ==> db == Replaced(old(db), plan)
      ensures r.Failure? ==> db == old(db)
    {
      var valid := ValidatePlan(plan);
      if valid.Failure? {
        return Failure(valid.error);
      }
      if !PositionsFit(plan) {
        return Failure(StoreError("position does not fit relational INTEGER"));
      }
      SaveRuns(db, plan);
      r := Transaction(SaveOps(plan), failsAt);
    }

    /**
     `load_plan`: nothing for an unknown id, otherwise the decoded rows in position order. The provider
     may refuse any of the three queries, for its row limits among other reasons: plans, tasks, links.
     */
    method LoadPlan(id: string, refused: Option<nat>) returns (r: Result<Option<GanttPlan>, ScheduleError>)
      ensures refused == Some(0) ==> r == Failure(PROVIDER)
      ensures refused != Some(0) && id !in db.plans ==> r == Success(None)
      ensures refused != Some(0) && id in db.plans ==> exists ts, ls ::
                InOrder(ts, TasksOf(db, id), TaskPosition) && InOrder(ls, LinksOf(db, id), LinkPosition)
                && r == Assemble(id, Unless(refused == Some(1), DecodeTasks(ts)),
                                 Unless(refused == Some(2), DecodeLinks(ls)))
    {
      if refused == Some(0) {
        return Failure(PROVIDER);
      }
      if id !in db.plans {
        return Success(None);
      }
      var ts := Select(TasksOf(db, id), TaskPosition);
      var ls := Select(LinksOf(db, id), LinkPosition);
      if refused == Some(1) {
        return Failure(PROVIDER);
      }
      var tasks := DecodeTasks(ts);
      if tasks.Failure? {
        return Failure(tasks.error);
      }
      if refused == Some(2) {
        return Failure(PROVIDER);
      }
      var links := DecodeLinks(ls);
      if links.Failure? {
        return Failure(links.error);
      }
      return Success(Some(GanttPlan(id, tasks.value, links.value)));
    }

    /**
     A committed plan loads back as exactly that plan, whatever was stored before, unless the provider
     refuses one of the three queries; the plan stays committed either way.
     */
    method SaveThenLoad(plan: GanttPlan, refused: Option<nat>) returns (r: Result<Option<GanttPlan>, ScheduleError>)
      requires KeysHold(db) && ValidPlan(plan) && PositionsFit(plan)
      modifies this
      ensures KeysHold(db) && db == Replaced(old(db), plan)
      ensures r == if refused.Some? && refused.value <= 2 then Failure(PROVIDER) else Success(Some(plan))
    {
      hide KeysHold, ValidPlan, Replaced, InOrder, TasksOf, LinksOf, Assemble, Unless, DecodeTasks, DecodeLinks;
      var saved := SavePlan(plan, None);
      ghost var before := old(db);
      HoldsPlan(before, plan);
      r := LoadPlan(plan.id, refused);
      if refused != Some(0) {
        ghost var ts, ls :| InOrder(ts, TasksOf(db, plan.id), TaskPosition)
                            && InOrder(ls, LinksOf(db, plan.id), LinkPosition)
                            && r == Assemble(plan.id, Unless(refused == Some(1), DecodeTasks(ts)),
                                             Unless(refused == Some(2), DecodeLinks(ls)));
        SavedPlanLoads(before, plan, ts, ls, refused);
      }
    }
  }

  lemma HoldsPlan(db: Database, plan: GanttPlan)
    ensures plan.id in Replaced(db, plan).plans
  {
  }

  /** What loading makes of a saved plan, with one of the row queries refused or none. */
  lemma SavedPlanLoads(db: Database, plan: GanttPlan, ts: seq<TaskRow>, ls: seq<LinkRow>, refused: Option<nat>)
    requires ValidPlan(plan)
    requires InOrder(ts, TasksOf(Replaced(db, plan), plan.id), TaskPosition)
    requires InOrder(ls, LinksOf(Replaced(db, plan), plan.id), LinkPosition)
    ensures Assemble(plan.id, Unless(refused == Some(1), DecodeTasks(ts)), Unless(refused == Some(2), DecodeLinks(ls)))
         == if refused == Some(1) || refused == Some(2) then Failure(PROVIDER) else Success(Some(plan))
  {
    hide ValidPlan, InOrder, Replaced, TasksOf, LinksOf, DecodeTasks, DecodeLinks;
    SavedPlanDecodes(db, plan, ts, ls);
  }

  lemma {:induction false} RunAllStops(db: Database, ops: seq<Mutation>, k: nat)
    requires k <= |ops| && RunAll(db, ops[..k]).Failure?
    ensures RunAll(db, ops).Failure?
    decreases k
  {
    if k > 0 && Execute(db, ops[0]).Success? {
      assert ops[..k][1..] == ops[1..][..k - 1];
      RunAllStops(Execute(db, ops[0]).value, ops[1..], k - 1);
    }
  }

  ghost predicate Smallest<R(!new)>(row: R, rows: set<R>, position: R -> int) {
    row in rows && forall other :: other in rows ==> position(row) <= position(other)
  }

  lemma {:induction false} HasSmallest<R(!new)>(rows: set<R>, position: R -> int)
    requires rows != {}
    ensures exists row :: Smallest(row, rows, position)
  {
    var x :| x in rows;
    if rows == {x} {
      assert Smallest(x, rows, position);
    } else {
      var rest := rows - {x};
      assert rows == rest + {x};
      HasSmallest(rest, position);
      var y :| Smallest(y, rest, position);
      assert Smallest(if position(x) <= position(y) then x else y, rows, position);
    }
  }

  lemma InOrderSnoc<R(!new)>(rows: seq<R>, stored: set<R>, position: R -> int, row: R)
    requires InOrder(rows, stored, position) && row !in stored
    requires forall other :: other in stored ==> position(other) <= position(row)
    ensures InOrder(rows + [row], stored + {row}, position)
  {
    var more := rows + [row];
    forall i, j | 0 <= i < j < |more|
      ensures more[i] != more[j] && position(more[i]) <= position(more[j])
    {
      assert more[i] == rows[i] && rows[i] in rows;
      if j < |rows| {
        assert more[j] == rows[j];
      }
    }
  }

  ghost predicate NoneSmaller<R(!new)>(done: set<R>, rest: set<R>, position: R -> int) {
    forall a, b :: a in done && b in rest ==> position(a) <= position(b)
  }

  /** `select` with `ORDER BY position`: repeatedly the smallest position left, ties in any order. */
  method Select<R(!new,==)>(table: set<R>, position: R -> int) returns (rows: seq<R>)
    ensures InOrder(rows, table, position)
  {
    rows := [];
    var rest := table;
    hide InOrder;
    NothingInOrder(table - rest, position);
    while rest != {}
      invariant rest <= table
      invariant InOrder(rows, table - rest, position) && NoneSmaller(table - rest, rest, position)
      decreases rest
    {
      HasSmallest(rest, position);
      var row :| row in rest && forall other :: other in rest ==> position(row) <= position(other);
      InOrderSnoc(rows, table - rest, position, row);
      assert table - (rest - {row}) == (table - rest) + {row};
      rows := rows + [row];
      rest := rest - {row};
    }
    assert table - rest == table;
  }

  lemma NothingInOrder<R(!new)>(none: set<R>, position: R -> int)
    requires none == {}
    ensures InOrder([], none, position)
  {
  }

  /** Any position-ordered reading of a saved plan decodes to that plan. */
  lemma SavedPlanDecodes(db: Database, plan: GanttPlan, ts: seq<TaskRow>, ls: seq<LinkRow>)
    requires ValidPlan(plan)
    requires InOrder(ts, TasksOf(Replaced(db, plan), plan.id), TaskPosition)
    requires InOrder(ls, LinksOf(Replaced(db, plan), plan.id), LinkPosition)
    ensures Assemble(plan.id, DecodeTasks(ts), DecodeLinks(ls)) == Success(Some(plan))
  {
    hide InOrder, Replaced, TasksOf, LinksOf, ValidTask, HasTask, DistinctIds;
    SavedTasksListed(db, plan, ts);
    SavedLinksListed(db, plan, ls);
    DecodeSavedTasks(plan, |plan.tasks|);
    DecodeSavedLinks(plan, |plan.links|);
    assert plan.tasks[..|plan.tasks|] == plan.tasks && plan.links[..|plan.links|] == plan.links;
  }
}
