/** Gantt plans and their validation. */
module GanttPlans {
  import opened Text
  import opened Wrappers

  type i32 = n: int | -0x8000_0000 <= n < 0x8000_0000

  /** Julian day numbers of the first day of the year -9999 and the last day of the year 9999. */
  const FIRST_DAY := -1_930_999
  const LAST_DAY := 5_373_484

  /** A day of the `time` crate's calendar. */
  type JulianDay = n: int | FIRST_DAY <= n <= LAST_DAY

  type u8 = n: int | 0 <= n < 256

  datatype LinkKind = FinishStart | StartStart | FinishFinish | StartFinish

  datatype Task = Task(id: string, name: string, start: JulianDay, finish: JulianDay, percentComplete: u8)

  datatype TaskLink = TaskLink(predecessor: string, successor: string, kind: LinkKind, lagDays: i32)

  datatype GanttPlan = GanttPlan(id: string, tasks: seq<Task>, links: seq<TaskLink>)

  datatype ScheduleError =
    | InvalidField(field: string)
    | DuplicateTask(id: string)
    | MissingTask(id: string)
    | Cycle(tasks: seq<string>)
    | StoreError(reason: string)

  function Duration(task: Task): i32 {
    task.finish - task.start
  }

  predicate ValidTask(task: Task) {
    !Blank(task.id) && !Blank(task.name) && task.percentComplete <= 100 && Duration(task) >= 0
  }

  ghost predicate DistinctIds(tasks: seq<Task>) {
    forall i, j :: 0 <= i < j < |tasks| ==> tasks[i].id != tasks[j].id
  }

  predicate HasTask(tasks: seq<Task>, id: string) {
    exists i :: 0 <= i < |tasks| && tasks[i].id == id
  }

  /** The public plan boundary: named, well-formed tasks with distinct ids, and links between them. */
  ghost predicate ValidPlan(plan: GanttPlan) {
    && !Blank(plan.id)
    && (forall i :: 0 <= i < |plan.tasks| ==> ValidTask(plan.tasks[i]))
    && DistinctIds(plan.tasks)
    && (forall i :: 0 <= i < |plan.links| ==>
          HasTask(plan.tasks, plan.links[i].predecessor) && HasTask(plan.tasks, plan.links[i].successor))
  }

  ghost predicate HasVisible(s: string) {
    exists i :: 0 <= i < |s| && !IsWhitespace(s[i])
  }

  /**
   Valid plans in plain words: names with a visible character, percentages up to a hundred, no task that
   finishes before it starts, no id twice, and links between tasks of the plan.
   */
  lemma ValidPlanIff(plan: GanttPlan)
    ensures ValidPlan(plan) <==>
              && HasVisible(plan.id)
              && (forall task :: task in plan.tasks ==>
                    && HasVisible(task.id) && HasVisible(task.name)
                    && task.percentComplete <= 100 && task.start <= task.finish)
              && (forall i, j :: 0 <= i < |plan.tasks| && 0 <= j < |plan.tasks| && plan.tasks[i].id == plan.tasks[j].id
                    ==> i == j)
              && (forall link :: link in plan.links ==>
                    && (exists task :: task in plan.tasks && task.id == link.predecessor)
                    && (exists task :: task in plan.tasks && task.id == link.successor))
  {
    assert HasVisible(plan.id) <==> !Blank(plan.id);
    assert forall task :: task in plan.tasks ==> (HasVisible(task.id) <==> !Blank(task.id));
    assert forall task :: task in plan.tasks ==> (HasVisible(task.name) <==> !Blank(task.name));
    hide Blank, HasVisible;
    forall id
      ensures HasTask(plan.tasks, id) <==> exists task :: task in plan.tasks && task.id == id
    {
      HasTaskIff(plan.tasks, id);
    }
    TasksIff(plan);
  }

  lemma HasTaskIff(tasks: seq<Task>, id: string)
    ensures HasTask(tasks, id) <==> exists task :: task in tasks && task.id == id
  {
    if HasTask(tasks, id) {
      var i :| 0 <= i < |tasks| && tasks[i].id == id;
      assert tasks[i] in tasks;
    }
  }

  lemma TasksIff(plan: GanttPlan)
    ensures (forall i :: 0 <= i < |plan.tasks| ==> ValidTask(plan.tasks[i])) <==>
            (forall task :: task in plan.tasks ==> ValidTask(task))
    ensures forall task :: ValidTask(task) <==>
              !Blank(task.id) && !Blank(task.name) && task.percentComplete <= 100 && task.start <= task.finish
  {
  }

  function IdField(index: nat): string {
    "tasks[" + NatText(index) + "].id"
  }

  function TaskField(task: Task, name: string): string {
    "task " + task.id + " " + name
  }

  /** The field named is the one of this task that is wrong. */
  predicate NamesFault(task: Task, index: nat, field: string) {
    || (Blank(task.id) && field == "tasks[" + NatText(index) + "].id")
    || (Blank(task.name) && field == "task " + task.id + " name")
    || (task.percentComplete > 100 && field == "task " + task.id + " percent_complete")
    || (task.finish < task.start && field == "task " + task.id + " finish")
  }

  lemma FieldTexts(task: Task, index: nat)
    ensures IdField(index) == "tasks[" + NatText(index) + "].id"
    ensures TaskField(task, "name") == "task " + task.id + " name"
    ensures TaskField(task, "percent_complete") == "task " + task.id + " percent_complete"
    ensures TaskField(task, "finish") == "task " + task.id + " finish"
  {
    assert " " + "name" == " name" && " " + "percent_complete" == " percent_complete" && " " + "finish" == " finish";
  }

  /** A failure names something that is really wrong with the plan. */
  ghost predicate Explains(plan: GanttPlan, error: ScheduleError) {
    match error
    case InvalidField(field) =>
      || (Blank(plan.id) && field == "plan.id")
      || exists i :: 0 <= i < |plan.tasks| && NamesFault(plan.tasks[i], i, field)
    case DuplicateTask(id) => exists i, j :: 0 <= i < j < |plan.tasks| && plan.tasks[i].id == plan.tasks[j].id == id
    case MissingTask(id) =>
      !HasTask(plan.tasks, id)
      && exists i :: 0 <= i < |plan.links| && (plan.links[i].predecessor == id || plan.links[i].successor == id)
    case _ => false
  }

  /** `validate_plan`: accepts exactly the valid plans and returns their durations in task order. */
  method ValidatePlan(plan: GanttPlan) returns (r: Result<seq<int>, ScheduleError>)
    ensures r.Success? <==> ValidPlan(plan)
    ensures r.Success? ==> |r.value| == |plan.tasks|
    ensures r.Success? ==> forall i :: 0 <= i < |plan.tasks| ==> r.value[i] == Duration(plan.tasks[i])
    ensures r.Failure? ==> Explains(plan, r.error)
  {
    hide Trim, Blank, HasTask, DistinctIds, IdField, TaskField;
    TrimEmptyIffBlank(plan.id);
    NoTasks();
    if Trim(plan.id) == [] {
      return Failure(InvalidField("plan.id"));
    }
    var seen: set<string> := {};
    assert plan.tasks[..0] == [];
    var durations: seq<int> := [];
    var i := 0;
    while i < |plan.tasks|
      invariant 0 <= i <= |plan.tasks| && |durations| == i
      invariant forall j :: 0 <= j < i ==> ValidTask(plan.tasks[j])
      invariant forall j :: 0 <= j < i ==> durations[j] == Duration(plan.tasks[j])
      invariant DistinctIds(plan.tasks[..i])
      invariant forall id :: id in seen <==> HasTask(plan.tasks[..i], id)
    {
      var task := plan.tasks[i];
      TrimEmptyIffBlank(task.id);
      TrimEmptyIffBlank(task.name);
      FieldTexts(task, i);
      if Trim(task.id) == [] {
        return Failure(InvalidField(IdField(i)));
      }
      if Trim(task.name) == [] {
        return Failure(InvalidField(TaskField(task, "name")));
      }
      if task.percentComplete > 100 {
        return Failure(InvalidField(TaskField(task, "percent_complete")));
      }
      var duration := Duration(task);
      if duration < 0 {
        return Failure(InvalidField(TaskField(task, "finish")));
      }
      if task.id in seen {
        DuplicateFound(plan.tasks, i);
        return Failure(DuplicateTask(task.id));
      }
      HasTaskSnoc(plan.tasks, i);
      seen := seen + {task.id};
      durations := durations + [duration];
      i := i + 1;
    }
    assert plan.tasks[..i] == plan.tasks;
    var k := 0;
    while k < |plan.links|
      invariant 0 <= k <= |plan.links|
      invariant forall j :: 0 <= j < k ==>
        HasTask(plan.tasks, plan.links[j].predecessor) && HasTask(plan.tasks, plan.links[j].successor)
    {
      var link := plan.links[k];
      if link.predecessor !in seen {
        return Failure(MissingTask(link.predecessor));
      }
      if link.successor !in seen {
        return Failure(MissingTask(link.successor));
      }
      k := k + 1;
    }
    return Success(durations);
  }

  lemma NoTasks()
    ensures DistinctIds([]) && forall id :: !HasTask([], id)
  {
  }

  lemma DuplicateFound(tasks: seq<Task>, i: nat)
    requires i < |tasks| && HasTask(tasks[..i], tasks[i].id)
    ensures !DistinctIds(tasks)
    ensures exists j, k :: 0 <= j < k < |tasks| && tasks[j].id == tasks[k].id == tasks[i].id
  {
    var j :| 0 <= j < i && tasks[..i][j].id == tasks[i].id;
    assert tasks[j].id == tasks[i].id;
  }

  lemma HasTaskSnoc(tasks: seq<Task>, i: nat)
    requires i < |tasks|
    ensures forall id :: HasTask(tasks[..i + 1], id) <==> HasTask(tasks[..i], id) || id == tasks[i].id
    ensures DistinctIds(tasks[..i]) && !HasTask(tasks[..i], tasks[i].id) ==> DistinctIds(tasks[..i + 1])
  {
    var a, b := tasks[..i], tasks[..i + 1];
    assert b == a + [tasks[i]];
    forall id
      ensures HasTask(b, id) <==> HasTask(a, id) || id == tasks[i].id
    {
      if HasTask(a, id) {
        var j :| 0 <= j < |a| && a[j].id == id;
        assert b[j].id == id;
      }
      if id == tasks[i].id {
        assert b[i].id == id;
      }
    }
    if DistinctIds(a) && !HasTask(a, tasks[i].id) {
      assert forall j :: 0 <= j < i ==> a[j].id != tasks[i].id;
    }
  }
}
