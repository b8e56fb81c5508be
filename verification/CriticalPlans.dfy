/** What the critical-path results mean for whole plans. */
module CriticalPlans {
  import opened Text
  import opened CriticalPath
  import opened GanttPlans
  import opened Graphs
  import opened Schedules

  /** A schedule of the graph is exactly a list of start days from zero on that keeps every link. */
  lemma RespectsMeansLinks(plan: GanttPlan, g: Graph, s: seq<int>)
    requires ValidPlan(plan) && GraphOf(plan, g) && InRange(g) && |s| == |plan.tasks|
    ensures Respects(g, s) <==> forall i :: 0 <= i < |plan.links| ==> KeepsLink(plan, plan.links[i], s)
  {
    hide IndexOf, HasTask, ConstraintWeight, LinkHolds;
    if Respects(g, s) {
      forall i | 0 <= i < |plan.links|
        ensures KeepsLink(plan, plan.links[i], s)
      {
        assert g.edges[i] in g.edges;
        EdgeSaysLink(plan, plan.links[i], s);
      }
    }
    if forall i :: 0 <= i < |plan.links| ==> KeepsLink(plan, plan.links[i], s) {
      forall e | e in g.edges
        ensures s[e.source] + e.weight <= s[e.target]
      {
        var i := LinkOfEdge(plan, g, e);
        EdgeSaysLink(plan, plan.links[i], s);
      }
    }
  }

  lemma LinkOfEdge(plan: GanttPlan, g: Graph, e: Edge) returns (i: nat)
    requires ValidPlan(plan) && GraphOf(plan, g) && e in g.edges
    ensures i < |plan.links| && e == LinkEdge(plan, plan.links[i])
  {
    i :| 0 <= i < |g.edges| && g.edges[i] == e;
  }

  lemma EdgeSaysLink(plan: GanttPlan, link: TaskLink, s: seq<int>)
    requires HasTask(plan.tasks, link.predecessor) && HasTask(plan.tasks, link.successor)
    requires |s| == |plan.tasks|
    ensures var e := LinkEdge(plan, link);
            s[e.source] + e.weight <= s[e.target] <==> KeepsLink(plan, link, s)
  {
    var e := LinkEdge(plan, link);
    hide IndexOf, HasTask;
    WeightMeansLink(link.kind, s[e.source], Duration(plan.tasks[e.source]), s[e.target],
                    Duration(plan.tasks[e.target]), link.lagDays);
  }

  ghost predicate KeepsLink(plan: GanttPlan, link: TaskLink, s: seq<int>)
    requires HasTask(plan.tasks, link.predecessor) && HasTask(plan.tasks, link.successor)
    requires |s| == |plan.tasks|
  {
    var p, t := IndexOf(plan.tasks, link.predecessor), IndexOf(plan.tasks, link.successor);
    LinkHolds(link.kind, s[p], Duration(plan.tasks[p]), s[t], Duration(plan.tasks[t]), link.lagDays)
  }

  lemma {:induction false} ChosenIdsListed(tasks: seq<Task>, chosen: set<nat>, v: nat)
    requires v < |tasks| && v in chosen
    ensures tasks[v].id in IdsOf(tasks, chosen)
  {
    if v < |tasks| - 1 {
      ChosenIdsListed(tasks[..|tasks| - 1], chosen, v);
    }
  }

  /** The ids come out in plan order and name nothing but chosen tasks. */
  lemma {:induction false} ListedIdsChosen(tasks: seq<Task>, chosen: set<nat>)
    ensures |IdsOf(tasks, chosen)| <= |tasks|
    ensures forall id :: id in IdsOf(tasks, chosen) ==> exists v :: 0 <= v < |tasks| && v in chosen && tasks[v].id == id
  {
    if tasks != [] {
      var front := tasks[..|tasks| - 1];
      ListedIdsChosen(front, chosen);
      forall id | id in IdsOf(front, chosen)
        ensures exists v :: 0 <= v < |tasks| && v in chosen && tasks[v].id == id
      {
        var v :| 0 <= v < |front| && v in chosen && front[v].id == id;
        assert tasks[v].id == id;
      }
    }
  }

  /** There is one list: two lists of the forced tasks of a plan are the same. */
  lemma OneList(plan: GanttPlan, ids: seq<string>, g: Graph, finish: int)
    requires ValidPlan(plan) && GraphOf(plan, g) && InRange(g) && ProjectFinish(g, Durations(plan), finish)
    requires ListsForced(plan, ids)
    ensures ids == IdsOf(plan.tasks, ForcedTasks(g, Durations(plan), finish))
  {
    hide ValidPlan, LinkEdge, ProjectFinish, IdsOf, ForcedTasks;
    var h, other :| GraphOf(plan, h) && InRange(h) && ProjectFinish(h, Durations(plan), other)
                    && ids == IdsOf(plan.tasks, ForcedTasks(h, Durations(plan), other));
    GraphUnique(plan, g, h);
    ProjectFinishUnique(g, Durations(plan), finish, other);
  }

  /** The list names the forced tasks and nothing else. */
  lemma ListNamesForced(plan: GanttPlan, ids: seq<string>, g: Graph, finish: int)
    requires ValidPlan(plan) && GraphOf(plan, g) && InRange(g) && ProjectFinish(g, Durations(plan), finish)
    requires ListsForced(plan, ids)
    ensures |ids| <= |plan.tasks|
    ensures forall id :: id in ids <==>
              exists v :: 0 <= v < |plan.tasks| && v in ForcedTasks(g, Durations(plan), finish)
                          && plan.tasks[v].id == id
  {
    OneList(plan, ids, g, finish);
    var chosen := ForcedTasks(g, Durations(plan), finish);
    ListedIdsChosen(plan.tasks, chosen);
    forall v | 0 <= v < |plan.tasks| && v in chosen
      ensures plan.tasks[v].id in ids
    {
      ChosenIdsListed(plan.tasks, chosen, v);
    }
  }

  /** Every task of the chain is on the list. */
  ghost predicate NamesAll(plan: GanttPlan, ids: seq<string>, p: seq<nat>) {
    forall i :: 0 <= i < |p| ==> p[i] < |plan.tasks| && plan.tasks[p[i]].id in ids
  }

  /** A critical chain of the passes that made the list, all of it listed. */
  ghost predicate ListedChain(
    plan: GanttPlan, ids: seq<string>, g: Graph, order: seq<nat>, finish: int, s: seq<int>, latest: seq<int>,
    p: seq<nat>)
    requires ValidPlan(plan)
  {
    && ListedFrom(plan, ids, g, order, finish, s, latest)
    && CriticalChain(g, Durations(plan), finish, s, latest, p)
    && NamesAll(plan, ids, p)
  }

  ghost predicate ContainsChain(plan: GanttPlan, ids: seq<string>)
    requires ValidPlan(plan)
  {
    exists g, order, finish, s, latest, p :: ListedChain(plan, ids, g, order, finish, s, latest, p)
  }

  /** A critical chain is among the listed tasks. */
  lemma ChainIsListed(
    plan: GanttPlan, ids: seq<string>, g: Graph, order: seq<nat>, finish: int, s: seq<int>, latest: seq<int>,
    p: seq<nat>)
    requires ValidPlan(plan) && ListedFrom(plan, ids, g, order, finish, s, latest)
    requires CriticalChain(g, Durations(plan), finish, s, latest, p)
    ensures NamesAll(plan, ids, p)
  {
    AnalysedPasses(g, order, Durations(plan), finish, s, latest);
    forall i | 0 <= i < |p|
      ensures plan.tasks[p[i]].id in ids
    {
      ZeroSlackIff(g, Durations(plan), finish, s, latest, p[i]);
      ChosenIdsListed(plan.tasks, ForcedTasks(g, Durations(plan), finish), p[i]);
    }
  }

  /** Only finish-start links, none with lead. */
  predicate FinishStartOnly(plan: GanttPlan) {
    forall i :: 0 <= i < |plan.links| ==> plan.links[i].kind == FinishStart && plan.links[i].lagDays >= 0
  }

  /** For such plans with at least one task, the list contains a whole critical chain. */
  lemma FinishStartPlanHasChain(plan: GanttPlan, ids: seq<string>)
    requires ValidPlan(plan) && FinishStartOnly(plan) && plan.tasks != []
    ensures Listed(plan, ids) ==> ContainsChain(plan, ids)
  {
    hide ValidPlan, Analysed, CriticalChain, IdsOf, ForcedTasks, NamesAll;
    if g, order, finish, s, latest :| ListedFrom(plan, ids, g, order, finish, s, latest) {
      AnalysedSchedule(g, order, Durations(plan), finish, s, latest);
      FinishStartGraph(plan, g);
      FinishStartHasChain(g, order, Durations(plan), finish, s, latest);
      var p :| CriticalChain(g, Durations(plan), finish, s, latest, p);
      ChainIsListed(plan, ids, g, order, finish, s, latest, p);
      assert ListedChain(plan, ids, g, order, finish, s, latest, p);
    }
  }

  lemma FinishStartGraph(plan: GanttPlan, g: Graph)
    requires ValidPlan(plan) && FinishStartOnly(plan) && GraphOf(plan, g) && InRange(g)
    ensures FinishToStart(g, Durations(plan))
  {
    var d := Durations(plan);
    forall e | e in g.edges
      ensures e.weight >= d[e.source]
    {
      var i :| 0 <= i < |g.edges| && g.edges[i] == e;
      assert e == LinkEdge(plan, plan.links[i]);
    }
    forall v | 0 <= v < g.n
      ensures d[v] >= 0
    {
      assert ValidTask(plan.tasks[v]);
    }
  }

  // ---------------------------------------------------------------- when the list is empty

  /** Among the earliest schedule's last tasks there is one that no link leaves. */
  ghost predicate SomeSinkEndsLast(plan: GanttPlan)
    requires ValidPlan(plan)
  {
    exists g, finish, s :: EndsAtSink(plan, g, finish, s)
  }

  ghost predicate EndsAtSink(plan: GanttPlan, g: Graph, finish: int, s: seq<int>)
    requires ValidPlan(plan)
  {
    && GraphOf(plan, g) && InRange(g) && |s| == g.n && Earliest(g, s)
    && FinishOf(Durations(plan), s, finish) && SinkEndsLast(g, Durations(plan), finish, s)
  }

  /** The list is empty exactly when no sink ends last. */
  lemma EmptyListIff(plan: GanttPlan, ids: seq<string>)
    requires ValidPlan(plan)
    ensures Listed(plan, ids) ==> (ids == [] <==> !SomeSinkEndsLast(plan))
  {
    hide ValidPlan, Analysed, SinkEndsLast, EndsAtSink;
    if g, order, finish, s, latest :| ListedFrom(plan, ids, g, order, finish, s, latest) {
      EmptyFromIff(plan, ids, g, order, finish, s, latest);
    }
  }

  lemma EmptyFromIff(
    plan: GanttPlan, ids: seq<string>, g: Graph, order: seq<nat>, finish: int, s: seq<int>, latest: seq<int>)
    requires ValidPlan(plan) && ListedFrom(plan, ids, g, order, finish, s, latest)
    ensures ids == [] <==> !SomeSinkEndsLast(plan)
  {
    hide ValidPlan, Analysed, SinkEndsLast, Earliest, FinishOf, IdsOf, ForcedTasks, ListsForced, ProjectFinish;
    var d := Durations(plan);
    CriticalChainIff(g, order, d, finish, s, latest);
    AnalysedPasses(g, order, d, finish, s, latest);
    AnalysedSchedule(g, order, d, finish, s, latest);
    if SinkEndsLast(g, d, finish, s) {
      assert EndsAtSink(plan, g, finish, s);
    }
    if SomeSinkEndsLast(plan) {
      var h, other, t :| EndsAtSink(plan, h, other, t);
      GraphUnique(plan, g, h);
      EarliestUnique(g, s, t);
      FinishUnique(d, s, finish, other);
    }
    EmptyIdsIff(plan, g, finish, s, latest);
  }

  lemma AnalysedSchedule(g: Graph, order: seq<nat>, d: seq<int>, finish: int, s: seq<int>, latest: seq<int>)
    requires InRange(g) && Analysed(g, order, d, finish, s, latest)
    ensures |d| == g.n == |s| == |latest| && FinishOf(d, s, finish)
  {
  }

  lemma EarliestUnique(g: Graph, s: seq<int>, t: seq<int>)
    requires InRange(g) && Earliest(g, s) && Earliest(g, t)
    ensures s == t
  {
  }

  lemma FinishUnique(d: seq<int>, s: seq<int>, a: int, b: int)
    requires |d| == |s| && FinishOf(d, s, a) && FinishOf(d, s, b)
    ensures a == b
  {
  }

  lemma EmptyIdsIff(plan: GanttPlan, g: Graph, finish: int, s: seq<int>, latest: seq<int>)
    requires ValidPlan(plan) && GraphOf(plan, g) && InRange(g)
    requires Earliest(g, s) && FinishOf(Durations(plan), s, finish) && Latest(g, Durations(plan), finish, latest)
    ensures IdsOf(plan.tasks, ForcedTasks(g, Durations(plan), finish)) == [] <==>
              forall v :: 0 <= v < g.n ==> s[v] != latest[v]
  {
    hide ValidPlan, Earliest, Latest, FinishOf, Forced;
    var d := Durations(plan);
    var chosen := ForcedTasks(g, d, finish);
    EarliestSize(g, d, finish, s, latest);
    forall v | 0 <= v < g.n
      ensures v in chosen <==> s[v] == latest[v]
    {
      ZeroSlackIff(g, d, finish, s, latest, v);
    }
    ListedIdsChosen(plan.tasks, chosen);
    var ids := IdsOf(plan.tasks, chosen);
    if v :| 0 <= v < g.n && s[v] == latest[v] {
      ChosenIdsListed(plan.tasks, chosen, v);
    }
    if ids != [] {
      assert ids[0] in ids;
    }
  }

  lemma EarliestSize(g: Graph, d: seq<int>, finish: int, s: seq<int>, latest: seq<int>)
    requires InRange(g) && |d| == g.n && Earliest(g, s) && Latest(g, d, finish, latest)
    ensures |s| == g.n == |latest|
  {
  }

  /** Two tasks joined by one start-start link, the first outlasting the second by more than the lag. */
  ghost predicate ShortFollower(plan: GanttPlan) {
    && ValidPlan(plan) && |plan.tasks| == 2 && |plan.links| == 1
    && var link := plan.links[0];
       && link.kind == StartStart && link.lagDays >= 0
       && link.predecessor == plan.tasks[0].id && link.successor == plan.tasks[1].id
       && Duration(plan.tasks[0]) > link.lagDays + Duration(plan.tasks[1])
  }

  /** A plan of ten days with a follower of one day. */
  const SHORT_FOLLOWER := GanttPlan(
    "p",
    [Task("a", "A", 0, 10, 0), Task("b", "B", 0, 1, 0)],
    [TaskLink("a", "b", StartStart, 0)])

  /**
   The restriction to finish-start links is needed: for every valid plan of that shape the list is
   empty, and there are such plans.
   */
  lemma StartStartCanLeaveNothingCritical(plan: GanttPlan)
    requires ShortFollower(plan)
    ensures ListsForced(plan, [])
    ensures ShortFollower(SHORT_FOLLOWER)
  {
    hide HasTask;
    var link := plan.links[0];
    var a, b, lag := Duration(plan.tasks[0]), Duration(plan.tasks[1]), link.lagDays;
    ShortFollowerGraph(plan);
    NothingForced(a, b, lag);
    var g := Graph(2, [Edge(0, 1, lag)]);
    assert Durations(plan) == [a, b];
    hide ValidPlan, ForcedTasks, ProjectFinish;
    NoneChosen(plan.tasks);
    ShortFollowerExists();
  }

  lemma ShortFollowerExists()
    ensures ShortFollower(SHORT_FOLLOWER)
  {
    var plan := SHORT_FOLLOWER;
    assert plan.tasks[0].id == "a" && plan.tasks[1].id == "b" && "a" != "b" by { assert "a"[0] != "b"[0]; }
    assert HasTask(plan.tasks, plan.tasks[0].id) && HasTask(plan.tasks, plan.tasks[1].id);
    assert !IsWhitespace("p"[0]) && !IsWhitespace("a"[0]) && !IsWhitespace("A"[0]);
    assert !IsWhitespace("b"[0]) && !IsWhitespace("B"[0]);
  }

  lemma ShortFollowerGraph(plan: GanttPlan)
    requires ShortFollower(plan)
    ensures GraphOf(plan, Graph(2, [Edge(0, 1, plan.links[0].lagDays)]))
  {
    var link := plan.links[0];
    assert HasTask(plan.tasks, link.predecessor) && HasTask(plan.tasks, link.successor);
    var i, j := IndexOf(plan.tasks, link.predecessor), IndexOf(plan.tasks, link.successor);
    assert i == 0 && j == 1;
    assert LinkEdge(plan, link) == Edge(0, 1, link.lagDays);
  }

  lemma {:induction false} NoneChosen(tasks: seq<Task>)
    ensures IdsOf(tasks, {}) == []
  {
    if tasks != [] {
      NoneChosen(tasks[..|tasks| - 1]);
    }
  }

  lemma NothingForced(a: nat, b: nat, lag: nat)
    requires a > lag + b
    ensures var g := Graph(2, [Edge(0, 1, lag)]);
            && InRange(g) && ProjectFinish(g, [a, b], a) && ForcedTasks(g, [a, b], a) == {}
  {
    hide ForcedTasks, Forced, Analysed, ProjectFinish;
    var g := Graph(2, [Edge(0, 1, lag)]);
    var s, latest := [0, lag], [a - b - lag, a - b];
    ShortFollowerPasses(a, b, lag);
    AnalysedPasses(g, [0, 1], [a, b], a, s, latest);
    AnalysedSchedule(g, [0, 1], [a, b], a, s, latest);
    NoSlackNowhere(g, [a, b], a, s, latest);
  }

  lemma NoSlackNowhere(g: Graph, d: seq<int>, finish: int, s: seq<int>, latest: seq<int>)
    requires InRange(g) && |d| == g.n == |s| == |latest|
    requires Earliest(g, s) && FinishOf(d, s, finish) && Latest(g, d, finish, latest)
    requires forall v :: 0 <= v < g.n ==> s[v] != latest[v]
    ensures ForcedTasks(g, d, finish) == {}
  {
    hide Forced, Earliest, Latest, FinishOf;
    forall v | 0 <= v < g.n
      ensures !Forced(g, d, finish, v)
    {
      ZeroSlackIff(g, d, finish, s, latest, v);
    }
  }

  lemma ShortFollowerPasses(a: nat, b: nat, lag: nat)
    requires a > lag + b
    ensures var g := Graph(2, [Edge(0, 1, lag)]);
            InRange(g) && Analysed(g, [0, 1], [a, b], a, [0, lag], [a - b - lag, a - b])
  {
    var e := Edge(0, 1, lag);
    var g := Graph(2, [e]);
    var s, latest := [0, lag], [a - b - lag, a - b];
    assert forall f :: f in g.edges ==> f == e;
    assert e in g.edges;
    assert [0, 1][..1] == [0];
    assert !IsSink(g, 0) && IsSink(g, 1);
    assert Pushed(g, s, [0, 1], 1);
    assert s[0] + [a, b][0] == a;
  }

  /** With 31-bit durations and 32-bit lags no weight leaves 33 bits, whatever the link kind. */
  lemma PlanIsBounded(plan: GanttPlan, g: Graph)
    requires ValidPlan(plan) && GraphOf(plan, g) && |plan.tasks| <= TASK_LIMIT
    ensures Bounded(g, Durations(plan))
  {
    hide LinkEdge, HasTask, DistinctIds;
    forall v | 0 <= v < g.n
      ensures 0 <= Durations(plan)[v] < 0x8000_0000
    {
      assert ValidTask(plan.tasks[v]);
    }
    forall e | e in g.edges
      ensures -WEIGHT_LIMIT < e.weight < WEIGHT_LIMIT
    {
      var i := LinkOfEdge(plan, g, e);
      LinkWeightBounded(plan, plan.links[i]);
    }
  }

  lemma LinkWeightBounded(plan: GanttPlan, link: TaskLink)
    requires forall i :: 0 <= i < |plan.tasks| ==> ValidTask(plan.tasks[i])
    requires HasTask(plan.tasks, link.predecessor) && HasTask(plan.tasks, link.successor)
    ensures -WEIGHT_LIMIT < LinkEdge(plan, link).weight < WEIGHT_LIMIT
  {
    hide IndexOf, HasTask;
    var e := LinkEdge(plan, link);
    assert ValidTask(plan.tasks[e.source]) && ValidTask(plan.tasks[e.target]);
  }

  /** Every number the two passes handle: durations, weights and the sums they are made of, starts and ends. */
  ghost predicate PassesFit(plan: GanttPlan, g: Graph, finish: int, s: seq<int>, latest: seq<int>)
    requires InRange(g) && g.n == |plan.tasks| == |s| == |latest|
  {
    && FitsI64(finish)
    && (forall v :: 0 <= v < g.n ==>
          && 0 <= s[v] <= latest[v] && FitsI64(latest[v])
          && FitsI64(s[v] + Durations(plan)[v]) && FitsI64(finish - Durations(plan)[v]))
    && (forall e :: e in g.edges ==>
          FitsI64(e.weight) && FitsI64(s[e.source] + e.weight) && FitsI64(latest[e.target] - e.weight))
  }

  /** The sums a link's weight is made of, one operation at a time. */
  ghost predicate WeightFits(plan: GanttPlan, link: TaskLink)
    requires HasTask(plan.tasks, link.predecessor) && HasTask(plan.tasks, link.successor)
  {
    var p, t := IndexOf(plan.tasks, link.predecessor), IndexOf(plan.tasks, link.successor);
    var pd, sd, lag := Duration(plan.tasks[p]), Duration(plan.tasks[t]), link.lagDays;
    FitsI64(pd + lag) && FitsI64(lag - sd) && FitsI64(pd + lag - sd)
  }

  /**
   Machine integers are enough for every valid plan of up to 2^28 tasks: whatever two passes made the
   list, nothing they compute leaves 64 bits.
   */
  lemma PlanNeverOverflows(
    plan: GanttPlan, ids: seq<string>, g: Graph, order: seq<nat>, finish: int, s: seq<int>, latest: seq<int>)
    requires ValidPlan(plan) && |plan.tasks| <= TASK_LIMIT && ListedFrom(plan, ids, g, order, finish, s, latest)
    ensures g.n == |plan.tasks| == |s| == |latest| && PassesFit(plan, g, finish, s, latest)
    ensures forall i :: 0 <= i < |plan.links| ==> WeightFits(plan, plan.links[i])
  {
    hide Analysed, IdsOf, ForcedTasks, LinkEdge, Bounded, ValidPlan;
    PlanIsBounded(plan, g);
    NoOverflow(g, order, Durations(plan), finish, s, latest);
    AnalysedSchedule(g, order, Durations(plan), finish, s, latest);
  }

}
