/** `critical_tasks`: the constraint graph of a plan, the two passes over arrays, and the result. */
module CriticalPath {
  import opened GanttPlans
  import opened Graphs
  import opened Kahn
  import opened Schedules
  import opened Wrappers

  // ---------------------------------------------------------------- the constraint graph

  function ConstraintWeight(kind: LinkKind, predDuration: int, succDuration: int, lag: int): int {
    match kind
    case FinishStart => predDuration + lag
    case StartStart => lag
    case FinishFinish => predDuration + lag - succDuration
    case StartFinish => lag - succDuration
  }

  /** What each kind of link asks of two start times. */
  ghost predicate LinkHolds(
    kind: LinkKind, predStart: int, predDuration: int, succStart: int, succDuration: int, lag: int)
  {
    match kind
    case FinishStart => succStart >= predStart + predDuration + lag
    case StartStart => succStart >= predStart + lag
    case FinishFinish => succStart + succDuration >= predStart + predDuration + lag
    case StartFinish => succStart + succDuration >= predStart + lag
  }

  /** The start-to-start weight of a link says the same as the link. */
  lemma WeightMeansLink(kind: LinkKind, ps: int, pd: int, ss: int, sd: int, lag: int)
    ensures ps + ConstraintWeight(kind, pd, sd, lag) <= ss <==> LinkHolds(kind, ps, pd, ss, sd, lag)
  {
  }

  function IndexOf(tasks: seq<Task>, id: string): (i: nat)
    requires HasTask(tasks, id)
    ensures i < |tasks| && tasks[i].id == id
  {
    if tasks[0].id == id then 0
    else
      assert HasTask(tasks[1..], id) by {
        var j :| 0 <= j < |tasks| && tasks[j].id == id;
        assert tasks[1..][j - 1].id == id;
      }
      1 + IndexOf(tasks[1..], id)
  }

  function Durations(plan: GanttPlan): seq<int> {
    seq(|plan.tasks|, i requires 0 <= i < |plan.tasks| => Duration(plan.tasks[i]))
  }

  function LinkEdge(plan: GanttPlan, link: TaskLink): Edge
    requires HasTask(plan.tasks, link.predecessor) && HasTask(plan.tasks, link.successor)
  {
    var p, s := IndexOf(plan.tasks, link.predecessor), IndexOf(plan.tasks, link.successor);
    Edge(p, s, ConstraintWeight(link.kind, Duration(plan.tasks[p]), Duration(plan.tasks[s]), link.lagDays))
  }

  /** One edge per link, in link order. */
  ghost predicate GraphOf(plan: GanttPlan, g: Graph)
    requires ValidPlan(plan)
  {
    && g.n == |plan.tasks| && |g.edges| == |plan.links|
    && forall i :: 0 <= i < |plan.links| ==> g.edges[i] == LinkEdge(plan, plan.links[i])
  }

  /** `ScheduleGraph::new` */
  method BuildGraph(plan: GanttPlan) returns (g: Graph)
    requires ValidPlan(plan)
    ensures GraphOf(plan, g) && InRange(g)
  {
    var edges: seq<Edge> := [];
    var i := 0;
    while i < |plan.links|
      invariant 0 <= i <= |plan.links| && |edges| == i
      invariant forall j :: 0 <= j < i ==> edges[j] == LinkEdge(plan, plan.links[j])
      invariant forall e :: e in edges ==> e.source < |plan.tasks| && e.target < |plan.tasks|
    {
      edges := edges + [LinkEdge(plan, plan.links[i])];
      i := i + 1;
    }
    g := Graph(|plan.tasks|, edges);
  }

  // ---------------------------------------------------------------- cycles

  ghost predicate Reaches(g: Graph, u: nat, v: nat) {
    exists p :: IsWalk(g, p) && p[0] == u && p[|p| - 1] == v
  }

  ghost predicate Mutual(g: Graph, u: nat, v: nat) {
    Reaches(g, u, v) && Reaches(g, v, u)
  }

  ghost predicate Covered(components: seq<seq<nat>>, v: nat) {
    exists c :: c in components && v in c
  }

  /** What the external strongly-connected-components routine returns. */
  ghost predicate Components(g: Graph, components: seq<seq<nat>>) {
    && (forall c :: c in components ==> NoRepeat(c) && Below(c, g.n))
    && (forall v: nat :: v < g.n ==> Covered(components, v))
    && (forall c, u: nat, v: nat :: c in components && u in c && v < g.n ==> (v in c <==> Mutual(g, u, v)))
  }

  ghost predicate OnCycle(g: Graph, v: nat) {
    exists p :: IsCycle(g, p) && v in p
  }

  lemma SelfLoopIsCycle(g: Graph, e: Edge)
    requires InRange(g) && e in g.edges && e.source == e.target
    ensures OnCycle(g, e.source) && HasCycle(g)
  {
    var p := [e.source, e.source];
    assert Step(g, p[0], p[1]);
    assert IsCycle(g, p) && e.source in p;
  }

  /** Two nodes of one component lie on a common cycle. */
  lemma LargeComponentIsCyclic(g: Graph, components: seq<seq<nat>>, c: seq<nat>, u: nat)
    requires Components(g, components) && c in components && |c| > 1 && u in c
    ensures OnCycle(g, u)
  {
    var i :| 0 <= i < |c| && c[i] == u;
    var v := c[if i == 0 then 1 else 0];
    assert u != v && v in c && u < g.n && v < g.n;
    assert Mutual(g, u, v);
    hide Components;
    var p :| IsWalk(g, p) && p[0] == u && p[|p| - 1] == v;
    var q :| IsWalk(g, q) && q[0] == v && q[|q| - 1] == u;
    JoinedCycle(g, p, q);
  }

  lemma JoinedCycle(g: Graph, p: seq<nat>, q: seq<nat>)
    requires IsWalk(g, p) && IsWalk(g, q)
    requires p[|p| - 1] == q[0] && q[|q| - 1] == p[0] && p[0] != q[0]
    ensures OnCycle(g, p[0])
  {
    WalkJoin(g, p, q);
    hide Step;
    var r := p + q[1..];
    assert |p| > 1 && r[0] == p[0];
    assert IsCycle(g, r) && p[0] in r;
  }

  /** A graph with no self-loop and only single-node components is acyclic. */
  lemma SingleComponentsAcyclic(g: Graph, components: seq<seq<nat>>)
    requires InRange(g) && Components(g, components)
    requires forall e :: e in g.edges ==> e.source != e.target
    requires forall c :: c in components ==> |c| <= 1
    ensures !HasCycle(g)
  {
    forall p | IsWalk(g, p) && |p| >= 2
      ensures p[0] != p[|p| - 1]
    {
      assert Step(g, p[0], p[1]);
      assert p[0] != p[1];
      if p[0] == p[|p| - 1] {
        WalkSlice(g, p, 0, 2);
        WalkSlice(g, p, 1, |p|);
        TwoNodesShareComponent(g, components, p[0], p[1], p[0..2], p[1..]);
      }
    }
  }

  lemma TwoNodesShareComponent(g: Graph, components: seq<seq<nat>>, u: nat, v: nat, p: seq<nat>, q: seq<nat>)
    requires Components(g, components) && forall c :: c in components ==> |c| <= 1
    requires IsWalk(g, p) && p[0] == u && p[|p| - 1] == v
    requires IsWalk(g, q) && q[0] == v && q[|q| - 1] == u
    ensures u == v
  {
    assert u < g.n && Covered(components, u);
    var c :| c in components && u in c;
    assert Mutual(g, u, v);
    assert v in c;
    assert |c| == 1;
  }

  /** Every reported task is on a cycle. */
  ghost predicate NamesCycle(plan: GanttPlan, g: Graph, error: ScheduleError)
    requires g.n == |plan.tasks|
  {
    && error.Cycle? && error.tasks != []
    && forall id :: id in error.tasks ==> exists v: nat :: v < g.n && plan.tasks[v].id == id && OnCycle(g, v)
  }

  /** `ensure_acyclic`: self-loops first, then a component of more than one node. */
  method EnsureAcyclic(plan: GanttPlan, g: Graph, components: seq<seq<nat>>) returns (r: Result<(), ScheduleError>)
    requires InRange(g) && g.n == |plan.tasks| && Components(g, components)
    ensures r.Success? <==> !HasCycle(g)
    ensures r.Failure? ==> NamesCycle(plan, g, r.error)
  {
    var i := 0;
    while i < |g.edges|
      invariant 0 <= i <= |g.edges|
      invariant forall j :: 0 <= j < i ==> g.edges[j].source != g.edges[j].target
    {
      var e := g.edges[i];
      assert e in g.edges;
      if e.source == e.target {
        SelfLoopIsCycle(g, e);
        return Failure(Cycle([plan.tasks[e.source].id]));
      }
      i := i + 1;
    }
    var k := 0;
    while k < |components|
      invariant 0 <= k <= |components|
      invariant forall j :: 0 <= j < k ==> |components[j]| <= 1
    {
      var c := components[k];
      assert c in components;
      if |c| > 1 {
        var ids := seq(|c|, j requires 0 <= j < |c| => plan.tasks[c[j]].id);
        forall id | id in ids
          ensures exists v: nat :: v < g.n && plan.tasks[v].id == id && OnCycle(g, v)
        {
          var j :| 0 <= j < |c| && ids[j] == id;
          assert c[j] in c;
          LargeComponentIsCyclic(g, components, c, c[j]);
        }
        assert c[0] in c;
        LargeComponentIsCyclic(g, components, c, c[0]);
        return Failure(Cycle(ids));
      }
      k := k + 1;
    }
    SingleComponentsAcyclic(g, components);
    return Success(());
  }

  // ---------------------------------------------------------------- the forward pass

  /** The links taken so far hold, and every start is zero or pushed by one of them. */
  ghost predicate Forward(g: Graph, taken: set<Edge>, s: seq<int>)
    requires InRange(g)
  {
    && |s| == g.n && NonNegative(s) && (forall e :: e in taken ==> e in g.edges)
    && (forall e :: e in taken ==> s[e.source] + e.weight <= s[e.target])
    && (forall v: nat :: v < g.n ==> Justified(g, taken, s, v))
  }

  ghost predicate Justified(g: Graph, taken: set<Edge>, s: seq<int>, v: nat)
    requires InRange(g) && |s| == g.n && v < g.n && forall e :: e in taken ==> e in g.edges
  {
    s[v] == 0 || exists e :: e in taken && e.target == v && s[e.source] + e.weight == s[v]
  }

  function Relaxed(s: seq<int>, e: Edge): seq<int>
    requires e.source < |s| && e.target < |s|
  {
    var candidate := s[e.source] + e.weight;
    s[e.target := if s[e.target] >= candidate then s[e.target] else candidate]
  }

  /** Relaxing an edge whose target has no taken outgoing edge disturbs nothing. */
  lemma ForwardRelax(g: Graph, taken: set<Edge>, e: Edge, s: seq<int>)
    requires InRange(g) && e in g.edges && Forward(g, taken, s)
    requires forall f :: f in taken + {e} ==> f.source != e.target
    ensures Forward(g, taken + {e}, Relaxed(s, e))
  {
    var s', more := Relaxed(s, e), taken + {e};
    forall v: nat | v < g.n
      ensures Justified(g, more, s', v)
    {
      RelaxJustifies(g, taken, e, s, v);
    }
    hide Justified;
    forall f | f in more
      ensures s'[f.source] + f.weight <= s'[f.target]
    {
      assert s'[f.source] == s[f.source];
    }
  }

  lemma RelaxJustifies(g: Graph, taken: set<Edge>, e: Edge, s: seq<int>, v: nat)
    requires InRange(g) && e in g.edges && |s| == g.n && v < g.n
    requires forall f :: f in taken ==> f in g.edges
    requires forall f :: f in taken + {e} ==> f.source != e.target
    requires Justified(g, taken, s, v)
    ensures Justified(g, taken + {e}, Relaxed(s, e), v)
  {
    var s' := Relaxed(s, e);
    if s'[v] != s[v] {
      assert e in taken + {e} && e.target == v && s'[e.source] + e.weight == s'[v];
    } else if s[v] != 0 {
      var f :| f in taken && f.target == v && s[f.source] + f.weight == s[v];
      assert f in taken + {e} && s'[f.source] == s[f.source];
    }
  }

  /** Edges out of the first `i` nodes, and the first `k` out of node `i`. */
  ghost function Taken(g: Graph, order: seq<nat>, i: nat, some: seq<Edge>): set<Edge>
    requires i <= |order|
  {
    set e | e in g.edges && (e.source in order[..i] || e in some)
  }

  /** No taken edge leaves the target of the next one. */
  lemma TargetUntouched(g: Graph, order: seq<nat>, i: nat, some: seq<Edge>, e: Edge)
    requires InRange(g) && IsTopological(g, order) && i < |order|
    requires e in g.edges && e.source == order[i]
    requires forall f :: f in some ==> f.source == order[i]
    ensures Taken(g, order, i, some + [e]) == Taken(g, order, i, some) + {e}
    ensures forall f :: f in Taken(g, order, i, some) + {e} ==> f.source != e.target
  {
    EdgeForward(g, order, e, i);
    assert order[..i + 1] == order[..i] + [order[i]];
  }

  lemma ForwardDone(g: Graph, order: seq<nat>, s: seq<int>)
    requires InRange(g) && IsTopological(g, order) && Forward(g, Taken(g, order, |order|, []), s)
    ensures Schedule(g, s) && AllPushed(g, s, order)
  {
    Pigeonhole(order, g.n);
    assert order[..|order|] == order;
    assert forall e :: e in g.edges ==> e in Taken(g, order, |order|, []);
    forall v: nat | v < g.n
      ensures Pushed(g, s, order, v)
    {
      assert Justified(g, Taken(g, order, |order|, []), s, v);
    }
  }

  /** `earliest_starts`: longest paths by relaxing outgoing edges in topological order. */
  method EarliestStarts(g: Graph, order: seq<nat>) returns (earliest: array<int>)
    requires InRange(g) && IsTopological(g, order)
    ensures fresh(earliest) && earliest.Length == g.n
    ensures Schedule(g, earliest[..]) && AllPushed(g, earliest[..], order)
  {
    earliest := new int[g.n](_ => 0);
    var i := 0;
    assert Taken(g, order, 0, []) == {};
    hide IsTopological, Taken, Schedule, AllPushed;
    while i < |order|
      invariant 0 <= i <= |order|
      invariant Forward(g, Taken(g, order, i, []), earliest[..])
    {
      RelaxFrom(g, order, i, earliest);
      i := i + 1;
    }
    ForwardDone(g, order, earliest[..]);
  }

  method RelaxEdge(e: Edge, earliest: array<int>)
    requires e.source < earliest.Length && e.target < earliest.Length
    modifies earliest
    ensures earliest[..] == Relaxed(old(earliest[..]), e)
  {
    var candidate := earliest[e.source] + e.weight;
    earliest[e.target] := if earliest[e.target] >= candidate then earliest[e.target] else candidate;
  }

  method RelaxFrom(g: Graph, order: seq<nat>, i: nat, earliest: array<int>)
    requires InRange(g) && IsTopological(g, order) && i < |order| && earliest.Length == g.n
    requires Forward(g, Taken(g, order, i, []), earliest[..])
    modifies earliest
    ensures Forward(g, Taken(g, order, i + 1, []), earliest[..])
  {
    var node := order[i];
    var nb := Neighbors(g.edges, node);
    assert nb[..0] == [];
    RelaxAll(g, order, i, nb);
    hide IsTopological, Taken, Forward, Neighbors, Relaxed, InRange;
    var k := 0;
    while k < |nb|
      invariant 0 <= k <= |nb|
      invariant Forward(g, Taken(g, order, i, nb[..k]), earliest[..])
    {
      RelaxNext(g, order, i, nb, k, earliest[..]);
      RelaxEdge(nb[k], earliest);
      k := k + 1;
    }
    assert nb[..k] == nb;
  }

  lemma RelaxNext(g: Graph, order: seq<nat>, i: nat, nb: seq<Edge>, k: nat, s: seq<int>)
    requires InRange(g) && IsTopological(g, order) && i < |order|
    requires nb == Neighbors(g.edges, order[i]) && k < |nb| && |s| == g.n
    requires Forward(g, Taken(g, order, i, nb[..k]), s)
    ensures nb[k].source == order[i] < |s| && nb[k].target < |s|
    ensures Forward(g, Taken(g, order, i, nb[..k + 1]), Relaxed(s, nb[k]))
  {
    hide Forward, Relaxed;
    var next := nb[k];
    assert next in nb && forall f :: f in nb[..k] ==> f in nb;
    NeighborsAre(g.edges, order[i]);
    assert nb[..k + 1] == nb[..k] + [next];
    TargetUntouched(g, order, i, nb[..k], next);
    ForwardRelax(g, Taken(g, order, i, nb[..k]), next, s);
  }

  lemma RelaxAll(g: Graph, order: seq<nat>, i: nat, nb: seq<Edge>)
    requires i < |order| && nb == Neighbors(g.edges, order[i])
    ensures Taken(g, order, i, nb) == Taken(g, order, i + 1, [])
  {
    NeighborsAre(g.edges, order[i]);
  }

  // ---------------------------------------------------------------- the backward pass

  method LatestFinish(d: seq<int>, earliest: array<int>) returns (finish: int)
    requires |d| == earliest.Length
    ensures FinishOf(d, earliest[..], finish)
  {
    finish := 0;
    var v := 0;
    while v < earliest.Length
      invariant 0 <= v <= earliest.Length
      invariant forall u :: 0 <= u < v ==> earliest[u] + d[u] <= finish
      invariant if v == 0 then finish == 0 else exists u :: 0 <= u < v && earliest[u] + d[u] == finish
    {
      if v == 0 || earliest[v] + d[v] > finish {
        finish := earliest[v] + d[v];
      }
      v := v + 1;
    }
  }

  /** The smallest of the successors' latest starts less the link weights. */
  method SmallestBound(latest: array<int>, nb: seq<Edge>) returns (bound: int)
    requires nb != [] && forall e :: e in nb ==> e.target < latest.Length
    ensures forall e :: e in nb ==> bound <= latest[e.target] - e.weight
    ensures exists e :: e in nb && bound == latest[e.target] - e.weight
  {
    assert nb[0] in nb;
    bound := latest[nb[0].target] - nb[0].weight;
    var k := 1;
    while k < |nb|
      invariant 1 <= k <= |nb|
      invariant forall j :: 0 <= j < k ==> bound <= latest[nb[j].target] - nb[j].weight
      invariant exists e :: e in nb && bound == latest[e.target] - e.weight
    {
      assert nb[k] in nb;
      if latest[nb[k].target] - nb[k].weight < bound {
        bound := latest[nb[k].target] - nb[k].weight;
      }
      k := k + 1;
    }
  }

  /** Nodes from place `i` on are final: their links hold and their values are held. */
  ghost predicate Backward(g: Graph, order: seq<nat>, i: nat, d: seq<int>, finish: int, s: seq<int>)
    requires InRange(g) && |d| == g.n && i <= |order|
  {
    && |s| == g.n
    && (forall e :: e in g.edges && e.source in order[i..] ==> s[e.source] + e.weight <= s[e.target])
    && (forall v: nat :: v < g.n && v in order[i..] ==> Held(g, d, finish, s, v))
  }

  /** A later value does not disturb the nodes after it, whose targets are later still. */
  lemma BackwardStep(g: Graph, order: seq<nat>, i: nat, d: seq<int>, finish: int, s: seq<int>, value: int)
    requires InRange(g) && IsTopological(g, order) && |d| == g.n && i < |order|
    requires Backward(g, order, i + 1, d, finish, s)
    requires IsSink(g, order[i]) ==> value == finish - d[order[i]]
    requires forall e :: e in g.edges && e.source == order[i] ==> value <= s[e.target] - e.weight
    requires !IsSink(g, order[i]) ==>
              exists e :: e in g.edges && e.source == order[i] && value == s[e.target] - e.weight
    ensures Backward(g, order, i, d, finish, s[order[i] := value])
  {
    var u := order[i];
    var s' := s[u := value];
    assert order[i..] == [u] + order[i + 1..];
    forall e | e in g.edges && e.source in order[i..]
      ensures e.target != u && s'[e.target] == s[e.target]
    {
      TargetLater(g, order, i, e);
    }
    forall v: nat | v < g.n && v in order[i..]
      ensures Held(g, d, finish, s', v)
    {
      if v != u {
        assert v in order[i + 1..];
        assert Held(g, d, finish, s, v);
      }
    }
  }

  /** Edges out of the nodes from place `i` on never lead to node `i`. */
  lemma TargetLater(g: Graph, order: seq<nat>, i: nat, e: Edge)
    requires InRange(g) && IsTopological(g, order) && i < |order|
    requires e in g.edges && e.source in order[i..]
    ensures e.target != order[i]
  {
    var j :| i <= j < |order| && order[j] == e.source;
    EdgeForward(g, order, e, j);
    assert order[..j + 1][i] == order[i];
  }

  lemma BackwardDone(g: Graph, order: seq<nat>, d: seq<int>, finish: int, s: seq<int>)
    requires InRange(g) && IsTopological(g, order) && |d| == g.n && Backward(g, order, 0, d, finish, s)
    ensures Respects(g, s) && AllHeld(g, d, finish, s)
  {
    Pigeonhole(order, g.n);
    assert order[0..] == order;
  }

  /** `latest_starts`: from the back, sinks at the deadline and every other node held by a successor. */
  method LatestStarts(g: Graph, d: seq<int>, order: seq<nat>, earliest: array<int>)
    returns (latest: array<int>, finish: int)
    requires InRange(g) && IsTopological(g, order) && |d| == earliest.Length == g.n
    ensures fresh(latest) && latest.Length == g.n && latest != earliest
    ensures FinishOf(d, earliest[..], finish)
    ensures Respects(g, latest[..]) && AllHeld(g, d, finish, latest[..])
  {
    finish := LatestFinish(d, earliest);
    latest := new int[g.n](_ => finish);
    var i := |order|;
    assert Backward(g, order, i, d, finish, latest[..]);
    hide Backward;
    while i > 0
      invariant 0 <= i <= |order|
      invariant Backward(g, order, i, d, finish, latest[..])
    {
      i := i - 1;
      var node := order[i];
      var successors := Neighbors(g.edges, node);
      NeighborsAre(g.edges, node);
      ghost var before := latest[..];
      if successors == [] {
        latest[node] := finish - d[node];
        assert forall e :: e in g.edges && e.source == node ==> e in successors;
        assert IsSink(g, node);
      } else {
        assert successors[0] in successors;
        assert !IsSink(g, node);
        var bound := SmallestBound(latest, successors);
        latest[node] := bound;
      }
      BackwardStep(g, order, i, d, finish, before, latest[node]);
      assert latest[..] == before[node := latest[node]];
    }
    BackwardDone(g, order, d, finish, latest[..]);
  }

  // ---------------------------------------------------------------- critical tasks

  /** Ids of the chosen tasks, in plan order. */
  ghost function IdsOf(tasks: seq<Task>, chosen: set<nat>): seq<string> {
    if tasks == [] then []
    else
      IdsOf(tasks[..|tasks| - 1], chosen)
      + if |tasks| - 1 in chosen then [tasks[|tasks| - 1].id] else []
  }

  ghost function ForcedTasks(g: Graph, d: seq<int>, finish: int): set<nat>
    requires InRange(g) && |d| == g.n
  {
    set v | v in UpTo(g.n) && Forced(g, d, finish, v)
  }

  /** The listed tasks are exactly those that start on the same day in every feasible schedule. */
  ghost predicate ListsForced(plan: GanttPlan, ids: seq<string>)
    requires ValidPlan(plan)
  {
    exists g, finish ::
      && GraphOf(plan, g) && InRange(g)
      && ProjectFinish(g, Durations(plan), finish)
      && ids == IdsOf(plan.tasks, ForcedTasks(g, Durations(plan), finish))
  }

  /** The ids listed from these two passes over the plan's graph. */
  ghost predicate ListedFrom(
    plan: GanttPlan, ids: seq<string>, g: Graph, order: seq<nat>, finish: int, s: seq<int>, latest: seq<int>)
    requires ValidPlan(plan)
  {
    && GraphOf(plan, g) && InRange(g) && Analysed(g, order, Durations(plan), finish, s, latest)
    && ids == IdsOf(plan.tasks, ForcedTasks(g, Durations(plan), finish))
  }

  /** The ids are what some two passes over the plan's graph list. */
  ghost predicate Listed(plan: GanttPlan, ids: seq<string>)
    requires ValidPlan(plan)
  {
    exists g, order, finish, s, latest :: ListedFrom(plan, ids, g, order, finish, s, latest)
  }

  ghost predicate PlanHasCycle(plan: GanttPlan)
    requires ValidPlan(plan)
  {
    exists g :: GraphOf(plan, g) && HasCycle(g)
  }

  /** The error lists tasks, at least one, and each lies on a cycle of the plan's links. */
  ghost predicate NamesPlanCycle(plan: GanttPlan, error: ScheduleError)
    requires ValidPlan(plan)
  {
    exists g :: GraphOf(plan, g) && g.n == |plan.tasks| && NamesCycle(plan, g, error)
  }

  lemma GraphUnique(plan: GanttPlan, a: Graph, b: Graph)
    requires ValidPlan(plan) && GraphOf(plan, a) && GraphOf(plan, b)
    ensures a == b
  {
    assert a.edges == b.edges;
  }

  /**
   `critical_tasks`. The graph crate's strongly connected components come in as `components`, which
   must be right for the plan's graph.
   */
  method CriticalTasks(plan: GanttPlan, components: seq<seq<nat>>) returns (r: Result<seq<string>, ScheduleError>)
    requires ValidPlan(plan) ==> forall g :: GraphOf(plan, g) ==> Components(g, components)
    ensures r.Success? <==> ValidPlan(plan) && !PlanHasCycle(plan)
    ensures r.Success? ==> ListsForced(plan, r.value) && Listed(plan, r.value)
    ensures r.Failure? && ValidPlan(plan) ==> NamesPlanCycle(plan, r.error)
    ensures r.Failure? && !ValidPlan(plan) ==> Explains(plan, r.error)
  {
    var validated := ValidatePlan(plan);
    if validated.Failure? {
      return Failure(validated.error);
    }
    var d := validated.value;
    assert d == Durations(plan);
    var g := BuildGraph(plan);
    forall h | GraphOf(plan, h)
      ensures h == g
    {
      GraphUnique(plan, h, g);
    }
    hide ValidPlan, GraphOf, Components;
    var acyclic := EnsureAcyclic(plan, g, components);
    if acyclic.Failure? {
      return Failure(acyclic.error);
    }
    var sorted := TopologicalOrder(g);
    var order := sorted.value;
    var earliest := EarliestStarts(g, order);
    var latest, finish := LatestStarts(g, d, order, earliest);
    hide Earliest, Latest, Forced, ProjectFinish, FinishOf, IsTopological, AllPushed, AllHeld, Schedule, Respects;
    AnalysedPasses(g, order, d, finish, earliest[..], latest[..]);
    var ids := ZeroSlackIds(plan, g, d, finish, earliest, latest);
    assert ListedFrom(plan, ids, g, order, finish, earliest[..], latest[..]);
    return Success(ids);
  }

  lemma NoIds(chosen: set<nat>)
    ensures IdsOf([], chosen) == []
  {
  }

  lemma IdsSnoc(tasks: seq<Task>, i: nat, chosen: set<nat>)
    requires i < |tasks|
    ensures IdsOf(tasks[..i + 1], chosen) == IdsOf(tasks[..i], chosen) + if i in chosen then [tasks[i].id] else []
  {
    assert tasks[..i + 1][..i] == tasks[..i];
  }

  lemma ForcedIff(g: Graph, d: seq<int>, finish: int, e: seq<int>, l: seq<int>, i: nat)
    requires InRange(g) && |d| == g.n && i < g.n
    requires Earliest(g, e) && FinishOf(d, e, finish) && Latest(g, d, finish, l)
    ensures |e| == |l| == g.n && (i in ForcedTasks(g, d, finish) <==> e[i] == l[i])
  {
    ZeroSlackIff(g, d, finish, e, l, i);
  }

  method ZeroSlackIds(
    plan: GanttPlan, g: Graph, d: seq<int>, ghost finish: int, earliest: array<int>, latest: array<int>)
    returns (ids: seq<string>)
    requires InRange(g) && |d| == g.n == |plan.tasks| == earliest.Length == latest.Length
    requires Earliest(g, earliest[..]) && FinishOf(d, earliest[..], finish) && Latest(g, d, finish, latest[..])
    ensures ids == IdsOf(plan.tasks, ForcedTasks(g, d, finish))
  {
    ids := [];
    ghost var forced := ForcedTasks(g, d, finish);
    var i := 0;
    hide Earliest, Latest, FinishOf, IdsOf, InRange;
    NoIds(forced);
    while i < |plan.tasks|
      invariant 0 <= i <= |plan.tasks|
      invariant ids == IdsOf(plan.tasks[..i], forced)
    {
      IdsSnoc(plan.tasks, i, forced);
      ForcedIff(g, d, finish, earliest[..], latest[..], i);
      if earliest[i] == latest[i] {
        ids := ids + [plan.tasks[i].id];
      }
      i := i + 1;
    }
    assert plan.tasks[..i] == plan.tasks;
  }
}
