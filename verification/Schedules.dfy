/**
 Earliest and latest starts on an acyclic constraint graph: what makes them the least and the
 greatest solution, what zero slack means for every schedule, and when a critical chain exists.
 */
module Schedules {
  import opened Graphs

  /** Every link constraint holds: a target starts at least the weight after its source. */
  ghost predicate Respects(g: Graph, s: seq<int>)
    requires InRange(g)
  {
    |s| == g.n && forall e :: e in g.edges ==> s[e.source] + e.weight <= s[e.target]
  }

  ghost predicate NonNegative(s: seq<int>) {
    forall v :: 0 <= v < |s| ==> s[v] >= 0
  }

  /** A start time for every task, from day zero on, that respects every link. */
  ghost predicate Schedule(g: Graph, s: seq<int>)
    requires InRange(g)
  {
    Respects(g, s) && NonNegative(s)
  }

  ghost predicate IsSink(g: Graph, v: nat) {
    forall e :: e in g.edges ==> e.source != v
  }

  /** Every sink is done by the deadline; only sinks are bounded. */
  ghost predicate SinksDone(g: Graph, d: seq<int>, finish: int, s: seq<int>)
    requires |d| == g.n && |s| == g.n
  {
    forall v :: 0 <= v < g.n && IsSink(g, v) ==> s[v] + d[v] <= finish
  }

  ghost predicate Feasible(g: Graph, d: seq<int>, finish: int, s: seq<int>)
    requires InRange(g) && |d| == g.n
  {
    Schedule(g, s) && SinksDone(g, d, finish, s)
  }

  // ---------------------------------------------------------------- the least solution

  /** Start `v` is zero or pushed exactly by one incoming link whose source is among `from`. */
  ghost predicate Pushed(g: Graph, s: seq<int>, from: seq<nat>, v: nat)
    requires InRange(g) && |s| == g.n && v < g.n
  {
    s[v] == 0 || exists e :: e in g.edges && e.target == v && e.source in from && s[e.source] + e.weight == s[v]
  }

  ghost predicate AllPushed(g: Graph, s: seq<int>, from: seq<nat>)
    requires InRange(g) && |s| == g.n
  {
    forall v: nat :: v < g.n ==> Pushed(g, s, from, v)
  }

  /** Least among all schedules. */
  ghost predicate Earliest(g: Graph, s: seq<int>)
    requires InRange(g)
  {
    Schedule(g, s) && forall t :: Schedule(g, t) ==> forall v :: 0 <= v < g.n ==> s[v] <= t[v]
  }

  lemma {:induction false} PushedIsLeast(g: Graph, order: seq<nat>, s: seq<int>, t: seq<int>, i: nat)
    requires InRange(g) && IsTopological(g, order) && i < g.n
    requires Schedule(g, s) && AllPushed(g, s, order) && Schedule(g, t)
    ensures s[order[i]] <= t[order[i]]
    decreases i
  {
    var v := order[i];
    assert Pushed(g, s, order, v);
    if s[v] != 0 {
      var e :| e in g.edges && e.target == v && e.source in order && s[e.source] + e.weight == s[v];
      assert e.source in order[..i];
      var j :| 0 <= j < i && order[..i][j] == e.source;
      PushedIsLeast(g, order, s, t, j);
    }
  }

  lemma PushedIsEarliest(g: Graph, order: seq<nat>, s: seq<int>)
    requires InRange(g) && IsTopological(g, order)
    requires Schedule(g, s) && AllPushed(g, s, order)
    ensures Earliest(g, s)
  {
    Pigeonhole(order, g.n);
    forall t, v | Schedule(g, t) && 0 <= v < g.n
      ensures s[v] <= t[v]
    {
      assert v in order;
      var i :| 0 <= i < |order| && order[i] == v;
      PushedIsLeast(g, order, s, t, i);
    }
  }

  // ---------------------------------------------------------------- the greatest solution

  /** A latest start is the deadline less the duration at a sink, and elsewhere held by one link. */
  ghost predicate Held(g: Graph, d: seq<int>, finish: int, s: seq<int>, v: nat)
    requires InRange(g) && |s| == g.n && |d| == g.n && v < g.n
  {
    if IsSink(g, v) then s[v] == finish - d[v]
    else exists e :: e in g.edges && e.source == v && s[v] == s[e.target] - e.weight
  }

  ghost predicate AllHeld(g: Graph, d: seq<int>, finish: int, s: seq<int>)
    requires InRange(g) && |s| == g.n && |d| == g.n
  {
    forall v: nat :: v < g.n ==> Held(g, d, finish, s, v)
  }

  /** Greatest among everything that respects the links and has every sink done. */
  ghost predicate Latest(g: Graph, d: seq<int>, finish: int, s: seq<int>)
    requires InRange(g) && |d| == g.n
  {
    && Respects(g, s) && SinksDone(g, d, finish, s)
    && forall t :: Respects(g, t) && SinksDone(g, d, finish, t) ==> forall v :: 0 <= v < g.n ==> t[v] <= s[v]
  }

  lemma {:induction false} HeldIsGreatest(
    g: Graph, d: seq<int>, finish: int, order: seq<nat>, s: seq<int>, t: seq<int>, i: nat)
    requires InRange(g) && IsTopological(g, order) && i < g.n && |d| == g.n
    requires Respects(g, s) && AllHeld(g, d, finish, s)
    requires Respects(g, t) && SinksDone(g, d, finish, t)
    ensures t[order[i]] <= s[order[i]]
    decreases g.n - i
  {
    var v := order[i];
    assert Held(g, d, finish, s, v);
    if !IsSink(g, v) {
      var e :| e in g.edges && e.source == v && s[v] == s[e.target] - e.weight;
      EdgeForward(g, order, e, i);
      var j :| i < j && IndexIn(order, e.target, j);
      HeldIsGreatest(g, d, finish, order, s, t, j);
    }
  }

  lemma HeldIsLatest(g: Graph, d: seq<int>, finish: int, order: seq<nat>, s: seq<int>)
    requires InRange(g) && IsTopological(g, order) && |d| == g.n
    requires Respects(g, s) && AllHeld(g, d, finish, s)
    ensures Latest(g, d, finish, s)
  {
    Pigeonhole(order, g.n);
    forall v: nat | v < g.n && IsSink(g, v)
      ensures s[v] + d[v] <= finish
    {
      assert Held(g, d, finish, s, v);
    }
    forall t, v | Respects(g, t) && SinksDone(g, d, finish, t) && 0 <= v < g.n
      ensures t[v] <= s[v]
    {
      assert v in order;
      var i :| 0 <= i < |order| && order[i] == v;
      HeldIsGreatest(g, d, finish, order, s, t, i);
    }
  }

  // ---------------------------------------------------------------- the project finish

  /** The finish of a list of starts: the largest start plus duration, or zero for no tasks. */
  ghost predicate FinishOf(d: seq<int>, s: seq<int>, finish: int)
    requires |d| == |s|
  {
    && (forall v :: 0 <= v < |s| ==> s[v] + d[v] <= finish)
    && (if s == [] then finish == 0 else exists v :: 0 <= v < |s| && s[v] + d[v] == finish)
  }

  /** No schedule finishes all its tasks sooner, and some schedule finishes them all by then. */
  ghost predicate ProjectFinish(g: Graph, d: seq<int>, finish: int)
    requires InRange(g) && |d| == g.n
  {
    && (exists s :: Schedule(g, s) && FinishOf(d, s, finish))
    && (forall s, f :: Schedule(g, s) && FinishOf(d, s, f) ==> finish <= f)
  }

  lemma EarliestGivesFinish(g: Graph, d: seq<int>, earliest: seq<int>, finish: int)
    requires InRange(g) && |d| == g.n && Earliest(g, earliest) && FinishOf(d, earliest, finish)
    ensures ProjectFinish(g, d, finish)
  {
    forall s, f | Schedule(g, s) && FinishOf(d, s, f)
      ensures finish <= f
    {
      if earliest != [] {
        var v :| 0 <= v < g.n && earliest[v] + d[v] == finish;
        assert earliest[v] <= s[v];
      }
    }
  }

  /** There is only one project finish. */
  lemma ProjectFinishUnique(g: Graph, d: seq<int>, a: int, b: int)
    requires InRange(g) && |d| == g.n && ProjectFinish(g, d, a) && ProjectFinish(g, d, b)
    ensures a == b
  {
    var s :| Schedule(g, s) && FinishOf(d, s, a);
    var t :| Schedule(g, t) && FinishOf(d, t, b);
  }

  // ---------------------------------------------------------------- zero slack

  /** Every feasible schedule starts the task on the same day. */
  ghost predicate Forced(g: Graph, d: seq<int>, finish: int, v: nat)
    requires InRange(g) && |d| == g.n && v < g.n
  {
    forall s, t :: Feasible(g, d, finish, s) && Feasible(g, d, finish, t) ==> s[v] == t[v]
  }

  /** Both passes give feasible schedules, and every feasible one lies between them. */
  lemma PassesBracket(g: Graph, d: seq<int>, finish: int, earliest: seq<int>, latest: seq<int>)
    requires InRange(g) && |d| == g.n
    requires Earliest(g, earliest) && FinishOf(d, earliest, finish) && Latest(g, d, finish, latest)
    ensures Feasible(g, d, finish, earliest) && Feasible(g, d, finish, latest)
    ensures forall s :: Feasible(g, d, finish, s) ==>
              forall v :: 0 <= v < g.n ==> earliest[v] <= s[v] <= latest[v]
  {
    assert SinksDone(g, d, finish, earliest);
    assert forall v :: 0 <= v < g.n ==> earliest[v] <= latest[v];
  }

  /** Zero slack is exactly being forced. */
  lemma ZeroSlackIff(g: Graph, d: seq<int>, finish: int, earliest: seq<int>, latest: seq<int>, v: nat)
    requires InRange(g) && |d| == g.n && v < g.n
    requires Earliest(g, earliest) && FinishOf(d, earliest, finish) && Latest(g, d, finish, latest)
    ensures earliest[v] == latest[v] <==> Forced(g, d, finish, v)
  {
    PassesBracket(g, d, finish, earliest, latest);
  }

  // ---------------------------------------------------------------- critical chains

  /** Consecutive tasks joined by links that leave no room between their earliest starts. */
  ghost predicate TightWalk(g: Graph, s: seq<int>, p: seq<nat>)
    requires InRange(g) && |s| == g.n
  {
    && p != []
    && (forall i :: 0 <= i < |p| ==> p[i] < g.n)
    && (forall i :: 0 <= i < |p| - 1 ==> Tight(g, s, p[i], p[i + 1]))
  }

  ghost predicate Tight(g: Graph, s: seq<int>, u: nat, v: nat)
    requires InRange(g) && |s| == g.n
  {
    exists e :: e in g.edges && e.source == u && e.target == v && s[u] + e.weight == s[v]
  }

  /** Tight links from a task starting on day zero to a sink ending at the finish, all critical. */
  ghost predicate CriticalChain(g: Graph, d: seq<int>, finish: int, s: seq<int>, latest: seq<int>, p: seq<nat>)
    requires InRange(g) && |s| == g.n && |latest| == g.n && |d| == g.n
  {
    && TightWalk(g, s, p)
    && s[p[0]] == 0
    && IsSink(g, p[|p| - 1]) && s[p[|p| - 1]] + d[p[|p| - 1]] == finish
    && (forall i :: 0 <= i < |p| ==> s[p[i]] == latest[p[i]])
  }

  /** Some sink is among the tasks that end last. */
  ghost predicate SinkEndsLast(g: Graph, d: seq<int>, finish: int, s: seq<int>)
    requires |s| == g.n && |d| == g.n
  {
    exists v :: 0 <= v < g.n && IsSink(g, v) && s[v] + d[v] == finish
  }

  /** Walking tight links back from a critical task reaches a task that starts on day zero. */
  lemma {:induction false} BackToZero(
    g: Graph, order: seq<nat>, d: seq<int>, finish: int, s: seq<int>, latest: seq<int>, i: nat)
    returns (p: seq<nat>)
    requires InRange(g) && IsTopological(g, order) && |d| == g.n && i < g.n
    requires Earliest(g, s) && AllPushed(g, s, order) && FinishOf(d, s, finish) && Latest(g, d, finish, latest)
    requires s[order[i]] == latest[order[i]]
    ensures TightWalk(g, s, p) && s[p[0]] == 0 && p[|p| - 1] == order[i]
    ensures forall k :: 0 <= k < |p| ==> s[p[k]] == latest[p[k]]
    decreases i
  {
    var v := order[i];
    if s[v] == 0 {
      p := [v];
    } else {
      assert Pushed(g, s, order, v);
      var e :| e in g.edges && e.target == v && e.source in order && s[e.source] + e.weight == s[v];
      assert e.source in order[..i];
      var j :| 0 <= j < i && order[..i][j] == e.source;
      PassesBracket(g, d, finish, s, latest);
      assert s[e.source] <= latest[e.source] <= latest[v] - e.weight;
      var q := BackToZero(g, order, d, finish, s, latest, j);
      p := q + [v];
      assert Tight(g, s, q[|q| - 1], v);
      forall k | 0 <= k < |p| - 1
        ensures Tight(g, s, p[k], p[k + 1])
      {
        if k < |q| - 1 {
          assert p[k] == q[k] && p[k + 1] == q[k + 1];
        }
      }
    }
  }

  /** A critical task pins down a sink that ends last. */
  lemma {:induction false} CriticalReachesSink(
    g: Graph, order: seq<nat>, d: seq<int>, finish: int, s: seq<int>, latest: seq<int>, i: nat)
    requires InRange(g) && IsTopological(g, order) && |d| == g.n && i < g.n
    requires Schedule(g, s) && Respects(g, latest) && AllHeld(g, d, finish, latest)
    requires forall v :: 0 <= v < g.n ==> s[v] <= latest[v]
    requires s[order[i]] == latest[order[i]]
    ensures SinkEndsLast(g, d, finish, s)
    decreases g.n - i
  {
    var v := order[i];
    assert Held(g, d, finish, latest, v);
    if !IsSink(g, v) {
      var e :| e in g.edges && e.source == v && latest[v] == latest[e.target] - e.weight;
      EdgeForward(g, order, e, i);
      var j :| i < j && IndexIn(order, e.target, j);
      CriticalReachesSink(g, order, d, finish, s, latest, j);
    }
  }

  /** What the two passes establish together. */
  ghost predicate Analysed(g: Graph, order: seq<nat>, d: seq<int>, finish: int, s: seq<int>, latest: seq<int>)
    requires InRange(g)
  {
    && IsTopological(g, order) && |d| == g.n
    && Schedule(g, s) && AllPushed(g, s, order) && FinishOf(d, s, finish)
    && Respects(g, latest) && AllHeld(g, d, finish, latest)
  }

  lemma AnalysedPasses(g: Graph, order: seq<nat>, d: seq<int>, finish: int, s: seq<int>, latest: seq<int>)
    requires InRange(g) && Analysed(g, order, d, finish, s, latest)
    ensures Earliest(g, s) && Latest(g, d, finish, latest) && ProjectFinish(g, d, finish)
    ensures forall v :: 0 <= v < g.n ==> s[v] <= latest[v]
  {
    PushedIsEarliest(g, order, s);
    HeldIsLatest(g, d, finish, order, latest);
    EarliestGivesFinish(g, d, s, finish);
    PassesBracket(g, d, finish, s, latest);
  }

  /**
   A critical chain exists exactly when some sink ends last, and so does any critical task at all:
   otherwise the critical list is empty.
   */
  lemma CriticalChainIff(g: Graph, order: seq<nat>, d: seq<int>, finish: int, s: seq<int>, latest: seq<int>)
    requires InRange(g) && Analysed(g, order, d, finish, s, latest)
    ensures SinkEndsLast(g, d, finish, s) <==> exists p :: CriticalChain(g, d, finish, s, latest, p)
    ensures SinkEndsLast(g, d, finish, s) <==> exists v :: 0 <= v < g.n && s[v] == latest[v]
  {
    AnalysedPasses(g, order, d, finish, s, latest);
    Pigeonhole(order, g.n);
    if SinkEndsLast(g, d, finish, s) {
      var v :| 0 <= v < g.n && IsSink(g, v) && s[v] + d[v] == finish;
      assert Held(g, d, finish, latest, v);
      assert v in order;
      var i :| 0 <= i < |order| && order[i] == v;
      var p := BackToZero(g, order, d, finish, s, latest, i);
      assert CriticalChain(g, d, finish, s, latest, p);
      assert s[v] == latest[v];
    }
    if v :| 0 <= v < g.n && s[v] == latest[v] {
      assert v in order;
      var i :| 0 <= i < |order| && order[i] == v;
      CriticalReachesSink(g, order, d, finish, s, latest, i);
    }
    if p :| CriticalChain(g, d, finish, s, latest, p) {
      assert SinkEndsLast(g, d, finish, s);
    }
  }

  /** Links whose target cannot finish before their source does: finish-start with no lead. */
  ghost predicate FinishToStart(g: Graph, d: seq<int>)
    requires InRange(g) && |d| == g.n
  {
    && (forall v :: 0 <= v < g.n ==> d[v] >= 0)
    && (forall e :: e in g.edges ==> e.weight >= d[e.source])
  }

  /** With only such links, the last task in topological order that ends last is a sink. */
  lemma {:induction false} LastEndIsSink(g: Graph, order: seq<nat>, d: seq<int>, finish: int, s: seq<int>, i: nat)
    requires InRange(g) && IsTopological(g, order) && |d| == g.n && i < g.n
    requires Respects(g, s) && FinishOf(d, s, finish) && FinishToStart(g, d)
    requires s[order[i]] + d[order[i]] == finish
    ensures SinkEndsLast(g, d, finish, s)
    decreases g.n - i
  {
    var v := order[i];
    if !IsSink(g, v) {
      var e :| e in g.edges && e.source == v;
      EdgeForward(g, order, e, i);
      var j :| i < j && IndexIn(order, e.target, j);
      assert s[v] + d[v] <= s[e.target] <= s[e.target] + d[e.target] <= finish;
      LastEndIsSink(g, order, d, finish, s, j);
    }
  }

  /** Finish-start links without lead always leave a critical chain. */
  lemma FinishStartHasChain(g: Graph, order: seq<nat>, d: seq<int>, finish: int, s: seq<int>, latest: seq<int>)
    requires InRange(g) && Analysed(g, order, d, finish, s, latest)
    requires g.n > 0 && FinishToStart(g, d)
    ensures exists p :: CriticalChain(g, d, finish, s, latest, p)
  {
    Pigeonhole(order, g.n);
    var v :| 0 <= v < g.n && s[v] + d[v] == finish;
    assert v in order;
    var i :| 0 <= i < |order| && order[i] == v;
    LastEndIsSink(g, order, d, finish, s, i);
    CriticalChainIff(g, order, d, finish, s, latest);
  }

  // ---------------------------------------------------------------- machine integers

  const WEIGHT_LIMIT: int := 0x1_0000_0000
  const TASK_LIMIT: int := 0x1000_0000

  predicate FitsI64(x: int) {
    -0x8000_0000_0000_0000 <= x < 0x8000_0000_0000_0000
  }

  ghost predicate Bounded(g: Graph, d: seq<int>) {
    && g.n <= TASK_LIMIT && |d| == g.n
    && (forall v :: 0 <= v < g.n ==> 0 <= d[v] < 0x8000_0000)
    && (forall e :: e in g.edges ==> -WEIGHT_LIMIT < e.weight < WEIGHT_LIMIT)
  }

  lemma {:induction false} EarliestBound(g: Graph, order: seq<nat>, d: seq<int>, s: seq<int>, i: nat)
    requires InRange(g) && IsTopological(g, order) && Bounded(g, d) && i < g.n
    requires Schedule(g, s) && AllPushed(g, s, order)
    ensures s[order[i]] <= i * WEIGHT_LIMIT
    decreases i
  {
    var v := order[i];
    assert Pushed(g, s, order, v);
    if s[v] != 0 {
      var e :| e in g.edges && e.target == v && e.source in order && s[e.source] + e.weight == s[v];
      assert e.source in order[..i];
      var j :| 0 <= j < i && order[..i][j] == e.source;
      EarliestBound(g, order, d, s, j);
      assert (j + 1) * WEIGHT_LIMIT <= i * WEIGHT_LIMIT;
    }
  }

  lemma {:induction false} LatestBound(g: Graph, order: seq<nat>, d: seq<int>, finish: int, s: seq<int>, i: nat)
    requires InRange(g) && IsTopological(g, order) && Bounded(g, d) && i < g.n
    requires Respects(g, s) && AllHeld(g, d, finish, s)
    ensures s[order[i]] <= finish + (g.n - i) * WEIGHT_LIMIT
    decreases g.n - i
  {
    var v := order[i];
    assert Held(g, d, finish, s, v);
    if !IsSink(g, v) {
      var e :| e in g.edges && e.source == v && s[v] == s[e.target] - e.weight;
      EdgeForward(g, order, e, i);
      var j :| i < j && IndexIn(order, e.target, j);
      LatestBound(g, order, d, finish, s, j);
      assert (g.n - j + 1) * WEIGHT_LIMIT <= (g.n - i) * WEIGHT_LIMIT;
    }
  }

  /**
   Up to 2^28 tasks, nothing the two passes compute leaves 64 bits: starts, candidates, finishes,
   the deadline, and the differences of the backward pass; and latest is never below earliest.
   */
  lemma NoOverflow(g: Graph, order: seq<nat>, d: seq<int>, finish: int, s: seq<int>, latest: seq<int>)
    requires InRange(g) && Analysed(g, order, d, finish, s, latest) && Bounded(g, d)
    ensures FitsI64(finish)
    ensures forall v :: 0 <= v < g.n ==> 0 <= s[v] <= latest[v]
    ensures forall v :: 0 <= v < g.n ==>
              FitsI64(s[v]) && FitsI64(s[v] + d[v]) && FitsI64(latest[v]) && FitsI64(finish - d[v])
    ensures forall e :: e in g.edges ==> FitsI64(s[e.source] + e.weight) && FitsI64(latest[e.target] - e.weight)
  {
    AnalysedPasses(g, order, d, finish, s, latest);
    Pigeonhole(order, g.n);
    forall v | 0 <= v < g.n
      ensures 0 <= s[v] <= TASK_LIMIT * WEIGHT_LIMIT
      ensures latest[v] <= finish + TASK_LIMIT * WEIGHT_LIMIT
    {
      assert v in order;
      var i :| 0 <= i < |order| && order[i] == v;
      EarliestBound(g, order, d, s, i);
      LatestBound(g, order, d, finish, latest, i);
    }
    assert 0 <= finish <= TASK_LIMIT * WEIGHT_LIMIT + 0x8000_0000 by {
      if s != [] {
        var v :| 0 <= v < g.n && s[v] + d[v] == finish;
      }
    }
  }
}
