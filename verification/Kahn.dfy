/** Kahn's algorithm over an array of indegrees and a queue of ready nodes. */
module Kahn {
  import opened GanttPlans
  import opened Graphs
  import opened Wrappers

  /** Queued or finished nodes are exactly those without an unfinished source. */
  ghost predicate Queued(g: Graph, counts: seq<nat>, order: seq<nat>, ready: seq<nat>) {
    && |counts| == g.n
    && NoRepeat(order + ready) && Below(order + ready, g.n)
    && (forall v: nat :: v < g.n ==> (v in order + ready <==> counts[v] == 0))
    && SourcesFirst(g, order)
  }

  ghost predicate Counted(g: Graph, counts: seq<nat>, order: seq<nat>) {
    |counts| == g.n && forall v: nat :: v < g.n ==> counts[v] == CountIn(g.edges, v, Elements(order))
  }

  /** While the last finished node's edges are being taken off, `k` of them already are. */
  ghost predicate Releasing(g: Graph, counts: seq<nat>, order: seq<nat>, nb: seq<Edge>, k: nat) {
    && |counts| == g.n && k <= |nb|
    && (forall v: nat :: v < g.n ==>
          counts[v] == CountIn(g.edges, v, Elements(order)) + CountTo(nb, v) - CountTo(nb[..k], v))
  }

  lemma ElementsSnoc(order: seq<nat>, u: nat)
    ensures Elements(order + [u]) == Elements(order) + {u}
  {
  }

  lemma PopReady(g: Graph, counts: seq<nat>, order: seq<nat>, u: nat, rest: seq<nat>)
    requires InRange(g) && Queued(g, counts, order, [u] + rest) && Counted(g, counts, order)
    ensures u < g.n
    ensures Queued(g, counts, order + [u], rest)
    ensures Releasing(g, counts, order + [u], Neighbors(g.edges, u), 0)
  {
    assert order + ([u] + rest) == (order + [u]) + rest;
    assert u == (order + ([u] + rest))[|order|];
    var all := order + ([u] + rest);
    assert forall i :: 0 <= i < |order| ==> order[i] == all[i] && all[i] != u;
    assert u !in Elements(order);
    ElementsSnoc(order, u);
    forall v: nat | v < g.n
      ensures counts[v] == CountIn(g.edges, v, Elements(order + [u])) + CountTo(Neighbors(g.edges, u), v)
    {
      CountSplit(g.edges, v, Elements(order), u);
    }
    assert Neighbors(g.edges, u)[..0] == [];
    SourcesFirstSnoc(g, counts, order, u);
  }

  lemma SourcesFirstSnoc(g: Graph, counts: seq<nat>, order: seq<nat>, u: nat)
    requires SourcesFirst(g, order) && Counted(g, counts, order) && u < g.n && counts[u] == 0
    ensures SourcesFirst(g, order + [u])
  {
    CountZeroIff(g.edges, u, Elements(order));
    var next := order + [u];
    forall i, e | 0 <= i < |next| && e in g.edges && e.target == next[i]
      ensures e.source in next[..i]
    {
      if i < |order| {
        assert next[..i] == order[..i];
      } else {
        assert next[..i] == order;
        assert e.source in Elements(order);
      }
    }
  }

  /** Taking one edge off never underflows and queues the target when it was the last. */
  lemma ReleaseOne(g: Graph, counts: seq<nat>, order: seq<nat>, ready: seq<nat>, nb: seq<Edge>, k: nat)
    requires k < |nb| && nb[k].target < g.n
    requires Queued(g, counts, order, ready) && Releasing(g, counts, order, nb, k)
    ensures var t := nb[k].target;
            && counts[t] > 0
            && var counts' := counts[t := counts[t] - 1];
               Releasing(g, counts', order, nb, k + 1)
               && Queued(g, counts', order, if counts'[t] == 0 then ready + [t] else ready)
  {
    var t := nb[k].target;
    assert nb[..k + 1] == nb[..k] + [nb[k]];
    CountToPrefix(nb, k + 1, t);
    forall v: nat | v < g.n
      ensures CountTo(nb[..k + 1], v) == CountTo(nb[..k], v) + if t == v then 1 else 0
    {
      CountToSnoc(nb[..k], nb[k], v);
    }
    hide CountTo, CountIn, SourcesFirst;
    assert counts[t] > 0;
    QueueOne(g, counts, order, ready, t);
    hide Queued;
  }

  lemma QueueOne(g: Graph, counts: seq<nat>, order: seq<nat>, ready: seq<nat>, t: nat)
    requires t < g.n && Queued(g, counts, order, ready) && counts[t] > 0
    ensures var counts' := counts[t := counts[t] - 1];
            Queued(g, counts', order, if counts'[t] == 0 then ready + [t] else ready)
  {
    hide SourcesFirst;
    assert t !in order + ready;
    assert order + (ready + [t]) == (order + ready) + [t];
  }

  lemma AllReleased(g: Graph, counts: seq<nat>, order: seq<nat>, nb: seq<Edge>)
    requires Releasing(g, counts, order, nb, |nb|)
    ensures Counted(g, counts, order)
  {
    assert nb[..|nb|] == nb;
  }

  /** With an empty queue, a short order leaves nodes that feed each other. */
  lemma ShortOrderMeansCycle(g: Graph, counts: seq<nat>, order: seq<nat>)
    requires InRange(g) && Queued(g, counts, order, []) && Counted(g, counts, order)
    ensures |order| <= g.n
    ensures |order| == g.n ==> IsTopological(g, order)
    ensures |order| != g.n ==> HasCycle(g)
  {
    assert order + [] == order;
    Pigeonhole(order, g.n);
    if |order| != g.n {
      var rest := UpTo(g.n) - Elements(order);
      var w: nat :| w < g.n && w !in order;
      assert w in rest;
      forall v | v in rest
        ensures HasFeeder(g, rest, v)
      {
        CountZeroIff(g.edges, v, Elements(order));
        assert counts[v] != 0;
        var e :| e in g.edges && e.target == v && e.source !in Elements(order);
        assert e.source in rest;
      }
      LeftoversHaveCycle(g, rest);
    }
  }

  method CountIndegrees(g: Graph) returns (indegree: array<nat>)
    requires InRange(g)
    ensures fresh(indegree) && indegree.Length == g.n
    ensures Counted(g, indegree[..], [])
  {
    indegree := new nat[g.n](_ => 0);
    var i := 0;
    while i < |g.edges|
      invariant 0 <= i <= |g.edges|
      invariant forall v: nat :: v < g.n ==> indegree[v] == CountIn(g.edges[..i], v, {})
    {
      var target := g.edges[i].target;
      assert g.edges[i] in g.edges;
      assert g.edges[..i + 1][..i] == g.edges[..i];
      indegree[target] := indegree[target] + 1;
      i := i + 1;
    }
    assert g.edges[..i] == g.edges;
    assert Elements([]) == {};
  }

  method CollectReady(indegree: array<nat>) returns (ready: seq<nat>)
    ensures NoRepeat(ready) && Below(ready, indegree.Length)
    ensures forall v: nat :: v < indegree.Length ==> (v in ready <==> indegree[v] == 0)
  {
    ready := [];
    var node := 0;
    while node < indegree.Length
      invariant 0 <= node <= indegree.Length
      invariant NoRepeat(ready) && Below(ready, node)
      invariant forall v: nat :: v < node ==> (v in ready <==> indegree[v] == 0)
    {
      if indegree[node] == 0 {
        ready := ready + [node];
      }
      node := node + 1;
    }
  }

  /**
   `topological_order`: succeeds exactly on acyclic graphs, with every edge, parallel edges included,
   pointing forward; the indegree counters never go below zero.
   */
  method TopologicalOrder(g: Graph) returns (r: Result<seq<nat>, ScheduleError>)
    requires InRange(g)
    ensures r.Success? <==> !HasCycle(g)
    ensures r.Success? ==> IsTopological(g, r.value)
    ensures r.Failure? ==> r.error == Cycle([])
  {
    var indegree := CountIndegrees(g);
    var ready := CollectReady(indegree);
    var order: seq<nat> := [];
    assert order + ready == ready;
    assert Queued(g, indegree[..], order, ready);
    hide Queued, Counted, Releasing, SourcesFirst;
    while ready != []
      invariant Queued(g, indegree[..], order, ready) && Counted(g, indegree[..], order)
      invariant |order| <= g.n
      decreases g.n - |order|
    {
      var node := ready[0];
      assert ready == [node] + ready[1..];
      PopReady(g, indegree[..], order, node, ready[1..]);
      ready := ready[1..];
      order := order + [node];
      OrderFits(g, indegree[..], order, ready);
      var nb := Neighbors(g.edges, node);
      NeighborsAre(g.edges, node);
      var k := 0;
      while k < |nb|
        invariant 0 <= k <= |nb|
        invariant Queued(g, indegree[..], order, ready) && Releasing(g, indegree[..], order, nb, k)
      {
        var next := nb[k].target;
        assert nb[k] in nb;
        ReleaseOne(g, indegree[..], order, ready, nb, k);
        ghost var before := indegree[..];
        indegree[next] := indegree[next] - 1;
        assert indegree[..] == before[next := before[next] - 1];
        if indegree[next] == 0 {
          ready := ready + [next];
        }
        k := k + 1;
      }
      AllReleased(g, indegree[..], order, nb);
    }
    ShortOrderMeansCycle(g, indegree[..], order);
    if |order| != g.n {
      return Failure(Cycle([]));
    }
    TopologicalMeansAcyclic(g, order);
    return Success(order);
  }

  lemma OrderFits(g: Graph, counts: seq<nat>, order: seq<nat>, ready: seq<nat>)
    requires Queued(g, counts, order, ready)
    ensures |order| <= g.n
  {
    Pigeonhole(order + ready, g.n);
  }
}
