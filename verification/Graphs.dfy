/** Weighted directed graphs as lists of edges, walks, cycles, and Kahn's topological sort. */
module Graphs {
  import opened Collections

  datatype Edge = Edge(source: nat, target: nat, weight: int)

  datatype Graph = Graph(n: nat, edges: seq<Edge>)

  ghost predicate InRange(g: Graph) {
    forall e :: e in g.edges ==> e.source < g.n && e.target < g.n
  }

  /** One entry per outgoing edge, parallel edges included, in edge order. */
  function Neighbors(edges: seq<Edge>, node: nat): (out: seq<Edge>)
  {
    if edges == [] then []
    else
      var last := edges[|edges| - 1];
      Neighbors(edges[..|edges| - 1], node) + if last.source == node then [last] else []
  }

  lemma {:induction false} NeighborsAre(edges: seq<Edge>, node: nat)
    ensures forall e :: e in Neighbors(edges, node) <==> e in edges && e.source == node
  {
    if edges != [] {
      NeighborsAre(edges[..|edges| - 1], node);
      assert edges == edges[..|edges| - 1] + [edges[|edges| - 1]];
    }
  }

  // ---------------------------------------------------------------- walks

  ghost predicate Step(g: Graph, u: nat, v: nat) {
    exists e :: e in g.edges && e.source == u && e.target == v
  }

  ghost predicate IsWalk(g: Graph, p: seq<nat>) {
    && p != []
    && (forall i :: 0 <= i < |p| ==> p[i] < g.n)
    && (forall i :: 0 <= i < |p| - 1 ==> Step(g, p[i], p[i + 1]))
  }

  ghost predicate IsCycle(g: Graph, p: seq<nat>) {
    IsWalk(g, p) && |p| >= 2 && p[0] == p[|p| - 1]
  }

  ghost predicate HasCycle(g: Graph) {
    exists p :: IsCycle(g, p)
  }

  lemma WalkSlice(g: Graph, p: seq<nat>, i: nat, j: nat)
    requires IsWalk(g, p) && i < j <= |p|
    ensures IsWalk(g, p[i..j])
  {
    var q := p[i..j];
    forall k | 0 <= k < |q| - 1
      ensures Step(g, q[k], q[k + 1])
    {
      assert q[k] == p[i + k] && q[k + 1] == p[i + k + 1];
    }
  }

  lemma WalkJoin(g: Graph, p: seq<nat>, q: seq<nat>)
    requires IsWalk(g, p) && IsWalk(g, q) && p[|p| - 1] == q[0]
    ensures IsWalk(g, p + q[1..])
    ensures (p + q[1..])[0] == p[0] && (p + q[1..])[|p + q[1..]| - 1] == q[|q| - 1]
  {
    var r := p + q[1..];
    forall k | 0 <= k < |r| - 1
      ensures Step(g, r[k], r[k + 1])
    {
      if k < |p| - 1 {
        assert r[k] == p[k] && r[k + 1] == p[k + 1];
      } else {
        assert r[k] == q[k - |p| + 1] && r[k + 1] == q[k - |p| + 2];
      }
    }
  }

  // ---------------------------------------------------------------- distinct lists

  ghost predicate NoRepeat(p: seq<nat>) {
    forall i, j :: 0 <= i < j < |p| ==> p[i] != p[j]
  }

  ghost predicate Below(p: seq<nat>, n: nat) {
    forall i :: 0 <= i < |p| ==> p[i] < n
  }

  ghost function Elements(p: seq<nat>): set<nat> {
    set v | v in p
  }

  lemma {:induction false} ElementsSize(p: seq<nat>)
    requires NoRepeat(p)
    ensures |Elements(p)| == |p|
  {
    if p != [] {
      var front, last := p[..|p| - 1], p[|p| - 1];
      ElementsSize(front);
      assert p == front + [last];
      assert last !in front;
      assert Elements(p) == Elements(front) + {last};
    }
  }

  ghost function UpTo(n: nat): (s: set<nat>)
    ensures forall v: nat :: v in s <==> v < n
    ensures |s| == n
  {
    if n == 0 then {} else UpTo(n - 1) + {n - 1}
  }

  /** A repetition-free list below `n` has at most `n` entries, and with `n` entries it has them all. */
  lemma Pigeonhole(p: seq<nat>, n: nat)
    requires NoRepeat(p) && Below(p, n)
    ensures |p| <= n
    ensures |p| == n <==> forall v: nat :: v < n ==> v in p
  {
    hide NoRepeat;
    ElementsSize(p);
    SubsetSize(Elements(p), UpTo(n));
    assert Elements(p) <= UpTo(n);
    if |p| == n {
      assert Elements(p) == UpTo(n);
      forall v: nat | v < n
        ensures v in p
      {
        assert v in UpTo(n);
      }
    }
    if forall v: nat :: v < n ==> v in p {
      forall v | v in UpTo(n)
        ensures v in Elements(p)
      {
        assert v < n;
      }
      assert UpTo(n) == Elements(p);
    }
  }

  /** A list over a set with more entries than the set repeats one. */
  lemma LongListRepeats(p: seq<nat>, s: set<nat>)
    requires |p| > |s| && forall i :: 0 <= i < |p| ==> p[i] in s
    ensures !NoRepeat(p)
  {
    if NoRepeat(p) {
      ElementsSize(p);
    }
    SubsetSize(Elements(p), s);
  }

  // ---------------------------------------------------------------- topological orders

  /** Sources come before targets, as far as the list goes. */
  ghost predicate SourcesFirst(g: Graph, order: seq<nat>) {
    forall i, e :: 0 <= i < |order| && e in g.edges && e.target == order[i] ==> e.source in order[..i]
  }

  /** All nodes once each, every edge pointing forward. */
  ghost predicate IsTopological(g: Graph, order: seq<nat>) {
    |order| == g.n && NoRepeat(order) && Below(order, g.n) && SourcesFirst(g, order)
  }

  ghost predicate IndexIn(order: seq<nat>, v: nat, i: nat) {
    i < |order| && order[i] == v
  }

  /** An edge leads from an earlier place to a later one. */
  lemma EdgeForward(g: Graph, order: seq<nat>, e: Edge, i: nat)
    requires InRange(g) && IsTopological(g, order) && e in g.edges && IndexIn(order, e.source, i)
    ensures e.target !in order[..i + 1]
    ensures exists j :: i < j && IndexIn(order, e.target, j)
  {
    Pigeonhole(order, g.n);
    assert e.target in order;
    var j :| 0 <= j < |order| && order[j] == e.target;
    assert e.source in order[..j];
    var k :| 0 <= k < j && order[..j][k] == e.source;
    assert order[k] == order[i];
    assert k == i;
    assert IndexIn(order, e.target, j);
  }

  /** Walks only go forward in a topological order. */
  lemma {:induction false} WalkForward(g: Graph, order: seq<nat>, p: seq<nat>, i: nat) returns (j: nat)
    requires InRange(g) && IsTopological(g, order) && IsWalk(g, p) && IndexIn(order, p[0], i)
    ensures IndexIn(order, p[|p| - 1], j) && i + |p| - 1 <= j
    decreases |p|
  {
    if |p| == 1 {
      j := i;
    } else {
      assert Step(g, p[0], p[1]);
      var e :| e in g.edges && e.source == p[0] && e.target == p[1];
      EdgeForward(g, order, e, i);
      var k :| i < k && IndexIn(order, e.target, k);
      WalkSlice(g, p, 1, |p|);
      j := WalkForward(g, order, p[1..], k);
    }
  }

  lemma TopologicalMeansAcyclic(g: Graph, order: seq<nat>)
    requires InRange(g) && IsTopological(g, order)
    ensures !HasCycle(g)
  {
    forall p | IsWalk(g, p) && |p| >= 2
      ensures p[0] != p[|p| - 1]
    {
      Pigeonhole(order, g.n);
      assert p[0] in order;
      var i :| 0 <= i < |order| && order[i] == p[0];
      var j := WalkForward(g, order, p, i);
    }
  }

  // ---------------------------------------------------------------- cycles among leftovers

  /** Every node of the set has an incoming edge from the set. */
  ghost predicate HasFeeder(g: Graph, rest: set<nat>, v: nat) {
    v < g.n && exists e :: e in g.edges && e.target == v && e.source in rest
  }

  ghost predicate FedFrom(g: Graph, rest: set<nat>) {
    forall v {:trigger HasFeeder(g, rest, v)} :: v in rest ==> HasFeeder(g, rest, v)
  }

  ghost predicate StaysIn(p: seq<nat>, s: set<nat>) {
    forall i :: 0 <= i < |p| ==> p[i] in s
  }

  lemma {:induction false} WalkBackwards(g: Graph, rest: set<nat>, length: nat) returns (p: seq<nat>)
    requires FedFrom(g, rest) && rest != {} && length > 0
    ensures IsWalk(g, p) && |p| == length && StaysIn(p, rest)
  {
    if length == 1 {
      var v :| v in rest;
      assert HasFeeder(g, rest, v);
      p := [v];
    } else {
      hide IsWalk, Step, FedFrom;
      var q := WalkBackwards(g, rest, length - 1);
      var u := FeederOf(g, rest, q[0]);
      p := [u] + q;
    }
  }

  lemma FeederOf(g: Graph, rest: set<nat>, v: nat) returns (u: nat)
    requires FedFrom(g, rest) && v in rest
    ensures u in rest && u < g.n && Step(g, u, v)
  {
    assert HasFeeder(g, rest, v);
    var e :| e in g.edges && e.target == v && e.source in rest;
    u := e.source;
    assert HasFeeder(g, rest, u);
  }

  lemma LeftoversHaveCycle(g: Graph, rest: set<nat>)
    requires FedFrom(g, rest) && rest != {}
    ensures HasCycle(g)
  {
    hide FedFrom, IsWalk;
    var p := WalkBackwards(g, rest, |rest| + 1);
    LongListRepeats(p, rest);
    var i, j :| 0 <= i < j < |p| && p[i] == p[j];
    WalkSlice(g, p, i, j + 1);
    assert IsCycle(g, p[i..j + 1]);
  }

  // ---------------------------------------------------------------- counting incoming edges

  /** How many edges reach `v` from nodes that are not done. */
  function CountIn(edges: seq<Edge>, v: nat, done: set<nat>): nat {
    if edges == [] then 0
    else
      var last := edges[|edges| - 1];
      CountIn(edges[..|edges| - 1], v, done) + if last.target == v && last.source !in done then 1 else 0
  }

  function CountTo(edges: seq<Edge>, v: nat): nat {
    if edges == [] then 0
    else CountTo(edges[..|edges| - 1], v) + if edges[|edges| - 1].target == v then 1 else 0
  }

  lemma CountToSnoc(edges: seq<Edge>, e: Edge, v: nat)
    ensures CountTo(edges + [e], v) == CountTo(edges, v) + if e.target == v then 1 else 0
  {
    assert (edges + [e])[..|edges|] == edges;
  }

  lemma {:induction false} CountToPrefix(edges: seq<Edge>, k: nat, v: nat)
    requires k <= |edges|
    ensures CountTo(edges[..k], v) <= CountTo(edges, v)
    decreases |edges|
  {
    if k < |edges| {
      CountToPrefix(edges[..|edges| - 1], k, v);
      assert edges[..|edges| - 1][..k] == edges[..k];
    } else {
      assert edges[..k] == edges;
    }
  }

  /** Finishing a node takes exactly its outgoing edges off the counts. */
  lemma {:induction false} CountSplit(edges: seq<Edge>, v: nat, done: set<nat>, u: nat)
    requires u !in done
    ensures CountIn(edges, v, done) == CountIn(edges, v, done + {u}) + CountTo(Neighbors(edges, u), v)
  {
    if edges != [] {
      var front, last := edges[..|edges| - 1], edges[|edges| - 1];
      CountSplit(front, v, done, u);
      CountToSnoc(Neighbors(front, u), last, v);
      assert Neighbors(front, u) + [] == Neighbors(front, u);
    }
  }

  lemma {:induction false} CountZeroIff(edges: seq<Edge>, v: nat, done: set<nat>)
    ensures CountIn(edges, v, done) == 0 <==> forall e :: e in edges && e.target == v ==> e.source in done
  {
    if edges != [] {
      var front, last := edges[..|edges| - 1], edges[|edges| - 1];
      CountZeroIff(front, v, done);
      assert edges == front + [last];
    }
  }
}
