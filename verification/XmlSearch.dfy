/** Searching element trees by tag, as `descendants().filter(...)` and `children().find(...)` do. */
module XmlSearch {
  import opened Wrappers
  import opened Xml

  function Having(nodes: seq<Node>, tag: string): seq<Node> {
    if nodes == [] then []
    else (if HasTag(nodes[0], tag) then [nodes[0]] else []) + Having(nodes[1..], tag)
  }

  function FirstHaving(nodes: seq<Node>, tag: string): Option<Node> {
    if nodes == [] then None
    else if HasTag(nodes[0], tag) then Some(nodes[0])
    else FirstHaving(nodes[1..], tag)
  }

  /** The elements with this tag at or below a node, in document order. */
  function Tagged(node: Node, tag: string): seq<Node> {
    Having(Descendants(node), tag)
  }

  function TaggedAll(nodes: seq<Node>, tag: string): seq<Node> {
    if nodes == [] then [] else Tagged(nodes[0], tag) + TaggedAll(nodes[1..], tag)
  }

  function One(node: Node, tag: string): seq<Node> {
    if HasTag(node, tag) then [node] else []
  }

  lemma HavingCons(node: Node, rest: seq<Node>, tag: string)
    ensures Having([node] + rest, tag) == One(node, tag) + Having(rest, tag)
  {
    assert ([node] + rest)[1..] == rest;
  }

  lemma {:induction false} HavingConcat(a: seq<Node>, b: seq<Node>, tag: string)
    ensures Having(a + b, tag) == Having(a, tag) + Having(b, tag)
  {
    hide One;
    if a == [] {
      assert a + b == b;
    } else {
      assert a == [a[0]] + a[1..] && a + b == [a[0]] + (a[1..] + b);
      HavingCons(a[0], a[1..], tag);
      HavingCons(a[0], a[1..] + b, tag);
      HavingConcat(a[1..], b, tag);
      hide Having;
    }
  }

  lemma {:induction false} TaggedAllConcat(a: seq<Node>, b: seq<Node>, tag: string)
    ensures TaggedAll(a + b, tag) == TaggedAll(a, tag) + TaggedAll(b, tag)
  {
    hide Tagged;
    if a == [] {
      assert a + b == b;
    } else {
      assert (a + b)[1..] == a[1..] + b;
      TaggedAllConcat(a[1..], b, tag);
    }
  }

  lemma {:induction false} BelowTagged(node: Node, k: nat, tag: string)
    requires node.Element? && k <= |node.children|
    ensures Having(BelowFrom(node, k), tag) == TaggedAll(node.children[k..], tag)
    decreases |node.children| - k
  {
    if k < |node.children| {
      BelowTagged(node, k + 1, tag);
      HavingConcat(Descendants(node.children[k]), BelowFrom(node, k + 1), tag);
      assert node.children[k..][1..] == node.children[k + 1..];
    }
  }

  /** Searching an element: itself, then its children in order. */
  lemma TaggedElement(node: Node, tag: string)
    requires node.Element?
    ensures Tagged(node, tag) == (if HasTag(node, tag) then [node] else []) + TaggedAll(node.children, tag)
  {
    HavingCons(node, BelowFrom(node, 0), tag);
    BelowTagged(node, 0, tag);
    assert node.children[0..] == node.children;
  }

  // ---------------------------------------------------------------- trees without a tag

  /** No element at or below the node has this tag. */
  predicate Lacks(node: Node, tag: string) {
    node.Element? ==> node.name.local != tag && forall i :: 0 <= i < |node.children| ==> Lacks(node.children[i], tag)
  }

  predicate AllLack(nodes: seq<Node>, tag: string) {
    forall i :: 0 <= i < |nodes| ==> Lacks(nodes[i], tag)
  }

  lemma {:induction false} LacksFindsNothing(node: Node, tag: string)
    requires Lacks(node, tag)
    ensures Tagged(node, tag) == []
    decreases node, 0
  {
    if node.Element? {
      TaggedElement(node, tag);
      ChildrenLack(node, 0, tag);
      assert node.children[0..] == node.children;
    } else {
      assert Descendants(node) == [node] + [];
      HavingCons(node, [], tag);
    }
  }

  lemma {:induction false} ChildrenLack(node: Node, k: nat, tag: string)
    requires node.Element? && k <= |node.children| && Lacks(node, tag)
    ensures TaggedAll(node.children[k..], tag) == []
    decreases node, 0, |node.children| - k
  {
    if k < |node.children| {
      LacksFindsNothing(node.children[k], tag);
      ChildrenLack(node, k + 1, tag);
      assert node.children[k..][1..] == node.children[k + 1..];
    }
  }

  lemma {:induction false} AllLackFindsNothing(nodes: seq<Node>, tag: string)
    requires AllLack(nodes, tag)
    ensures TaggedAll(nodes, tag) == []
  {
    hide Tagged, Lacks;
    if nodes != [] {
      LacksFindsNothing(nodes[0], tag);
      AllLackFindsNothing(nodes[1..], tag);
    }
  }

  /** Elements of one tag with nothing of that tag inside are all found, and only they. */
  lemma {:induction false} TaggedFlat(nodes: seq<Node>, tag: string)
    requires forall i :: 0 <= i < |nodes| ==> HasTag(nodes[i], tag) && AllLack(ChildrenOf(nodes[i]), tag)
    ensures TaggedAll(nodes, tag) == nodes
  {
    if nodes != [] {
      TaggedElement(nodes[0], tag);
      AllLackFindsNothing(nodes[0].children, tag);
      hide AllLack, Tagged;
      TaggedFlat(nodes[1..], tag);
    }
  }
}
