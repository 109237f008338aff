/** What any stream of events is composed into, whoever has written it: a well-formed graph, or nothing. */
module ComposedGraphs {
  import opened Wrappers
  import opened YamlGraph
  import opened Presenter
  import opened Composer

  /** Keys and values take turns so far, and the children exist; scalars have none. */
  ghost predicate Partial(n: Node, bound: nat) {
    && (n.header.Scalar? ==> n.children == [])
    && forall k | 0 <= k < |n.children| ::
         n.children[k].id < bound && n.children[k].asKey == NextIsKey(n.header, n.children[..k])
  }

  /** And every key has its value. */
  ghost predicate Complete(n: Node, bound: nat) {
    Partial(n, bound) && (n.children != [] ==> !n.children[|n.children| - 1].asKey)
  }

  ghost predicate AllComplete(nodes: seq<Node>, i: nat) {
    forall j | i <= j < |nodes| :: Complete(nodes[j], |nodes|)
  }

  ghost predicate AnchorsExist(h: Heap) {
    forall a | a in h.anchors :: h.anchors[a] < |h.nodes|
  }

  /** Nodes that were there are untouched, but for one. */
  ghost predicate Untouched(before: seq<Node>, after: seq<Node>, but: nat) {
    |before| <= |after| && forall j | 0 <= j < |before| && j != but :: after[j] == before[j]
  }

  lemma PartialGrows(n: Node, child: Id, bound: nat)
    requires Partial(n, bound) && child < bound && !n.header.Scalar?
    ensures Partial(n.(children := n.children + [Child(child, NextIsKey(n.header, n.children))]), bound)
  {
    var more := n.children + [Child(child, NextIsKey(n.header, n.children))];
    forall k | 0 <= k < |more| ensures more[k].asKey == NextIsKey(n.header, more[..k]) {
      assert more[..k] == n.children[..k];
      assert n.children[..|n.children|] == n.children;
    }
  }

  /** A composed node exists with all nodes that are made for it, and no other node is touched. */
  lemma {:induction false} NodeIsComplete(events: seq<Event>, p: nat, h: Heap)
    requires AnchorsExist(h) && ComposeNode(events, p, h).Parsed?
    ensures var r := ComposeNode(events, p, h);
            && AnchorsExist(r.heap) && r.value < |r.heap.nodes| && h.nodes <= r.heap.nodes
            && AllComplete(r.heap.nodes, |h.nodes|)
    decreases |events| - p, 0
  {
    if events[p].Content? && !events[p].header.Scalar? {
      var h1 := Create(h, events[p].anchor, events[p].header);
      ItemsAreComplete(events, p + 1, h1, |h.nodes|);
    }
  }

  lemma {:induction false} ItemsAreComplete(events: seq<Event>, p: nat, h: Heap, parent: Id)
    requires AnchorsExist(h) && parent < |h.nodes| && ComposeItems(events, p, h, parent).Parsed?
    requires Partial(h.nodes[parent], |h.nodes|) && !h.nodes[parent].header.Scalar?
    ensures var r := ComposeItems(events, p, h, parent);
            && AnchorsExist(r.heap) && r.value == parent && Untouched(h.nodes, r.heap.nodes, parent)
            && Complete(r.heap.nodes[parent], |r.heap.nodes|) && AllComplete(r.heap.nodes, |h.nodes|)
    decreases |events| - p, 1
  {
    if !events[p].End? {
      NodeIsComplete(events, p, h);
      var one := ComposeNode(events, p, h);
      var h2 := AddChild(one.heap, parent, one.value);
      PartialGrows(one.heap.nodes[parent], one.value, |one.heap.nodes|);
      ItemsAreComplete(events, one.p, h2, parent);
      var r := ComposeItems(events, one.p, h2, parent);
      forall j | |h.nodes| <= j < |r.heap.nodes| ensures Complete(r.heap.nodes[j], |r.heap.nodes|) {
        if j < |one.heap.nodes| {
          assert r.heap.nodes[j] == h2.nodes[j] == one.heap.nodes[j];
          assert Complete(one.heap.nodes[j], |one.heap.nodes|);
        }
      }
    }
  }

  function GraphOf(nodes: seq<Node>): Graph {
    map i: Id | i < |nodes| :: nodes[i]
  }

  /**
   * Whatever the events are: if they are composed at all, the graph is well formed, its root exists, scalars have no
   * children, and in every mapping keys and values take turns and no key is left without its value.
   */
  lemma ComposedIsWellFormed(events: seq<Event>)
    ensures match Compose(events)
            case None => true
            case Some((nodes, root)) =>
              var g := GraphOf(nodes); WellFormed(g) && root in g && forall id | id in g :: Alternates(g[id])
  {
    var h := Heap([], map[]);
    if ComposeNode(events, 0, h).Parsed? {
      NodeIsComplete(events, 0, h);
      var nodes := ComposeNode(events, 0, h).heap.nodes;
      assert forall j | 0 <= j < |nodes| :: Complete(nodes[j], |nodes|);
    }
  }

  /** What is composed does not depend on the events after it. */
  lemma {:induction false} NodeIsPrefix(events: seq<Event>, more: seq<Event>, p: nat, h: Heap)
    requires ComposeNode(events, p, h).Parsed?
    ensures ComposeNode(events + more, p, h) == ComposeNode(events, p, h)
    decreases |events| - p, 0
  {
    assert (events + more)[p] == events[p];
    if events[p].Content? && !events[p].header.Scalar? {
      ItemsArePrefix(events, more, p + 1, Create(h, events[p].anchor, events[p].header), |h.nodes|);
    }
  }

  lemma {:induction false} ItemsArePrefix(events: seq<Event>, more: seq<Event>, p: nat, h: Heap, parent: Id)
    requires parent < |h.nodes| && ComposeItems(events, p, h, parent).Parsed?
    ensures ComposeItems(events + more, p, h, parent) == ComposeItems(events, p, h, parent)
    decreases |events| - p, 1
  {
    assert (events + more)[p] == events[p];
    if !events[p].End? {
      NodeIsPrefix(events, more, p, h);
      var one := ComposeNode(events, p, h);
      ItemsArePrefix(events, more, one.p, AddChild(one.heap, parent, one.value), parent);
    }
  }

  /** So a document with more events after it is not one document. */
  lemma NothingAfterDocument(events: seq<Event>, more: seq<Event>)
    requires Compose(events).Some? && more != []
    ensures Compose(events + more) == None
  {
    NodeIsPrefix(events, more, 0, Heap([], map[]));
  }
}
