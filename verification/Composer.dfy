/** The parser's composer: rebuilds a node graph from an event stream by the rules for anchors and aliases. */
module Composer {
  import opened Wrappers
  import opened YamlGraph
  import opened Presenter

  /** The nodes created so far, named by their position, and the anchor table. */
  datatype Heap = Heap(nodes: seq<Node>, anchors: map<string, Id>)

  /** The outcome of a rule: the value and the next position, or a parse error. */
  datatype Parsed = Parsed(heap: Heap, value: Id, p: nat) | Rejected

  /** Registers the anchor, if any, as soon as the node exists, so that its own content can refer to it. */
  function Create(h: Heap, anchor: Option<string>, header: Header): (r: Heap)
    ensures |r.nodes| == |h.nodes| + 1
  {
    Heap(h.nodes + [Node(header, [])],
         match anchor case None => h.anchors case Some(a) => h.anchors[a := |h.nodes|])
  }

  function AddChild(h: Heap, parent: Id, value: Id): (r: Heap)
    requires parent < |h.nodes|
    ensures |r.nodes| == |h.nodes|
  {
    var n := h.nodes[parent];
    h.(nodes := h.nodes[parent := n.(children := n.children + [Child(value, NextIsKey(n.header, n.children))])])
  }

  function ComposeNode(events: seq<Event>, p: nat, h: Heap): (r: Parsed)
    ensures r.Parsed? ==> p < r.p <= |events| && |h.nodes| <= |r.heap.nodes|
    decreases |events| - p, 0
  {
    if p >= |events| then Rejected
    else
      match events[p]
      case Alias(name) => if name in h.anchors then Parsed(h, h.anchors[name], p + 1) else Rejected
      case Content(anchor, header) =>
        var h' := Create(h, anchor, header);
        if header.Scalar? then Parsed(h', |h.nodes|, p + 1) else ComposeItems(events, p + 1, h', |h.nodes|)
      case End => Rejected
  }

  /** The rest of the collection `parent`. A key without a value is an error. */
  function ComposeItems(events: seq<Event>, p: nat, h: Heap, parent: Id): (r: Parsed)
    requires parent < |h.nodes|
    ensures r.Parsed? ==> p < r.p <= |events| && |h.nodes| <= |r.heap.nodes|
    decreases |events| - p, 1
  {
    if p >= |events| then Rejected
    else if events[p].End? then
      var children := h.nodes[parent].children;
      if children != [] && children[|children| - 1].asKey then Rejected else Parsed(h, parent, p + 1)
    else
      match ComposeNode(events, p, h)
      case Rejected => Rejected
      case Parsed(h', value, q) => ComposeItems(events, q, AddChild(h', parent, value), parent)
  }

  /** A document is one node and nothing after it. */
  function Compose(events: seq<Event>): Option<(seq<Node>, Id)> {
    match ComposeNode(events, 0, Heap([], map[]))
    case Rejected => None
    case Parsed(h, value, p) => if p == |events| then Some((h.nodes, value)) else None
  }

  class Composer {
    const events: seq<Event>
    var p: nat
    var nodes: seq<Node>
    var anchors: map<string, Id>

    constructor (events: seq<Event>)
      ensures this.events == events && p == 0 && nodes == [] && anchors == map[]
    {
      this.events, p, nodes, anchors := events, 0, [], map[];
    }

    method RegisterAnchorFor(anchor: Option<string>, value: Id)
      modifies this`anchors
      ensures anchors == match anchor case None => old(anchors) case Some(a) => old(anchors)[a := value]
    {
      if anchor.Some? {
        anchors := anchors[anchor.value := value];
      }
    }

    method ParseNode() returns (value: Option<Id>)
      modifies this
      ensures match ComposeNode(events, old(p), Heap(old(nodes), old(anchors)))
              case Rejected => value == None
              case Parsed(h, v, q) => value == Some(v) && p == q && h == Heap(nodes, anchors)
      decreases |events| - p, 0
    {
      if p >= |events| {
        return None;
      }
      match events[p]
      case Alias(name) =>
        if name !in anchors {
          return None;
        }
        p := p + 1;
        return Some(anchors[name]);
      case Content(anchor, header) =>
        var node := |nodes|;
        nodes := nodes + [Node(header, [])];
        RegisterAnchorFor(anchor, node);
        p := p + 1;
        if header.Scalar? {
          return Some(node);
        }
        var ok := ParseItems(node);
        return if ok then Some(node) else None;
      case End =>
        return None;
    }

    method ParseItems(parent: Id) returns (ok: bool)
      requires parent < |nodes|
      modifies this
      ensures match ComposeItems(events, old(p), Heap(old(nodes), old(anchors)), parent)
              case Rejected => !ok
              case Parsed(h, v, q) => ok && v == parent && p == q && h == Heap(nodes, anchors)
      decreases |events| - p, 1
    {
      ghost var all := ComposeItems(events, p, Heap(nodes, anchors), parent);
      while p < |events| && !events[p].End?
        invariant parent < |nodes| && old(p) <= p
        invariant all == ComposeItems(events, p, Heap(nodes, anchors), parent)
        decreases |events| - p
      {
        var value := ParseNode();
        if value == None {
          return false;
        }
        var n := nodes[parent];
        var child := Child(value.value, NextIsKey(n.header, n.children));
        nodes := nodes[parent := Node(n.header, n.children + [child])];
      }
      if p >= |events| {
        return false;
      }
      var children := nodes[parent].children;
      if children != [] && children[|children| - 1].asKey {
        return false;
      }
      p := p + 1;
      return true;
    }
  }

  /** The first scalars and the end of a sequence, one after the other. */
  lemma ScalarIsItem(events: seq<Event>, p: nat, h: Heap, parent: Id, anchor: Option<string>, header: Header)
    requires p < |events| && events[p] == Content(anchor, header) && header.Scalar? && parent < |h.nodes|
    ensures ComposeItems(events, p, h, parent)
            == ComposeItems(events, p + 1, AddChild(Create(h, anchor, header), parent, |h.nodes|), parent)
  {
    assert ComposeNode(events, p, h) == Parsed(Create(h, anchor, header), |h.nodes|, p + 1);
  }

  lemma AliasIsItem(events: seq<Event>, p: nat, h: Heap, parent: Id, name: string)
    requires p < |events| && events[p] == Alias(name) && name in h.anchors && parent < |h.nodes|
    ensures ComposeItems(events, p, h, parent)
            == ComposeItems(events, p + 1, AddChild(h, parent, h.anchors[name]), parent)
  {
    assert ComposeNode(events, p, h) == Parsed(h, h.anchors[name], p + 1);
  }

  /** What adding a child to a sequence does. */
  lemma AddedToList(h: Heap, parent: Id, value: Id, header: Header, children: seq<Child>)
    requires parent < |h.nodes| && header.Sequence? && h.nodes[parent] == Node(header, children)
    ensures AddChild(h, parent, value).anchors == h.anchors
    ensures AddChild(h, parent, value).nodes == h.nodes[parent := Node(header, children + [Child(value, false)])]
  {}

  /** Where an anchor is defined twice, an alias stands for the node of the later definition. */
  lemma LaterAnchorWins(name: string, list: Header, a: Header, b: Header)
    requires list.Sequence? && a.Scalar? && b.Scalar?
    ensures Compose([Content(None, list), Content(Some(name), a), Content(Some(name), b), Alias(name), End])
            == Some(([Node(list, [Child(1, false), Child(2, false), Child(2, false)]), Node(a, []), Node(b, [])], 0))
  {
    var events := [Content(None, list), Content(Some(name), a), Content(Some(name), b), Alias(name), End];
    var one, two := Child(1, false), Child(2, false);
    var h1 := Create(Heap([], map[]), None, list);
    assert h1.nodes == [Node(list, [])];
    ScalarIsItem(events, 1, h1, 0, Some(name), a);
    AddedToList(Create(h1, Some(name), a), 0, 1, list, []);
    var h2 := AddChild(Create(h1, Some(name), a), 0, 1);
    assert h2.nodes == [Node(list, [one]), Node(a, [])] by { assert [] + [one] == [one]; }
    ScalarIsItem(events, 2, h2, 0, Some(name), b);
    AddedToList(Create(h2, Some(name), b), 0, 2, list, [one]);
    var h3 := AddChild(Create(h2, Some(name), b), 0, 2);
    assert h3.nodes == [Node(list, [one, two]), Node(a, []), Node(b, [])] by { assert [one] + [two] == [one, two]; }
    AliasIsItem(events, 3, h3, 0, name);
    AddedToList(h3, 0, 2, list, [one, two]);
    var h4 := AddChild(h3, 0, 2);
    assert h4.nodes == [Node(list, [one, two, two]), Node(a, []), Node(b, [])] by {
      assert [one, two] + [two] == [one, two, two];
    }
    assert ComposeItems(events, 4, h4, 0) == Parsed(h4, 0, 5);
  }

  /** An alias in a collection with its anchor stands for the collection itself, whatever had the anchor before. */
  lemma OwnAnchorWins(name: string, list: Header, h: Heap)
    requires list.Sequence?
    ensures var r, n := ComposeNode([Content(Some(name), list), Alias(name), End], 0, h), |h.nodes|;
            && r.Parsed? && r.value == n && r.p == 3 && r.heap.anchors == h.anchors[name := n]
            && r.heap.nodes == h.nodes + [Node(list, [Child(n, false)])]
  {
    var events, n := [Content(Some(name), list), Alias(name), End], |h.nodes|;
    var h1 := Create(h, Some(name), list);
    AliasIsItem(events, 1, h1, n, name);
    AddedToList(h1, n, n, list, []);
    var h2 := AddChild(h1, n, n);
    assert h2.nodes == h.nodes + [Node(list, [Child(n, false)])] by {
      assert [] + [Child(n, false)] == [Child(n, false)];
    }
    assert ComposeItems(events, 2, h2, n) == Parsed(h2, n, 3);
  }
}
