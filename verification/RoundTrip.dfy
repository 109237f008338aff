/** Composing what the presenter writes gives the graph back, unless a shared scalar is met first as a key. */
module RoundTrip {
  import opened Wrappers
  import opened YamlGraph
  import opened Anchors
  import opened Presenter
  import opened Composer

  /** The child references of a node, each replaced by the place of the node it refers to. */
  ghost function Placed(place: seq<Id>, children: seq<Child>): (r: seq<Child>)
    requires forall k | 0 <= k < |children| :: children[k].id in place
    ensures |r| == |children|
  {
    seq(|children|, k requires 0 <= k < |children| => Child(IndexOf(place, children[k].id), children[k].asKey))
  }

  /** The k-th node of `place` and its children are in the document. */
  ghost predicate Buildable(g: Graph, place: seq<Id>, k: nat) {
    && k < |place| && place[k] in g
    && forall j | 0 <= j < |g[place[k]].children| :: g[place[k]].children[j].id in place
  }

  /** The graph as the composer should build it: its nodes in the order of `place`, references replaced. */
  ghost function Copy(g: Graph, place: seq<Id>): (nodes: seq<Node>)
    requires forall k | 0 <= k < |place| :: Buildable(g, place, k)
    ensures |nodes| == |place|
  {
    seq(|place|, k requires 0 <= k < |place| && Buildable(g, place, k) =>
      Node(g[place[k]].header, Placed(place, g[place[k]].children)))
  }

  /** A shared scalar whose first appearance is as a mapping key: the one thing the presenter gets wrong. */
  ghost predicate MeetsSharedScalarFirstAsKey(g: Graph, run: seq<State>) {
    exists i, j :: 0 <= i < |run| && 0 <= j < |run| && SharedScalarFirstAsKey(g, run, i, j)
  }

  ghost predicate SharedScalarFirstAsKey(g: Graph, run: seq<State>, i: nat, j: nat)
    requires i < |run| && j < |run|
  {
    var v := VisitNow(run[i]);
    v.First? && v.asKey && v.id in g && g[v.id].header.Scalar? && VisitNow(run[j]) == Again(v.id)
  }

  /** The step does not lose an anchor. */
  ghost predicate KeepsAt(g: Graph, run: seq<State>, k: nat)
    requires k < |run|
  {
    VisitNow(run[k]).id in g ==> !LosesAnchor(g, NamesOf(run), VisitNow(run[k]))
  }

  ghost predicate Keeps(g: Graph, run: seq<State>, i: nat, j: nat) {
    forall k | i <= k < j && k < |run| :: KeepsAt(g, run, k)
  }

  /** The anchor table after the nodes of `order` have been built: the names of just these nodes. */
  ghost predicate TableOf(anchors: map<string, Id>, named: map<Id, string>, order: seq<Id>) {
    && (forall k | 0 <= k < |order| :: Registered(anchors, named, order, k))
    && (forall name | name in anchors :: exists k :: 0 <= k < |order| && NameAt(named, order, k) == Some(name))
  }

  ghost function NameAt(named: map<Id, string>, order: seq<Id>, k: nat): Option<string>
    requires k < |order|
  {
    AnchorOf(named, order[k])
  }

  ghost predicate Registered(anchors: map<string, Id>, named: map<Id, string>, order: seq<Id>, k: nat)
    requires k < |order|
  {
    match NameAt(named, order, k) case None => true case Some(a) => a in anchors && anchors[a] == k
  }

  ghost predicate Injective(named: map<Id, string>) {
    forall x, y | x in named && y in named && named[x] == named[y] :: x == y
  }

  /** Creating the next node keeps the table in step. */
  lemma TableGrows(h: Heap, named: map<Id, string>, order: seq<Id>, n: Id, header: Header)
    requires TableOf(h.anchors, named, order) && Injective(named) && n !in order && |h.nodes| == |order|
    ensures TableOf(Create(h, AnchorOf(named, n), header).anchors, named, order + [n])
  {
    var anchors, more := Create(h, AnchorOf(named, n), header).anchors, order + [n];
    forall k | 0 <= k < |more| ensures Registered(anchors, named, more, k) {
      if k < |order| {
        assert Registered(h.anchors, named, order, k) && more[k] == order[k];
      }
    }
    forall name | name in anchors ensures exists k :: 0 <= k < |more| && NameAt(named, more, k) == Some(name) {
      if name in h.anchors {
        var k :| 0 <= k < |order| && NameAt(named, order, k) == Some(name);
        assert NameAt(named, more, k) == Some(name);
      } else {
        assert NameAt(named, more, |order|) == Some(name);
      }
    }
  }

  /** The name of a node that has not been built is not in the table. */
  lemma NotYetInTable(anchors: map<string, Id>, named: map<Id, string>, order: seq<Id>, n: Id)
    requires TableOf(anchors, named, order) && Injective(named) && n !in order && n in named
    ensures named[n] !in anchors
  {
    forall k | 0 <= k < |order| ensures NameAt(named, order, k) != Some(named[n]) {
      assert order[k] != n;
    }
  }

  lemma NamesInjective(run: seq<State>)
    requires run != []
    ensures Injective(NamesOf(run))
  {
    MarkUpToNumbers(run, |run| - 1);
  }

  lemma IndexAt(order: seq<Id>, i: nat)
    requires Distinct(order) && i < |order|
    ensures IndexOf(order, order[i]) == i
  {
    var j := IndexOf(order, order[i]);
    assert order[j] == order[i];
  }

  ghost predicate EventAt(g: Graph, run: seq<State>, events: seq<Event>, i: nat)
    requires run != []
  {
    i < |events| && Renderable(g, NamesOf(run), run, i) && events[i] == Render(g, NamesOf(run), VisitNow(run[i]))
  }

  /** A document, the walk over it and the events presented for it. */
  ghost predicate Presented(g: Graph, root: Id, run: seq<State>, events: seq<Event>) {
    && IsRun(g, root, run) && (forall id | id in g :: Alternates(g[id]))
    && |events| == |run| - 1 && forall j | 0 <= j < |events| :: EventAt(g, run, events, j)
  }

  /** The next node goes to the next place. */
  lemma PlaceOfNext(g: Graph, root: Id, run: seq<State>, i: nat)
    requires IsRun(g, root, run) && i < |run| && run[i].todo != [] && run[i].todo[0].Enter?
    ensures var n := run[i].todo[0].id();
            && n in Reached(run)
            && (n !in run[i].order ==> IndexOf(Reached(run), n) == |run[i].order|)
            && (n in run[i].order ==> IndexOf(Reached(run), n) < |run[i].order|
                                      && run[i].order[IndexOf(Reached(run), n)] == n)
  {
    var n := run[i].todo[0].id();
    AtStep(g, root, run, i);
    OrderGrows(g, root, run, i + 1, |run| - 1);
    OrderDistinct(g, root, run, |run| - 1);
    var k := if n in run[i].order then IndexOf(run[i].order, n) else |run[i].order|;
    assert run[i + 1].order[k] == n;
    IndexAt(Reached(run), k);
  }

  lemma ReachedBuildable(g: Graph, root: Id, run: seq<State>, k: nat)
    requires IsRun(g, root, run) && k < |Reached(run)|
    ensures Buildable(g, Reached(run), k)
  {
    var n := Reached(run)[k];
    OrderKnown(g, root, run, |run| - 1);
    forall j | 0 <= j < |g[n].children| ensures g[n].children[j].id in Reached(run) {
      ChildMet(g, root, run, n, j);
    }
  }

  /** The copy of a whole document. */
  ghost function CopyOf(g: Graph, root: Id, run: seq<State>): (nodes: seq<Node>)
    requires IsRun(g, root, run)
    ensures |nodes| == |Reached(run)|
  {
    assert forall k | 0 <= k < |Reached(run)| :: Buildable(g, Reached(run), k) by {
      forall k | 0 <= k < |Reached(run)| ensures Buildable(g, Reached(run), k) {
        ReachedBuildable(g, root, run, k);
      }
    }
    Copy(g, Reached(run))
  }

  /** What composing from step `i` to step `j` gives: `value`, and the nodes built in between, added to `before`. */
  ghost predicate Composed(g: Graph, root: Id, run: seq<State>, i: nat, j: nat, before: seq<Node>, value: Id, r: Parsed)
    requires IsRun(g, root, run) && i <= j < |run|
  {
    && r.Parsed? && r.p == j && r.value == value
    && |run[i].order| <= |run[j].order| <= |Reached(run)|
    && r.heap.nodes == before + CopyOf(g, root, run)[|run[i].order|..|run[j].order|]
    && TableOf(r.heap.anchors, NamesOf(run), run[j].order)
  }

  ghost predicate HeapAt(run: seq<State>, i: nat, h: Heap)
    requires run != [] && i < |run|
  {
    |h.nodes| == |run[i].order| && TableOf(h.anchors, NamesOf(run), run[i].order)
  }

  lemma CopyAt(g: Graph, root: Id, run: seq<State>, k: nat)
    requires IsRun(g, root, run) && k < |Reached(run)|
    ensures Buildable(g, Reached(run), k)
    ensures CopyOf(g, root, run)[k] == Node(g[Reached(run)[k]].header,
            Placed(Reached(run), g[Reached(run)[k]].children))
  {
    ReachedBuildable(g, root, run, k);
  }

  /** A node met before: one alias, which the table resolves. */
  lemma AliasRoundTrip(g: Graph, root: Id, run: seq<State>, events: seq<Event>, i: nat, h: Heap)
    requires Presented(g, root, run, events) && i < |run| && HeapAt(run, i, h)
    requires run[i].todo != [] && run[i].todo[0].Enter? && run[i].todo[0].id() in run[i].order
    ensures i < |run| - 1 && run[i + 1].todo == run[i].todo[1..] && KeepsAt(g, run, i)
    ensures run[i].todo[0].id() in Reached(run)
    ensures Composed(g, root, run, i, i + 1, h.nodes, IndexOf(Reached(run), run[i].todo[0].id()),
                     ComposeNode(events, i, h))
  {
    AtStep(g, root, run, i);
    PlaceOfNext(g, root, run, i);
    assert EventAt(g, run, events, i);
    OrderGrows(g, root, run, i, |run| - 1);
    var k := IndexOf(Reached(run), run[i].todo[0].id());
    assert Registered(h.anchors, NamesOf(run), run[i].order, k);
    assert run[i + 1].order == run[i].order;
  }

  /** A node not met before, written with its content: the node is created at the next place. */
  lemma HeadRoundTrip(g: Graph, root: Id, run: seq<State>, events: seq<Event>, i: nat, h: Heap)
    requires Presented(g, root, run, events) && i < |run| && HeapAt(run, i, h)
    requires run[i].todo != [] && run[i].todo[0].Enter? && run[i].todo[0].id() !in run[i].order
    requires KeepsAt(g, run, i)
    ensures var n := run[i].todo[0].id();
            && n in g && i < |run| - 1 && run[i + 1].todo == Inner(g, n) + run[i].todo[1..]
            && n in Reached(run) && IndexOf(Reached(run), n) == |h.nodes|
            && events[i] == Content(AnchorOf(NamesOf(run), n), g[n].header)
            && HeapAt(run, i + 1, Create(h, AnchorOf(NamesOf(run), n), g[n].header))
  {
    var n := run[i].todo[0].id();
    AtStep(g, root, run, i);
    PlaceOfNext(g, root, run, i);
    NamesInjective(run);
    assert EventAt(g, run, events, i);
    TableGrows(h, NamesOf(run), run[i].order, n, g[n].header);
  }

  lemma ScalarRoundTrip(g: Graph, root: Id, run: seq<State>, events: seq<Event>, i: nat, h: Heap)
    requires Presented(g, root, run, events) && i < |run| && HeapAt(run, i, h)
    requires run[i].todo != [] && run[i].todo[0].Enter? && run[i].todo[0].id() !in run[i].order
    requires KeepsAt(g, run, i) && run[i].todo[0].id() in g && g[run[i].todo[0].id()].header.Scalar?
    ensures i < |run| - 1 && run[i + 1].todo == run[i].todo[1..] && run[i].todo[0].id() in Reached(run)
    ensures Composed(g, root, run, i, i + 1, h.nodes, IndexOf(Reached(run), run[i].todo[0].id()),
                     ComposeNode(events, i, h))
  {
    var n, place := run[i].todo[0].id(), |run[i].order|;
    HeadRoundTrip(g, root, run, events, i, h);
    AtStep(g, root, run, i);
    OrderGrows(g, root, run, i + 1, |run| - 1);
    assert run[i + 1].order[place] == n;
    CopyAt(g, root, run, place);
    assert CopyOf(g, root, run)[place..place + 1] == [Node(g[n].header, [])];
  }

  /** A shared scalar first met as a key: an alias that nothing has defined. */
  lemma LostAnchorIsRejected(g: Graph, root: Id, run: seq<State>, events: seq<Event>, i: nat, h: Heap)
    requires Presented(g, root, run, events) && i < |run| && HeapAt(run, i, h)
    requires run[i].todo != [] && !KeepsAt(g, run, i)
    ensures i < |run| - 1 && run[i + 1].todo == run[i].todo[1..]
    ensures ComposeNode(events, i, h).Rejected?
  {
    AtStep(g, root, run, i);
    NamesInjective(run);
    assert EventAt(g, run, events, i);
    var n := VisitNow(run[i]).id;
    NotYetInTable(h.anchors, NamesOf(run), run[i].order, n);
    assert events[i] == Alias(NamesOf(run)[n]);
  }

  lemma KeepsSplits(g: Graph, run: seq<State>, i: nat, j: nat, k: nat)
    requires i <= j <= k < |run|
    ensures Keeps(g, run, i, k) <==> Keeps(g, run, i, j) && Keeps(g, run, j, k)
  {
  }

  lemma JoinHead<T>(base: seq<T>, x: T, c: seq<T>, b: nat)
    requires |base| < b <= |c|
    ensures (base + [x])[|base| := c[|base|]] + c[|base| + 1..b] == base + c[|base|..b]
  {
  }

  lemma JoinItems<T>(base: seq<T>, place: nat, x: T, y: T, c: seq<T>, a: nat, m: nat, b: nat)
    requires place < |base| && a <= m <= b <= |c|
    ensures ((base + c[a..m])[place := x])[place := y] + c[m..b] == base[place := y] + c[a..b]
  {
  }

  /** Composing the events of a node, if no anchor is lost among them, gives a copy of it; otherwise it fails. */
  lemma {:induction false} NodeRoundTrip(g: Graph, root: Id, run: seq<State>, events: seq<Event>, i: nat, h: Heap)
      returns (j: nat)
    requires Presented(g, root, run, events) && i < |run| && HeapAt(run, i, h)
    requires run[i].todo != [] && run[i].todo[0].Enter?
    ensures i < j < |run| && run[j].todo == run[i].todo[1..] && run[i].todo[0].id() in Reached(run)
    ensures if Keeps(g, run, i, j)
            then Composed(g, root, run, i, j, h.nodes, IndexOf(Reached(run), run[i].todo[0].id()),
                          ComposeNode(events, i, h))
            else ComposeNode(events, i, h).Rejected?
    decreases |run| - i, 1
  {
    var n := run[i].todo[0].id();
    PlaceOfNext(g, root, run, i);
    j := i + 1;
    if n in run[i].order {
      AliasRoundTrip(g, root, run, events, i, h);
    } else if !KeepsAt(g, run, i) {
      LostAnchorIsRejected(g, root, run, events, i, h);
    } else {
      HeadRoundTrip(g, root, run, events, i, h);
      if g[n].header.Scalar? {
        ScalarRoundTrip(g, root, run, events, i, h);
      } else {
        j := CollectionRoundTrip(g, root, run, events, i, h);
      }
    }
  }

  lemma {:induction false} CollectionRoundTrip(g: Graph, root: Id, run: seq<State>, events: seq<Event>, i: nat, h: Heap)
      returns (j: nat)
    requires Presented(g, root, run, events) && i < |run| && HeapAt(run, i, h)
    requires run[i].todo != [] && run[i].todo[0].Enter? && run[i].todo[0].id() !in run[i].order
    requires KeepsAt(g, run, i) && run[i].todo[0].id() in g && !g[run[i].todo[0].id()].header.Scalar?
    ensures i < j < |run| && run[j].todo == run[i].todo[1..] && run[i].todo[0].id() in Reached(run)
    ensures if Keeps(g, run, i, j)
            then Composed(g, root, run, i, j, h.nodes, IndexOf(Reached(run), run[i].todo[0].id()),
                          ComposeNode(events, i, h))
            else ComposeNode(events, i, h).Rejected?
    decreases |run| - i, 0
  {
    var n, rest := run[i].todo[0].id(), run[i].todo[1..];
    HeadRoundTrip(g, root, run, events, i, h);
    AtStep(g, root, run, i);
    ReachedBuildable(g, root, run, |h.nodes|);
    var h' := Create(h, AnchorOf(NamesOf(run), n), g[n].header);
    j := ItemsRoundTrip(g, root, run, events, i + 1, n, 0, rest, h');
    KeepsSplits(g, run, i, i + 1, j);
    if Keeps(g, run, i, j) {
      JoinHead(h.nodes, Node(g[n].header, []), CopyOf(g, root, run), |run[j].order|);
    }
  }

  /** The end of a collection whose children have all been added. */
  lemma EndRoundTrip(g: Graph, root: Id, run: seq<State>, events: seq<Event>, i: nat, n: Id, rest: seq<Todo>, h: Heap)
    requires Presented(g, root, run, events) && i < |run| && HeapAt(run, i, h)
    requires n in g && run[i].todo == [Exit(n)] + rest
    requires n in Reached(run) && IndexOf(Reached(run), n) < |h.nodes|
    requires h.nodes[IndexOf(Reached(run), n)] == CopyOf(g, root, run)[IndexOf(Reached(run), n)]
    ensures i + 1 < |run| && run[i + 1].todo == rest && KeepsAt(g, run, i)
    ensures var place := IndexOf(Reached(run), n);
            Composed(g, root, run, i, i + 1, h.nodes[place := CopyOf(g, root, run)[place]], place,
                     ComposeItems(events, i, h, place))
  {
    var place := IndexOf(Reached(run), n);
    AtStep(g, root, run, i);
    OrderGrows(g, root, run, i, |run| - 1);
    assert EventAt(g, run, events, i) && Alternates(g[n]);
    CopyAt(g, root, run, place);
    assert run[i + 1].order == run[i].order && h.nodes[place := h.nodes[place]] == h.nodes;
  }

  lemma EntersWithoutEnd(g: Graph, root: Id, run: seq<State>, events: seq<Event>, i: nat)
    requires Presented(g, root, run, events) && i < |run| && run[i].todo != [] && run[i].todo[0].Enter?
    ensures EventAt(g, run, events, i) && !events[i].End?
  {
    AtStep(g, root, run, i);
    assert EventAt(g, run, events, i);
  }

  /** After the k-th child is composed it is added, and the heap is ready for the next. */
  lemma ItemAdded(g: Graph, root: Id, run: seq<State>, events: seq<Event>, i: nat, j: nat, n: Id, k: nat, h: Heap)
      returns (h': Heap)
    requires Presented(g, root, run, events) && i <= j < |run| && HeapAt(run, i, h)
    requires n in g && k < |g[n].children| && EventAt(g, run, events, i) && !events[i].End?
    requires n in Reached(run) && IndexOf(Reached(run), n) < |h.nodes|
    requires Buildable(g, Reached(run), IndexOf(Reached(run), n))
    requires h.nodes[IndexOf(Reached(run), n)] == Node(g[n].header, Placed(Reached(run), g[n].children[..k]))
    requires Composed(g, root, run, i, j, h.nodes, IndexOf(Reached(run), g[n].children[k].id),
                      ComposeNode(events, i, h))
    ensures HeapAt(run, j, h')
    ensures var place := IndexOf(Reached(run), n);
            && place < |h'.nodes|
            && h'.nodes[place] == Node(g[n].header, Placed(Reached(run), g[n].children[..k + 1]))
            && |run[i].order| <= |run[j].order| <= |Reached(run)|
            && h'.nodes == (h.nodes + CopyOf(g, root, run)[|run[i].order|..|run[j].order|])[place := h'.nodes[place]]
            && ComposeItems(events, i, h, place) == ComposeItems(events, j, h', place)
  {
    var r := ComposeNode(events, i, h);
    h' := AddChild(r.heap, IndexOf(Reached(run), n), r.value);
    ChildPlaced(g, root, run, n, k);
  }

  lemma ChildRejected(events: seq<Event>, i: nat, h: Heap, parent: Id)
    requires i < |events| && !events[i].End? && parent < |h.nodes| && ComposeNode(events, i, h).Rejected?
    ensures ComposeItems(events, i, h, parent).Rejected?
  {}

  /** The copies made while one child was composed and while the rest was are together those of the whole. */
  lemma ItemsJoined(g: Graph, root: Id, run: seq<State>, i: nat, j1: nat, j: nat, place: nat,
      before: seq<Node>, middle: seq<Node>, r: Parsed)
    requires IsRun(g, root, run) && i <= j1 <= j < |run| && place < |before| && place < |Reached(run)|
    requires |run[i].order| <= |run[j1].order| <= |run[j].order| <= |Reached(run)|
    requires place < |middle| && middle ==
             (before + CopyOf(g, root, run)[|run[i].order|..|run[j1].order|])[place := middle[place]]
    requires Composed(g, root, run, j1, j, middle[place := CopyOf(g, root, run)[place]], place, r)
    ensures Composed(g, root, run, i, j, before[place := CopyOf(g, root, run)[place]], place, r)
  {
    var c := CopyOf(g, root, run);
    JoinItems(before, place, middle[place], c[place], c, |run[i].order|, |run[j1].order|, |run[j].order|);
  }

  lemma {:induction false} ItemsRoundTrip(g: Graph, root: Id, run: seq<State>, events: seq<Event>, i: nat,
      n: Id, k: nat, rest: seq<Todo>, h: Heap) returns (j: nat)
    requires Presented(g, root, run, events) && i < |run| && HeapAt(run, i, h)
    requires n in g && k <= |g[n].children| && run[i].todo == Children(g, n, k) + rest
    requires n in Reached(run) && IndexOf(Reached(run), n) < |h.nodes|
    requires Buildable(g, Reached(run), IndexOf(Reached(run), n))
    requires h.nodes[IndexOf(Reached(run), n)] == Node(g[n].header, Placed(Reached(run), g[n].children[..k]))
    ensures i < j < |run| && run[j].todo == rest
    ensures var place := IndexOf(Reached(run), n);
            if Keeps(g, run, i, j)
            then Composed(g, root, run, i, j, h.nodes[place := CopyOf(g, root, run)[place]], place,
                          ComposeItems(events, i, h, place))
            else ComposeItems(events, i, h, place).Rejected?
    decreases |run| - i, 2
  {
    var place := IndexOf(Reached(run), n);
    CopyAt(g, root, run, place);
    if k == |g[n].children| {
      assert g[n].children[..k] == g[n].children;
      EndRoundTrip(g, root, run, events, i, n, rest, h);
      j := i + 1;
    } else {
      NextChild(g, n, k, rest);
      EntersWithoutEnd(g, root, run, events, i);
      var j1 := NodeRoundTrip(g, root, run, events, i, h);
      if Keeps(g, run, i, j1) {
        var h1 := ItemAdded(g, root, run, events, i, j1, n, k, h);
        j := ItemsRoundTrip(g, root, run, events, j1, n, k + 1, rest, h1);
        KeepsSplits(g, run, i, j1, j);
        if Keeps(g, run, j1, j) {
          ItemsJoined(g, root, run, i, j1, j, place, h.nodes, h1.nodes, ComposeItems(events, i, h, place));
        }
      } else {
        ChildRejected(events, i, h, place);
        j := RestReached(g, root, run, j1, Children(g, n, k + 1), rest);
        KeepsSplits(g, run, i, j1, j);
      }
    }
  }

  /** Adding a child to the copy of the first `k` children gives the copy of one more. */
  lemma ChildPlaced(g: Graph, root: Id, run: seq<State>, n: Id, k: nat)
    requires IsRun(g, root, run) && n in g && k < |g[n].children| && Alternates(g[n])
    requires forall j | 0 <= j < |g[n].children| :: g[n].children[j].id in Reached(run)
    ensures var place, children := Reached(run), g[n].children;
            && NextIsKey(g[n].header, Placed(place, children[..k])) == children[k].asKey
            && Placed(place, children[..k]) + [Child(IndexOf(place, children[k].id), children[k].asKey)]
                 == Placed(place, children[..k + 1])
  {
  }

  /**
   * `f` maps the nodes reachable from `root`, one to one, onto all of `nodes`, the root to `value`, keeping kinds,
   * tags, scalar values, the order of children, and thereby all sharing and every cycle.
   */
  ghost predicate Isomorphism(g: Graph, root: Id, nodes: seq<Node>, value: Id, f: map<Id, Id>) {
    && root in f && f[root] == value
    && ClosedUnder(g, f.Keys) && f.Keys <= g.Keys
    && (forall s: set<Id> | ClosedUnder(g, s) && root in s :: f.Keys <= s)
    && (forall x, y | x in f && y in f && f[x] == f[y] :: x == y)
    && (forall x | x in f :: f[x] < |nodes|)
    && (forall k | 0 <= k < |nodes| :: k in f.Values)
    && forall x | x in f ::
         && nodes[f[x]].header == g[x].header
         && |nodes[f[x]].children| == |g[x].children|
         && forall k | 0 <= k < |g[x].children| ::
              && g[x].children[k].id in f
              && nodes[f[x]].children[k] == Child(f[g[x].children[k].id], g[x].children[k].asKey)
  }

  lemma CopyIsIsomorphic(g: Graph, root: Id, run: seq<State>) returns (f: map<Id, Id>)
    requires IsRun(g, root, run)
    ensures root in Reached(run) && Isomorphism(g, root, CopyOf(g, root, run), IndexOf(Reached(run), root), f)
  {
    var place, nodes := Reached(run), CopyOf(g, root, run);
    ReachedIsLeastClosed(g, root, run);
    f := map x | x in SetOf(place) :: IndexOf(place, x);
    assert f.Keys == SetOf(place);
    forall x | x in f
      ensures nodes[f[x]] == Node(g[x].header, Placed(place, g[x].children))
    {
      CopyAt(g, root, run, f[x]);
    }
    forall k | 0 <= k < |nodes| ensures k in f.Values {
      IndexAt(place, k);
      assert place[k] in f && f[place[k]] == k;
    }
  }

  /** A lost anchor is a shared scalar met first as a key. */
  lemma LosesIffMeets(g: Graph, root: Id, run: seq<State>)
    requires IsRun(g, root, run)
    ensures Keeps(g, run, 0, |run| - 1) <==> !MeetsSharedScalarFirstAsKey(g, run)
  {
    if !Keeps(g, run, 0, |run| - 1) {
      var i :| 0 <= i < |run| - 1 && !KeepsAt(g, run, i);
      var n := VisitNow(run[i]).id;
      MarkUpToMarks(run, |run| - 1, n);
      var j :| 0 <= j < |run| - 1 && VisitNow(run[j]) == Again(n);
      assert SharedScalarFirstAsKey(g, run, i, j);
    }
    if MeetsSharedScalarFirstAsKey(g, run) {
      var i, j :| 0 <= i < |run| && 0 <= j < |run| && SharedScalarFirstAsKey(g, run, i, j);
      MarkUpToMarks(run, |run| - 1, VisitNow(run[i]).id);
      assert MetAgain(run, |run| - 1, VisitNow(run[i]).id);
      assert !KeepsAt(g, run, i);
    }
  }

  lemma EventsArePresented(g: Graph, root: Id)
    requires WellFormed(g) && root in g && forall id | id in g :: Alternates(g[id])
    ensures Presented(g, root, RunOf(g, root), EventsOf(g, root))
  {
    forall j | 0 <= j < |EventsOf(g, root)| ensures EventAt(g, RunOf(g, root), EventsOf(g, root), j) {}
  }

  lemma DocumentRoundTrip(g: Graph, root: Id, run: seq<State>, events: seq<Event>)
    requires Presented(g, root, run, events)
    ensures root in Reached(run)
    ensures Compose(events) == if MeetsSharedScalarFirstAsKey(g, run) then None
                               else Some((CopyOf(g, root, run), IndexOf(Reached(run), root)))
  {
    var j := NodeRoundTrip(g, root, run, events, 0, Heap([], map[]));
    OnlyEndsEmpty(g, root, run, j);
    LosesIffMeets(g, root, run);
    var c := CopyOf(g, root, run);
    assert [] + c[0..|c|] == c;
  }

  /**
   * The round trip of a document: it fails exactly when a shared scalar is met first as a mapping key; otherwise
   * the graph composed is isomorphic to the one presented.
   */
  lemma RoundTrip(g: Graph, root: Id)
    requires WellFormed(g) && root in g && forall id | id in g :: Alternates(g[id])
    ensures Compose(EventsOf(g, root)).None? <==> MeetsSharedScalarFirstAsKey(g, RunOf(g, root))
    ensures match Compose(EventsOf(g, root))
            case None => true
            case Some((nodes, value)) => exists f :: Isomorphism(g, root, nodes, value, f)
  {
    EventsArePresented(g, root);
    DocumentRoundTrip(g, root, RunOf(g, root), EventsOf(g, root));
    var f := CopyIsIsomorphic(g, root, RunOf(g, root));
  }

  /** A mapping whose first entry has the same scalar as its key and its value is never composed again. */
  lemma SameKeyAndValueFails(g: Graph, root: Id, n: Id)
    requires WellFormed(g) && root in g && n in g && n != root && forall id | id in g :: Alternates(g[id])
    requires g[n].header.Scalar? && g[root].header.Mapping?
    requires |g[root].children| >= 2 && g[root].children[0] == Child(n, true) && g[root].children[1].id == n
    ensures Compose(EventsOf(g, root)) == None
  {
    FirstEntryMet(g, root, RunOf(g, root), n);
    RoundTrip(g, root);
  }

  lemma FirstEntryMet(g: Graph, root: Id, run: seq<State>, n: Id)
    requires IsRun(g, root, run) && n in g && n != root && g[n].header.Scalar? && g[root].header.Mapping?
    requires |g[root].children| >= 2 && g[root].children[0] == Child(n, true) && g[root].children[1].id == n
    ensures |run| > 3 && SharedScalarFirstAsKey(g, run, 1, 2)
  {
    AtStep(g, root, run, 0);
    NextChild(g, root, 0, []);
    assert run[1].todo == Children(g, root, 0) + [];
    AtStep(g, root, run, 1);
    NextChild(g, root, 1, []);
    assert run[2].todo == Children(g, root, 1) + [];
    AtStep(g, root, run, 2);
  }

  /** The mapping `{a: a}` with one node for both is such a document. */
  lemma SharedKeyExample(g: Graph)
    requires g == map[0 := Node(Mapping("!!map"), [Child(1, true), Child(1, false)]),
             1 := Node(Scalar("!!str", "a"), [])]
    ensures WellFormed(g) && Compose(EventsOf(g, 0)) == None
  {
    SameKeyAndValueFails(g, 0, 1);
  }

  /** A node is met for the first time only once. */
  lemma FirstOnlyOnce(g: Graph, root: Id, run: seq<State>, i: nat, j: nat)
    requires IsRun(g, root, run) && i < j < |run|
    requires VisitNow(run[i]).First? && VisitNow(run[j]).First?
    ensures VisitNow(run[i]).id != VisitNow(run[j]).id
  {
    NotYetDone(g, root, run, i);
    AtStep(g, root, run, i);
    OrderGrows(g, root, run, i + 1, j);
    assert run[i + 1].order[|run[i].order|] == VisitNow(run[i]).id;
  }

  /** The event at `i` writes the content of `n`. */
  ghost predicate WritesContent(g: Graph, root: Id, i: nat, n: Id)
    requires WellFormed(g) && root in g
  {
    i < |EventsOf(g, root)| && EventsOf(g, root)[i].Content? && VisitNow(RunOf(g, root)[i]).id == n
  }

  /** No two events write the content of a node. */
  lemma WrittenOnce(g: Graph, root: Id, i: nat, j: nat, n: Id)
    requires WellFormed(g) && root in g && WritesContent(g, root, i, n) && WritesContent(g, root, j, n)
    ensures i == j
  {
    var run := RunOf(g, root);
    if i < j { FirstOnlyOnce(g, root, run, i, j); }
    if j < i { FirstOnlyOnce(g, root, run, j, i); }
  }

  /**
   * In a stream that keeps its anchors, the content of each reachable node is written exactly once, with an anchor
   * exactly when the walk meets the node again.
   */
  lemma ContentOnce(g: Graph, root: Id, n: Id) returns (i: nat)
    requires WellFormed(g) && root in g && !MeetsSharedScalarFirstAsKey(g, RunOf(g, root))
    requires n in Reached(RunOf(g, root))
    ensures n in g && WritesContent(g, root, i, n) && EventsOf(g, root)[i].header == g[n].header
    ensures forall k: nat | WritesContent(g, root, k, n) :: k == i
    ensures EventsOf(g, root)[i].anchor.Some? <==>
            exists k :: 0 <= k < |EventsOf(g, root)| && VisitNow(RunOf(g, root)[k]) == Again(n)
  {
    i := FirstContent(g, root, n);
    forall k: nat | WritesContent(g, root, k, n) ensures k == i {
      WrittenOnce(g, root, i, k, n);
    }
    var run := RunOf(g, root);
    MarkUpToMarks(run, |run| - 1, n);
    assert n in NamesOf(run) <==> MetAgain(run, |EventsOf(g, root)|, n);
  }

  lemma FirstContent(g: Graph, root: Id, n: Id) returns (i: nat)
    requires WellFormed(g) && root in g && !MeetsSharedScalarFirstAsKey(g, RunOf(g, root))
    requires n in Reached(RunOf(g, root))
    ensures n in g && WritesContent(g, root, i, n)
    ensures EventsOf(g, root)[i] == Content(AnchorOf(NamesOf(RunOf(g, root)), n), g[n].header)
  {
    var run := RunOf(g, root);
    i := MetBefore(g, root, run, |run| - 1, n);
    NotYetDone(g, root, run, i);
    AtStep(g, root, run, i);
    LosesIffMeets(g, root, run);
    assert KeepsAt(g, run, i);
  }

  /** In such a stream every alias follows the one event that defines its anchor. */
  lemma AliasFollowsAnchor(g: Graph, root: Id, j: nat) returns (i: nat)
    requires WellFormed(g) && root in g && !MeetsSharedScalarFirstAsKey(g, RunOf(g, root))
    requires j < |EventsOf(g, root)| && EventsOf(g, root)[j].Alias?
    ensures i < j && DefinesAnchor(g, root, i, EventsOf(g, root)[j].name)
    ensures forall k: nat | DefinesAnchor(g, root, k, EventsOf(g, root)[j].name) :: k == i
  {
    var run, events := RunOf(g, root), EventsOf(g, root);
    LosesIffMeets(g, root, run);
    assert KeepsAt(g, run, j);
    var n := VisitNow(run[j]).id;
    i := MetBefore(g, root, run, j, n);
    assert KeepsAt(g, run, i);
    NamesInjective(run);
    forall k: nat | DefinesAnchor(g, root, k, events[j].name) ensures k == i {
      assert KeepsAt(g, run, k);
      if k < i { FirstOnlyOnce(g, root, run, k, i); }
      if i < k { FirstOnlyOnce(g, root, run, i, k); }
    }
  }

  ghost predicate DefinesAnchor(g: Graph, root: Id, i: nat, name: string)
    requires WellFormed(g) && root in g
  {
    i < |EventsOf(g, root)| && EventsOf(g, root)[i].Content? && EventsOf(g, root)[i].anchor == Some(name)
  }
}
