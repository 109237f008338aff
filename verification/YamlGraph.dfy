/** The node graph of a YAML document and the depth-first walk both presenter passes follow. */
module YamlGraph {

  type Id = nat

  datatype Header =
    | Scalar(tag: string, value: string)
    | Sequence(tag: string)
    | Mapping(tag: string)

  datatype Child = Child(id: Id, asKey: bool)

  /** The children of a mapping are its keys and values in turn, in enumeration order; keys are flagged. */
  datatype Node = Node(header: Header, children: seq<Child>)

  type Graph = map<Id, Node>

  ghost predicate WellFormed(g: Graph) {
    forall id | id in g ::
      && (g[id].header.Scalar? ==> g[id].children == [])
      && forall k | 0 <= k < |g[id].children| ::
           g[id].children[k].id in g && (g[id].children[k].asKey ==> g[id].header.Mapping?)
  }

  /** Whether the next child of a collection is a key, given the children it has. */
  predicate NextIsKey(header: Header, children: seq<Child>) {
    header.Mapping? && (children == [] || !children[|children| - 1].asKey)
  }

  /** Keys and values take turns, and every key has a value. */
  ghost predicate Alternates(n: Node) {
    && (forall k | 0 <= k < |n.children| :: n.children[k].asKey == NextIsKey(n.header, n.children[..k]))
    && (n.children != [] ==> !n.children[|n.children| - 1].asKey)
  }

  ghost predicate Distinct(order: seq<Id>) {
    forall i, j | 0 <= i < j < |order| :: order[i] != order[j]
  }

  function SetOf(order: seq<Id>): set<Id> {
    set x | x in order
  }

  /** How many nodes of `g` are not in the list. */
  ghost function Unseen(g: Graph, order: seq<Id>): nat {
    |g.Keys - SetOf(order)|
  }

  lemma UnseenShrinks(g: Graph, order: seq<Id>, n: Id)
    requires n in g && n !in order
    ensures Unseen(g, order + [n]) < Unseen(g, order)
  {
    assert g.Keys - SetOf(order + [n]) == (g.Keys - SetOf(order)) - {n};
  }

  /** Position of `x` in a list that holds it. */
  function IndexOf(order: seq<Id>, x: Id): (i: nat)
    requires x in order
    ensures i < |order| && order[i] == x
  {
    if order[0] == x then 0 else 1 + IndexOf(order[1..], x)
  }

  /** One step of the walk: a node met for the first time, met again, or left. Scalars are not left. */
  datatype Visit = First(id: Id, asKey: bool) | Again(id: Id) | Leave(id: Id)

  /** What is still to be done: a node to visit, or the end of a collection. */
  datatype Todo = Enter(child: Child) | Exit(parent: Id)
  {
    function id(): Id {
      if Enter? then child.id else parent
    }
  }

  ghost predicate Doable(g: Graph, todo: seq<Todo>) {
    forall i | 0 <= i < |todo| :: todo[i].id() in g
  }

  /** The children of a collection from the k-th on, and its end. */
  ghost function Children(g: Graph, id: Id, k: nat): (todo: seq<Todo>)
    requires WellFormed(g) && id in g && k <= |g[id].children|
    ensures Doable(g, todo)
    decreases |g[id].children| - k
  {
    if k == |g[id].children| then [Exit(id)]
    else [Enter(g[id].children[k])] + Children(g, id, k + 1)
  }

  ghost function Inner(g: Graph, id: Id): (todo: seq<Todo>)
    requires WellFormed(g) && id in g
    ensures Doable(g, todo)
  {
    if g[id].header.Scalar? then [] else Children(g, id, 0)
  }

  /** A state of the walk: the nodes met so far, and what is still to be done. */
  datatype State = State(order: seq<Id>, todo: seq<Todo>)

  ghost predicate Ready(g: Graph, s: State) {
    Doable(g, s.todo)
  }

  /** The step to take; a finished walk has none, and the value is of no account. */
  ghost function VisitNow(s: State): Visit {
    if s.todo == [] then Leave(0) else
    var n := s.todo[0].id();
    if s.todo[0].Exit? then Leave(n) else if n in s.order then Again(n) else First(n, s.todo[0].child.asKey)
  }

  ghost function Step(g: Graph, s: State): (t: State)
    requires WellFormed(g) && Ready(g, s) && s.todo != []
    ensures Ready(g, t)
    ensures t.order == s.order + if VisitNow(s).First? then [s.todo[0].id()] else []
    ensures Unseen(g, t.order) < Unseen(g, s.order) || (t.order == s.order && |t.todo| < |s.todo|)
  {
    var n, rest := s.todo[0].id(), s.todo[1..];
    if VisitNow(s).First? then
      UnseenShrinks(g, s.order, n);
      State(s.order + [n], Inner(g, n) + rest)
    else State(s.order, rest)
  }

  ghost function Start(root: Id): State {
    State([], [Enter(Child(root, false))])
  }

  /** The states of a whole walk from the root, until nothing is left to be done. */
  ghost predicate IsRun(g: Graph, root: Id, run: seq<State>) {
    && WellFormed(g) && root in g
    && |run| > 0 && run[0] == Start(root) && run[|run| - 1].todo == []
    && forall i | 0 <= i < |run| - 1 :: Follows(g, run, i)
  }

  /** One step leads from the i-th state to the next. */
  ghost predicate Follows(g: Graph, run: seq<State>, i: nat)
    requires WellFormed(g) && i < |run| - 1
  {
    run[i].todo != [] && Ready(g, run[i]) && run[i + 1] == Step(g, run[i])
  }

  lemma AtStep(g: Graph, root: Id, run: seq<State>, i: nat)
    requires IsRun(g, root, run) && i < |run| && run[i].todo != []
    ensures i < |run| - 1 && run[i].todo[0].id() in g
    ensures var first, n := VisitNow(run[i]).First?, run[i].todo[0].id();
            && run[i + 1].order == run[i].order + (if first then [n] else [])
            && run[i + 1].todo == (if first then Inner(g, n) else []) + run[i].todo[1..]
  {
    assert Follows(g, run, i);
  }

  lemma NotYetDone(g: Graph, root: Id, run: seq<State>, i: nat)
    requires IsRun(g, root, run) && i < |run| - 1
    ensures run[i].todo != []
  {
    assert Follows(g, run, i);
  }

  /** The nodes of a document in the order they are met. */
  ghost function Reached(run: seq<State>): seq<Id>
    requires run != []
  {
    run[|run| - 1].order
  }

  ghost function RunFrom(g: Graph, s: State): (run: seq<State>)
    requires WellFormed(g) && Ready(g, s)
    ensures run != [] && run[0] == s
    decreases Unseen(g, s.order), |s.todo|
  {
    [s] + if s.todo == [] then [] else RunFrom(g, Step(g, s))
  }

  lemma {:induction false} RunFromEnds(g: Graph, s: State)
    requires WellFormed(g) && Ready(g, s)
    ensures var run := RunFrom(g, s);
            run[|run| - 1].todo == [] && forall i | 0 <= i < |run| - 1 :: Follows(g, run, i)
    decreases Unseen(g, s.order), |s.todo|
  {
    if s.todo != [] {
      RunFromEnds(g, Step(g, s));
      var rest := RunFrom(g, Step(g, s));
      forall i | 0 <= i < |rest| ensures Follows(g, RunFrom(g, s), i) {
        if i > 0 { assert Follows(g, rest, i - 1); }
      }
    }
  }

  /** The walk over a document; it ends even when the graph is cyclic. */
  ghost function RunOf(g: Graph, root: Id): (run: seq<State>)
    requires WellFormed(g) && root in g
    ensures IsRun(g, root, run)
  {
    RunFromEnds(g, Start(root));
    RunFrom(g, Start(root))
  }

  /** The nodes met only grow in number, and each is listed once. */
  lemma {:induction false} OrderGrows(g: Graph, root: Id, run: seq<State>, i: nat, j: nat)
    requires IsRun(g, root, run) && i <= j < |run|
    ensures run[i].order <= run[j].order
    decreases j - i
  {
    if i < j {
      OrderGrows(g, root, run, i, j - 1);
      NotYetDone(g, root, run, j - 1);
      AtStep(g, root, run, j - 1);
    }
  }

  lemma {:induction false} OrderDistinct(g: Graph, root: Id, run: seq<State>, i: nat)
    requires IsRun(g, root, run) && i < |run|
    ensures Distinct(run[i].order)
  {
    if i > 0 {
      OrderDistinct(g, root, run, i - 1);
      NotYetDone(g, root, run, i - 1);
      AtStep(g, root, run, i - 1);
    }
  }

  lemma {:induction false} OrderKnown(g: Graph, root: Id, run: seq<State>, i: nat)
    requires IsRun(g, root, run) && i < |run|
    ensures SetOf(run[i].order) <= g.Keys
  {
    if i > 0 {
      OrderKnown(g, root, run, i - 1);
      NotYetDone(g, root, run, i - 1);
      AtStep(g, root, run, i - 1);
    }
  }

  /** A node that has been met was met for the first time at exactly one earlier step. */
  lemma {:induction false} MetBefore(g: Graph, root: Id, run: seq<State>, i: nat, n: Id) returns (j: nat)
    requires IsRun(g, root, run) && i < |run| && n in run[i].order
    ensures j < i && VisitNow(run[j]).First? && VisitNow(run[j]).id == n
    ensures n !in run[j].order && n in run[j + 1].order
  {
    j := i - 1;
    NotYetDone(g, root, run, j);
    AtStep(g, root, run, j);
    if n in run[j].order {
      j := MetBefore(g, root, run, j, n);
    }
  }

  ghost predicate ClosedUnder(g: Graph, s: set<Id>) {
    forall id, k | id in s && id in g && 0 <= k < |g[id].children| :: g[id].children[k].id in s
  }

  ghost predicate AllIn(todo: seq<Todo>, s: set<Id>) {
    forall i | 0 <= i < |todo| :: todo[i].id() in s
  }

  lemma {:induction false} ChildrenIn(g: Graph, id: Id, k: nat, s: set<Id>)
    requires WellFormed(g) && id in g && k <= |g[id].children|
    requires ClosedUnder(g, s) && id in s
    ensures AllIn(Children(g, id, k), s)
    decreases |g[id].children| - k
  {
    if k < |g[id].children| {
      ChildrenIn(g, id, k + 1, s);
    }
  }

  /** Nothing outside a closed set that holds the root is met. */
  lemma {:induction false} StaysInside(g: Graph, root: Id, run: seq<State>, i: nat, closed: set<Id>)
    requires IsRun(g, root, run) && i < |run|
    requires ClosedUnder(g, closed) && root in closed
    ensures AllIn(run[i].todo, closed) && SetOf(run[i].order) <= closed
  {
    if i > 0 {
      var s := run[i - 1];
      StaysInside(g, root, run, i - 1, closed);
      assert Follows(g, run, i - 1);
      if VisitNow(s).First? && !g[s.todo[0].id()].header.Scalar? {
        ChildrenIn(g, s.todo[0].id(), 0, closed);
      }
    }
  }

  /** Everything to be done is done in the end. */
  lemma {:induction false} TodoMet(g: Graph, root: Id, run: seq<State>, i: nat, k: nat)
    requires IsRun(g, root, run) && i < |run| && k < |run[i].todo| && run[i].todo[k].Enter?
    ensures run[i].todo[k].id() in Reached(run)
    decreases |run| - i
  {
    var s, t := run[i], run[i + 1];
    assert Follows(g, run, i);
    if k > 0 {
      var shift := |t.todo| - |s.todo[1..]|;
      assert t.todo[shift + k - 1] == s.todo[k];
      TodoMet(g, root, run, i + 1, shift + k - 1);
    } else {
      assert s.todo[0].id() in t.order;
      OrderGrows(g, root, run, i + 1, |run| - 1);
    }
  }

  /** Whatever is in front of `rest` is done before it. */
  lemma {:induction false} RestReached(g: Graph, root: Id, run: seq<State>, i: nat, front: seq<Todo>, rest: seq<Todo>)
      returns (j: nat)
    requires IsRun(g, root, run) && i < |run| && run[i].todo == front + rest
    ensures i <= j < |run| && run[j].todo == rest
    decreases |run| - i
  {
    j := i;
    if front != [] {
      AtStep(g, root, run, i);
      var n := front[0].id();
      assert (front + rest)[1..] == front[1..] + rest;
      var more := (if VisitNow(run[i]).First? then Inner(g, n) else []) + front[1..];
      assert run[i + 1].todo == more + rest;
      j := RestReached(g, root, run, i + 1, more, rest);
    }
  }

  lemma {:induction false} ChildrenAt(g: Graph, id: Id, k: nat, j: nat)
    requires WellFormed(g) && id in g && k <= j < |g[id].children|
    ensures var todo := Children(g, id, k);
            j - k < |todo| && todo[j - k] == Enter(g[id].children[j])
    decreases j - k
  {
    if k < j {
      ChildrenAt(g, id, k + 1, j);
    }
  }

  lemma ChildMet(g: Graph, root: Id, run: seq<State>, n: Id, k: nat)
    requires IsRun(g, root, run) && n in Reached(run) && n in g && k < |g[n].children|
    ensures g[n].children[k].id in Reached(run)
  {
    var i := MetBefore(g, root, run, |run| - 1, n);
    assert Follows(g, run, i);
    ChildrenAt(g, n, 0, k);
    assert run[i + 1].todo[k] == Enter(g[n].children[k]);
    TodoMet(g, root, run, i + 1, k);
  }

  /** The walk meets exactly the nodes reachable from the root, the least closed set that holds it. */
  lemma ReachedIsLeastClosed(g: Graph, root: Id, run: seq<State>)
    requires IsRun(g, root, run)
    ensures Distinct(Reached(run)) && root in Reached(run)
    ensures SetOf(Reached(run)) <= g.Keys && ClosedUnder(g, SetOf(Reached(run)))
    ensures forall s: set<Id> | ClosedUnder(g, s) && root in s :: SetOf(Reached(run)) <= s
  {
    OrderDistinct(g, root, run, |run| - 1);
    OrderKnown(g, root, run, |run| - 1);
    TodoMet(g, root, run, 0, 0);
    forall id, k | id in SetOf(Reached(run)) && id in g && 0 <= k < |g[id].children|
      ensures g[id].children[k].id in SetOf(Reached(run))
    {
      ChildMet(g, root, run, id, k);
    }
    forall s: set<Id> | ClosedUnder(g, s) && root in s ensures SetOf(Reached(run)) <= s {
      StaysInside(g, root, run, |run| - 1, s);
    }
  }

  /** After `k` children of `n` the next one is at the front of what is to be done, with the rest behind it. */
  lemma NextChild(g: Graph, n: Id, k: nat, rest: seq<Todo>)
    requires WellFormed(g) && n in g && k < |g[n].children|
    ensures var todo := Children(g, n, k) + rest;
            todo[0] == Enter(g[n].children[k]) && todo[1..] == Children(g, n, k + 1) + rest
  {
  }
}
