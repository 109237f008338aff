/** The comparison of two disjoint graphs as two walks, each through its own graph, and when it throws. */
module NodeWalks {
  import opened NodeEquality

  /** A walk through one graph: the nodes met so far, in order of appearance, and those to be visited. */
  datatype Walker = Walker(order: seq<Id>, todo: seq<Id>)

  ghost function ItemsOf(g: Graph, id: Id): seq<Id>
    requires id in g
  {
    if g[id].Sequence? then g[id].items else []
  }

  /** All nodes of a walk are in a part of the graph. */
  ghost predicate Stays(g: Graph, w: Walker, part: iset<Id>) {
    && (forall i | 0 <= i < |w.order| :: w.order[i] in part)
    && forall i | 0 <= i < |w.todo| :: w.todo[i] in g && w.todo[i] in part
  }

  ghost predicate Seen(w: Walker) {
    w.todo != [] && w.todo[0] in w.order
  }

  ghost function Onward(g: Graph, w: Walker): Walker {
    if w.todo == [] || w.todo[0] !in g then w
    else if Seen(w) then Walker(w.order, w.todo[1..])
    else Walker(w.order + [w.todo[0]], ItemsOf(g, w.todo[0]) + w.todo[1..])
  }

  /** The walk from a node after k steps. */
  ghost function Walk(g: Graph, a: Id, k: nat): Walker {
    if k == 0 then Walker([], [a]) else Onward(g, Walk(g, a, k - 1))
  }

  ghost predicate SameAt(v: Walker, w: Walker, i: nat) {
    && v.todo != [] && i < |v.order| && v.order[i] == v.todo[0]
    && w.todo != [] && i < |w.order| && w.order[i] == w.todo[0]
  }

  /** Both walks meet the node again that they have met at the same place. */
  ghost predicate SamePlace(v: Walker, w: Walker) {
    exists i :: SameAt(v, w, i)
  }

  /** Both walks meet an old node, the same on its side, or both a new one, alike. */
  ghost predicate Agree(g: Graph, v: Walker, w: Walker) {
    && v.todo != [] && w.todo != []
    && if Seen(v) || Seen(w) then SamePlace(v, w)
       else v.todo[0] in g && w.todo[0] in g && HeadsEqual(g[v.todo[0]], g[w.todo[0]])
  }

  /** Both walks meet an old node, but not the same on its side. */
  ghost predicate Clash(v: Walker, w: Walker) {
    Seen(v) && Seen(w) && !SamePlace(v, w)
  }

  ghost predicate AgreeUpTo(g: Graph, a: Id, b: Id, k: nat) {
    forall i: nat | i < k :: Agree(g, Walk(g, a, i), Walk(g, b, i))
  }

  ghost function Zip(a: seq<Id>, b: seq<Id>): seq<Pair>
    requires |a| == |b|
  {
    seq(|a|, i requires 0 <= i < |a| => (a[i], b[i]))
  }

  /** The comparison is where two walks side by side are. */
  ghost predicate SideBySide(s: State, v: Walker, w: Walker) {
    && |v.order| == |w.order| && |v.todo| == |w.todo|
    && s == State(Zip(v.order, w.order), Zip(v.todo, w.todo))
  }

  lemma {:induction false} ItemPairsZip(a: seq<Id>, b: seq<Id>, k: nat)
    requires |a| == |b| && k <= |a|
    ensures ItemPairs(a, b, k) == Zip(a[k..], b[k..])
    decreases |a| - k
  {
    if k < |a| {
      ItemPairsZip(a, b, k + 1);
      assert Zip(a[k..], b[k..]) == [(a[k], b[k])] + Zip(a[k + 1..], b[k + 1..]);
    }
  }

  /** What the repository says of the next pair is what the two walks say. */
  lemma AppearanceIsWalked(s: State, v: Walker, w: Walker)
    requires SideBySide(s, v, w) && v.todo != []
    ensures s.todo[0] == (v.todo[0], w.todo[0])
    ensures HasFirst(s.pairs, v.todo[0]) <==> Seen(v)
    ensures HasSecond(s.pairs, w.todo[0]) <==> Seen(w)
    ensures s.todo[0] in s.pairs <==> SamePlace(v, w)
  {
    if Seen(v) {
      var i :| 0 <= i < |v.order| && v.order[i] == v.todo[0];
      assert s.pairs[i].0 == v.todo[0];
    }
    if Seen(w) {
      var i :| 0 <= i < |w.order| && w.order[i] == w.todo[0];
      assert s.pairs[i].1 == w.todo[0];
    }
    if SamePlace(v, w) {
      var i: nat :| SameAt(v, w, i);
      assert s.pairs[i] == s.todo[0];
    }
    if s.todo[0] in s.pairs {
      var i :| 0 <= i < |s.pairs| && s.pairs[i] == s.todo[0];
      assert SameAt(v, w, i);
    }
  }

  ghost function VerdictAt(v: Walker, w: Walker): Verdict {
    if v.todo == [] then Same else if Clash(v, w) then Thrown else Different
  }

  /** Two walks through disjoint parts of a graph. */
  ghost predicate Apart(g: Graph, v: Walker, w: Walker, left: iset<Id>, right: iset<Id>) {
    Stays(g, v, left) && Stays(g, w, right) && left !! right
  }

  /** The comparison goes on exactly when the walks agree; otherwise its verdict is theirs. */
  lemma MoveIsWalked(g: Graph, s: State, v: Walker, w: Walker, left: iset<Id>, right: iset<Id>)
    requires SideBySide(s, v, w) && Apart(g, v, w, left, right)
    ensures Known(g, s.todo)
    ensures MoveAt(g, s) == if Agree(g, v, w) then Go else Stop(VerdictAt(v, w))
  {
    if v.todo != [] {
      AppearanceIsWalked(s, v, w);
    }
  }

  lemma ZipBoth(a: seq<Id>, b: seq<Id>, c: seq<Id>, d: seq<Id>)
    requires |a| == |b| && |c| == |d|
    ensures Zip(a, b) + Zip(c, d) == Zip(a + c, b + d)
  {}

  lemma StepIsWalked(g: Graph, s: State, v: Walker, w: Walker, left: iset<Id>, right: iset<Id>)
    requires WellFormed(g) && SideBySide(s, v, w) && Apart(g, v, w, left, right) && Agree(g, v, w)
    requires Known(g, s.todo) && MoveAt(g, s).Go?
    ensures SideBySide(Step(g, s), Onward(g, v), Onward(g, w))
  {
    AppearanceIsWalked(s, v, w);
    var a, b := v.todo[0], w.todo[0];
    assert s.todo[1..] == Zip(v.todo[1..], w.todo[1..]);
    if !Seen(v) && !Seen(w) {
      ZipBoth(v.order, w.order, [a], [b]);
      if g[a].Sequence? {
        ItemPairsZip(g[a].items, g[b].items, 0);
        assert g[a].items[0..] == g[a].items && g[b].items[0..] == g[b].items;
        ZipBoth(g[a].items, g[b].items, v.todo[1..], w.todo[1..]);
      } else {
        assert [] + v.todo[1..] == v.todo[1..] && [] + w.todo[1..] == w.todo[1..];
      }
    }
  }

  lemma {:induction false} WalkStays(g: Graph, a: Id, k: nat, part: iset<Id>)
    requires WellFormed(g) && Closed(g, part) && a in g && a in part
    ensures Stays(g, Walk(g, a, k), part)
  {
    if k > 0 {
      WalkStays(g, a, k - 1, part);
    }
  }

  lemma {:induction false} RunIsWalked(g: Graph, a: Id, b: Id, run: seq<State>, k: nat, left: iset<Id>, right: iset<Id>)
    requires IsRun(g, a, b, run) && k < |run|
    requires Closed(g, left) && Closed(g, right) && a in left && b in right && left !! right
    ensures AgreeUpTo(g, a, b, k) && SideBySide(run[k], Walk(g, a, k), Walk(g, b, k))
  {
    if k == 0 {
      StartIsWalked(a, b);
    } else {
      RunIsWalked(g, a, b, run, k - 1, left, right);
      WalkStays(g, a, k - 1, left);
      WalkStays(g, b, k - 1, right);
      RunStepIsWalked(g, a, b, run, k - 1, Walk(g, a, k - 1), Walk(g, b, k - 1), left, right);
      AgreeOnceMore(g, a, b, k - 1);
    }
  }

  lemma StartIsWalked(a: Id, b: Id)
    ensures SideBySide(Start(a, b), Walker([], [a]), Walker([], [b]))
  {
    assert Zip([], []) == [] && Zip([a], [b]) == [(a, b)];
  }

  lemma AgreeOnceMore(g: Graph, a: Id, b: Id, k: nat)
    requires AgreeUpTo(g, a, b, k) && Agree(g, Walk(g, a, k), Walk(g, b, k))
    ensures AgreeUpTo(g, a, b, k + 1)
  {}

  lemma RunStepIsWalked(g: Graph, a: Id, b: Id, run: seq<State>, k: nat, v: Walker, w: Walker, left: iset<Id>,
      right: iset<Id>)
    requires IsRun(g, a, b, run) && k < |run| - 1 && SideBySide(run[k], v, w) && Apart(g, v, w, left, right)
    ensures Agree(g, v, w) && SideBySide(run[k + 1], Onward(g, v), Onward(g, w))
  {
    assert Follows(g, run, k);
    MoveIsWalked(g, run[k], v, w, left, right);
    StepIsWalked(g, run[k], v, w, left, right);
  }

  /** The verdict is that of the first step at which the walks do not agree. */
  lemma VerdictIsWalked(g: Graph, a: Id, b: Id, left: iset<Id>, right: iset<Id>) returns (k: nat)
    requires WellFormed(g) && a in g && b in g
    requires Closed(g, left) && Closed(g, right) && a in left && b in right && left !! right
    ensures AgreeUpTo(g, a, b, k) && !Agree(g, Walk(g, a, k), Walk(g, b, k))
    ensures VerdictOf(g, a, b) == VerdictAt(Walk(g, a, k), Walk(g, b, k))
    ensures Walk(g, a, k).todo == [] <==> Walk(g, b, k).todo == []
  {
    var run, verdict := RunWithVerdict(g, a, b);
    k := |run| - 1;
    RunIsWalked(g, a, b, run, k, left, right);
    WalkStays(g, a, k, left);
    WalkStays(g, b, k, right);
    MoveIsWalked(g, run[k], Walk(g, a, k), Walk(g, b, k), left, right);
  }

  /** Comparing nodes of disjoint graphs throws exactly when their walks agree up to a step at which they clash. */
  lemma ThrowsIffWalksClash(g: Graph, a: Id, b: Id, left: iset<Id>, right: iset<Id>)
    requires WellFormed(g) && a in g && b in g
    requires Closed(g, left) && Closed(g, right) && a in left && b in right && left !! right
    ensures VerdictOf(g, a, b) == Thrown
            <==> exists k: nat :: Clash(Walk(g, a, k), Walk(g, b, k)) && AgreeUpTo(g, a, b, k)
  {
    var n := VerdictIsWalked(g, a, b, left, right);
    forall k: nat | Clash(Walk(g, a, k), Walk(g, b, k)) && AgreeUpTo(g, a, b, k) ensures k == n {
      assert !Agree(g, Walk(g, a, k), Walk(g, b, k));
    }
  }

  /** Nodes of disjoint graphs are equal exactly when their walks agree until both are done. */
  lemma EqualIffWalksAgree(g: Graph, a: Id, b: Id, left: iset<Id>, right: iset<Id>)
    requires WellFormed(g) && a in g && b in g
    requires Closed(g, left) && Closed(g, right) && a in left && b in right && left !! right
    ensures VerdictOf(g, a, b) == Same <==> exists k: nat :: Walk(g, a, k).todo == [] && AgreeUpTo(g, a, b, k)
  {
    var n := VerdictIsWalked(g, a, b, left, right);
    forall k: nat | Walk(g, a, k).todo == [] && AgreeUpTo(g, a, b, k) ensures k == n {
      assert !Agree(g, Walk(g, a, k), Walk(g, b, k));
    }
  }

  /** A walk that meets no node twice. */
  ghost predicate Unshared(g: Graph, a: Id) {
    forall k: nat :: !Seen(Walk(g, a, k))
  }

  /** Where one of two disjoint graphs shares no node, comparing them does not throw. */
  lemma UnsharedNeverThrows(g: Graph, a: Id, b: Id, left: iset<Id>, right: iset<Id>)
    requires WellFormed(g) && a in g && b in g && (Unshared(g, a) || Unshared(g, b))
    requires Closed(g, left) && Closed(g, right) && a in left && b in right && left !! right
    ensures VerdictOf(g, a, b) != Thrown
  {
    ThrowsIffWalksClash(g, a, b, left, right);
  }
}
