/** Equality of node graphs, cyclic or not, by pairing the nodes in order of appearance. */
module NodeEquality {
  import opened Wrappers

  type Id = nat

  /** `native` is the object a scalar stands for, when its tag has one. */
  datatype Node =
    | Scalar(tag: string, value: string, native: Option<int>)
    | Sequence(tag: string, items: seq<Id>)
    | Mapping(tag: string, entries: seq<Pair>)

  type Graph = map<Id, Node>
  type Pair = (Id, Id)

  /** The children of every node are in the graph. */
  ghost predicate Complete(g: Graph) {
    && (forall id | id in g && g[id].Sequence? :: forall k | 0 <= k < |g[id].items| :: g[id].items[k] in g)
    && forall id | id in g && g[id].Mapping? ::
         forall k | 0 <= k < |g[id].entries| :: g[id].entries[k].0 in g && g[id].entries[k].1 in g
  }

  /** A graph of scalars and sequences. */
  ghost predicate WellFormed(g: Graph) {
    Complete(g) && forall id | id in g :: !g[id].Mapping?
  }

  /** Equality of two different scalars of the same tag. */
  predicate ScalarsEqual(a: Node, b: Node)
    requires a.Scalar? && b.Scalar?
  {
    if a.native.Some? then b.native == a.native
    else a.tag == "!!str" && a.value == b.value
  }

  /** What comparing two nodes demands of the nodes themselves, items aside. */
  predicate HeadsEqual(a: Node, b: Node) {
    && a.tag == b.tag
    && match a
       case Scalar(_, _, _) => b.Scalar? && ScalarsEqual(a, b)
       case Sequence(_, items) => b.Sequence? && a.tag == "!!seq" && |items| == |b.items|
       case Mapping(_, entries) => b.Mapping? && a.tag == "!!map" && |entries| == |b.entries|
  }

  datatype Verdict = Same | Different | Thrown

  /** What the repository says of a pair. */
  datatype Appearance = Fresh | Paired | OneOnly | Crossed

  ghost predicate HasFirst(pairs: seq<Pair>, a: Id) {
    exists i :: 0 <= i < |pairs| && pairs[i].0 == a
  }

  ghost predicate HasSecond(pairs: seq<Pair>, b: Id) {
    exists i :: 0 <= i < |pairs| && pairs[i].1 == b
  }

  ghost function AppearanceOf(pairs: seq<Pair>, a: Id, b: Id): Appearance {
    if (a, b) in pairs then Paired
    else if HasFirst(pairs, a) && HasSecond(pairs, b) then Crossed
    else if HasFirst(pairs, a) || HasSecond(pairs, b) then OneOnly
    else Fresh
  }

  ghost predicate OneToOne(pairs: seq<Pair>) {
    forall i, j | 0 <= i < j < |pairs| :: pairs[i].0 != pairs[j].0 && pairs[i].1 != pairs[j].1
  }

  class ObjectRepository {
    var nodesA: map<Id, nat>
    var nodesB: map<Id, nat>
    var stackA: seq<Id>
    var stackB: seq<Id>
    ghost var pairs: seq<Pair>

    constructor ()
      ensures Valid() && pairs == []
    {
      nodesA, nodesB, stackA, stackB, pairs := map[], map[], [], [], [];
    }

    /** Each dictionary numbers the nodes of its stack from 0 up; the stacks side by side are the pairs. */
    ghost predicate Valid()
      reads this
    {
      && |stackA| == |stackB| == |pairs|
      && (forall i | 0 <= i < |pairs| :: pairs[i] == (stackA[i], stackB[i]))
      && Numbers(nodesA, stackA) && Numbers(nodesB, stackB)
    }

    method AlreadyAppeared(a: Id, b: Id) returns (appearance: Appearance)
      requires Valid()
      modifies this
      ensures Valid()
      ensures appearance == AppearanceOf(old(pairs), a, b)
      ensures pairs == if appearance.Fresh? then old(pairs) + [(a, b)] else old(pairs)
    {
      var ar, br := a in nodesA, b in nodesB;
      assert ar <==> HasFirst(pairs, a) by { if ar { assert pairs[nodesA[a]].0 == a; } }
      assert br <==> HasSecond(pairs, b) by { if br { assert pairs[nodesB[b]].1 == b; } }
      if ar && br && nodesA[a] == nodesB[b] {
        assert pairs[nodesA[a]] == (a, b);
        return Paired;
      }
      assert (a, b) !in pairs;
      if ar != br {
        return OneOnly;
      }
      if ar {
        return Crossed;
      }
      NumbersGrow(nodesA, stackA, a);
      NumbersGrow(nodesB, stackB, b);
      nodesA, nodesB := nodesA[a := |nodesA|], nodesB[b := |nodesB|];
      stackA, stackB, pairs := stackA + [a], stackB + [b], pairs + [(a, b)];
      return Fresh;
    }

    method Pop()
      requires Valid() && stackA != []
      modifies this
      ensures Valid() && pairs == old(pairs)[..|old(pairs)| - 1]
    {
      var last := |stackA| - 1;
      var a, b := stackA[last], stackB[last];
      NumbersShrink(nodesA, stackA);
      NumbersShrink(nodesB, stackB);
      stackA, nodesA := stackA[..last], nodesA - {a};
      stackB, nodesB := stackB[..last], nodesB - {b};
      pairs := pairs[..last];
    }

    /** Forgets the pairs after the first `count`. */
    method Rewind(count: nat)
      requires Valid()
      modifies this
      ensures Valid() && pairs == if count < |old(pairs)| then old(pairs)[..count] else old(pairs)
    {
      while |stackA| > count
        invariant Valid() && pairs <= old(pairs) && (|pairs| < |old(pairs)| ==> |pairs| >= count)
      {
        Pop();
      }
    }
  }

  ghost predicate Numbers(m: map<Id, nat>, stack: seq<Id>) {
    && |m| == |stack|
    && (forall i | 0 <= i < |stack| :: stack[i] in m && m[stack[i]] == i)
    && forall x | x in m :: m[x] < |stack| && stack[m[x]] == x
  }

  lemma NumbersGrow(m: map<Id, nat>, stack: seq<Id>, x: Id)
    requires Numbers(m, stack) && x !in m
    ensures Numbers(m[x := |m|], stack + [x])
  {
  }

  lemma NumbersShrink(m: map<Id, nat>, stack: seq<Id>)
    requires Numbers(m, stack) && stack != []
    ensures Numbers(m - {stack[|stack| - 1]}, stack[..|stack| - 1])
  {
    var x := stack[|stack| - 1];
    assert m == (m - {x})[x := |stack| - 1];
  }

  lemma {:induction false} SubsetSize<T>(a: set<T>, b: set<T>)
    requires a <= b
    ensures |a| <= |b|
  {
    if a != {} {
      var x :| x in a;
      SubsetSize(a - {x}, b - {x});
    }
  }

  ghost function FirstsOf(pairs: seq<Pair>): set<Id> {
    set i | 0 <= i < |pairs| :: pairs[i].0
  }

  /** How many nodes have not been paired as first node yet. */
  ghost function Unpaired(g: Graph, pairs: seq<Pair>): nat {
    |g.Keys - FirstsOf(pairs)|
  }

  lemma UnpairedShrinks(g: Graph, pairs: seq<Pair>, more: seq<Pair>)
    requires pairs <= more
    ensures Unpaired(g, more) <= Unpaired(g, pairs)
  {
    SubsetSize(g.Keys - FirstsOf(more), g.Keys - FirstsOf(pairs));
  }

  lemma UnpairedDrops(g: Graph, pairs: seq<Pair>, a: Id, b: Id)
    requires a in g && !HasFirst(pairs, a)
    ensures Unpaired(g, pairs + [(a, b)]) < Unpaired(g, pairs)
  {
    var more := pairs + [(a, b)];
    assert more[|pairs|].0 == a;
    forall x | x in FirstsOf(pairs) ensures x in FirstsOf(more) {
      var i :| 0 <= i < |pairs| && pairs[i].0 == x;
      assert more[i].0 == x;
    }
    SubsetSize(g.Keys - FirstsOf(more), g.Keys - FirstsOf(pairs) - {a});
    assert a in g.Keys - FirstsOf(pairs);
  }

  /** The pairs of items of two sequences from the k-th on. */
  ghost function ItemPairs(a: seq<Id>, b: seq<Id>, k: nat): (todo: seq<Pair>)
    requires |a| == |b| && k <= |a|
    decreases |a| - k
  {
    if k == |a| then [] else [(a[k], b[k])] + ItemPairs(a, b, k + 1)
  }

  ghost predicate Known(g: Graph, todo: seq<Pair>) {
    forall i | 0 <= i < |todo| :: todo[i].0 in g && todo[i].1 in g
  }

  lemma {:induction false} ItemPairsKnown(g: Graph, a: Id, b: Id, k: nat)
    requires WellFormed(g) && a in g && b in g && g[a].Sequence? && g[b].Sequence?
    requires |g[a].items| == |g[b].items| && k <= |g[a].items|
    ensures Known(g, ItemPairs(g[a].items, g[b].items, k))
    decreases |g[a].items| - k
  {
    if k < |g[a].items| {
      ItemPairsKnown(g, a, b, k + 1);
    }
  }

  /** A state of the comparison: the pairs found, and the pairs still to be compared. */
  datatype State = State(pairs: seq<Pair>, todo: seq<Pair>)

  /** What happens to the first pair to be compared: the comparison ends, or goes on. */
  datatype Move = Stop(verdict: Verdict) | Go

  ghost function MoveAt(g: Graph, s: State): Move
    requires Known(g, s.todo)
  {
    if s.todo == [] then Stop(Same)
    else
      var (a, b) := s.todo[0];
      match AppearanceOf(s.pairs, a, b)
      case Paired => Go
      case OneOnly => Stop(Different)
      case Crossed => Stop(Thrown)
      case Fresh => if a == b || HeadsEqual(g[a], g[b]) then Go else Stop(Different)
  }

  ghost function Step(g: Graph, s: State): (t: State)
    requires WellFormed(g) && Known(g, s.todo) && MoveAt(g, s).Go?
    ensures Known(g, t.todo)
    ensures Unpaired(g, t.pairs) < Unpaired(g, s.pairs) || (t.pairs == s.pairs && |t.todo| < |s.todo|)
  {
    var (a, b), rest := s.todo[0], s.todo[1..];
    if AppearanceOf(s.pairs, a, b).Paired? then State(s.pairs, rest)
    else
      UnpairedDrops(g, s.pairs, a, b);
      var more := s.pairs + [(a, b)];
      if a == b || g[a].Scalar? then State(more, rest)
      else
        ItemPairsKnown(g, a, b, 0);
        State(more, ItemPairs(g[a].items, g[b].items, 0) + rest)
  }

  ghost function Start(a: Id, b: Id): State {
    State([], [(a, b)])
  }

  ghost predicate Follows(g: Graph, run: seq<State>, i: nat)
    requires WellFormed(g) && i < |run| - 1
  {
    Known(g, run[i].todo) && MoveAt(g, run[i]).Go? && run[i + 1] == Step(g, run[i])
  }

  ghost predicate Ends(g: Graph, s: State) {
    Known(g, s.todo) && MoveAt(g, s).Stop?
  }

  ghost predicate IsRun(g: Graph, a: Id, b: Id, run: seq<State>) {
    && WellFormed(g) && a in g && b in g
    && |run| > 0 && run[0] == Start(a, b) && Ends(g, run[|run| - 1])
    && forall i | 0 <= i < |run| - 1 :: Follows(g, run, i)
  }

  ghost function RunFrom(g: Graph, s: State): (run: seq<State>)
    requires WellFormed(g) && Known(g, s.todo)
    ensures run != [] && run[0] == s
    decreases Unpaired(g, s.pairs), |s.todo|
  {
    [s] + if MoveAt(g, s).Stop? then [] else RunFrom(g, Step(g, s))
  }

  lemma {:induction false} RunFromEnds(g: Graph, s: State)
    requires WellFormed(g) && Known(g, s.todo)
    ensures var run := RunFrom(g, s);
            Ends(g, run[|run| - 1]) && forall i | 0 <= i < |run| - 1 :: Follows(g, run, i)
    decreases Unpaired(g, s.pairs), |s.todo|
  {
    if MoveAt(g, s).Go? {
      RunFromEnds(g, Step(g, s));
      OneStepFirst(g, s, RunFrom(g, Step(g, s)));
    }
  }

  lemma OneStepFirst(g: Graph, s: State, rest: seq<State>)
    requires WellFormed(g) && Known(g, s.todo) && MoveAt(g, s).Go? && rest != [] && rest[0] == Step(g, s)
    requires forall i | 0 <= i < |rest| - 1 :: Follows(g, rest, i)
    ensures forall i | 0 <= i < |rest| :: Follows(g, [s] + rest, i)
  {
    forall i | 0 <= i < |rest| ensures Follows(g, [s] + rest, i) {
      if i > 0 {
        assert Follows(g, rest, i - 1);
        FollowsLater(g, s, rest, i - 1);
      }
    }
  }

  lemma FollowsLater(g: Graph, s: State, rest: seq<State>, i: nat)
    requires WellFormed(g) && i < |rest| - 1 && Follows(g, rest, i)
    ensures Follows(g, [s] + rest, i + 1)
  {
    assert ([s] + rest)[i + 1] == rest[i] && ([s] + rest)[i + 2] == rest[i + 1];
  }

  /** The comparison of two nodes; it ends on every graph. */
  ghost function RunOf(g: Graph, a: Id, b: Id): (run: seq<State>)
    requires WellFormed(g) && a in g && b in g
    ensures IsRun(g, a, b, run)
  {
    RunFromEnds(g, Start(a, b));
    RunFrom(g, Start(a, b))
  }

  ghost function VerdictOf(g: Graph, a: Id, b: Id): Verdict
    requires WellFormed(g) && a in g && b in g
  {
    var run := RunOf(g, a, b);
    MoveAt(g, run[|run| - 1]).verdict
  }

  /** The comparison is at `i` if it goes on there, or ends there with the verdict. */
  lemma AtMove(g: Graph, a: Id, b: Id, run: seq<State>, i: nat)
    requires IsRun(g, a, b, run) && i < |run|
    ensures Known(g, run[i].todo)
    ensures MoveAt(g, run[i]).Go? ==> i < |run| - 1 && run[i + 1] == Step(g, run[i])
    ensures MoveAt(g, run[i]).Stop? ==> i == |run| - 1
  {
    if i < |run| - 1 {
      assert Follows(g, run, i);
    }
  }

  /** A run of the comparison of two root nodes, and how far the code has come in it. */
  ghost predicate At(g: Graph, roots: Pair, run: seq<State>, i: nat, pairs: seq<Pair>, todo: seq<Pair>) {
    IsRun(g, roots.0, roots.1, run) && i < |run| && run[i] == State(pairs, todo)
  }

  /** The comparison ends with a verdict. */
  ghost predicate Stopped(g: Graph, run: seq<State>, v: Verdict) {
    run != [] && Ends(g, run[|run| - 1]) && MoveAt(g, run[|run| - 1]) == Stop(v)
  }

  /** The pairs of children to be compared next; none for a node with itself and for scalars. */
  ghost function ChildPairs(g: Graph, a: Id, b: Id): seq<Pair>
    requires a in g && b in g && (a == b || HeadsEqual(g[a], g[b]))
  {
    if a == b || !g[a].Sequence? then [] else ItemPairs(g[a].items, g[b].items, 0)
  }

  /** What happens to two nodes that are next to be compared. */
  lemma NextMove(g: Graph, roots: Pair, run: seq<State>, i: nat, pairs: seq<Pair>, a: Id, b: Id, rest: seq<Pair>)
    requires At(g, roots, run, i, pairs, [(a, b)] + rest)
    ensures a in g && b in g
    ensures match AppearanceOf(pairs, a, b)
            case Paired => At(g, roots, run, i + 1, pairs, rest)
            case OneOnly => Stopped(g, run, Different)
            case Crossed => Stopped(g, run, Thrown)
            case Fresh =>
              if a == b || HeadsEqual(g[a], g[b]) then
                At(g, roots, run, i + 1, pairs + [(a, b)], ChildPairs(g, a, b) + rest)
              else Stopped(g, run, Different)
  {
    AtMove(g, roots.0, roots.1, run, i);
    assert run[i].todo[0] == (a, b) && run[i].todo[1..] == rest && [] + rest == rest;
  }

  /** Compares two nodes with the pairs found so far; `rest` stands for what is to be compared afterwards. */
  method EqualsIn(g: Graph, a: Id, b: Id, repository: ObjectRepository,
      ghost roots: Pair, ghost run: seq<State>, ghost i: nat, ghost rest: seq<Pair>)
    returns (v: Verdict, ghost j: nat)
    requires a in g && b in g && repository.Valid() && At(g, roots, run, i, repository.pairs, [(a, b)] + rest)
    modifies repository
    ensures repository.Valid()
    ensures v.Same? ==> i < j && At(g, roots, run, j, repository.pairs, rest)
    ensures !v.Same? ==> Stopped(g, run, v)
    decreases |run| - i, 0
  {
    NextMove(g, roots, run, i, repository.pairs, a, b, rest);
    assert [] + rest == rest;
    j := i + 1;
    var appearance := repository.AlreadyAppeared(a, b);
    match appearance {
      case Paired => return Same, j;
      case OneOnly => return Different, j;
      case Crossed => return Thrown, j;
      case Fresh =>
    }
    if a == b {
      return Same, j;
    }
    if g[a].Scalar? != g[b].Scalar? || g[a].tag != g[b].tag {
      return Different, j;
    }
    if g[a].Scalar? {
      v := if ScalarsEqual(g[a], g[b]) then Same else Different;
      return;
    }
    if g[a].tag != "!!seq" || |g[a].items| != |g[b].items| {
      return Different, j;
    }
    v, j := ItemsEqual(g, a, b, repository, roots, run, j, rest);
  }

  method ItemsEqual(g: Graph, a: Id, b: Id, repository: ObjectRepository,
      ghost roots: Pair, ghost run: seq<State>, ghost i: nat, ghost rest: seq<Pair>)
    returns (v: Verdict, ghost j: nat)
    requires a in g && b in g && g[a].Sequence? && g[b].Sequence? && |g[a].items| == |g[b].items|
    requires repository.Valid()
    requires At(g, roots, run, i, repository.pairs, ItemPairs(g[a].items, g[b].items, 0) + rest)
    modifies repository
    ensures repository.Valid()
    ensures v.Same? ==> i <= j && At(g, roots, run, j, repository.pairs, rest)
    ensures !v.Same? ==> Stopped(g, run, v)
    decreases |run| - i, 1
  {
    j := i;
    for k := 0 to |g[a].items|
      invariant repository.Valid() && i <= j
      invariant At(g, roots, run, j, repository.pairs, ItemPairs(g[a].items, g[b].items, k) + rest)
    {
      ghost var later := ItemPairs(g[a].items, g[b].items, k + 1) + rest;
      assert ItemPairs(g[a].items, g[b].items, k) + rest == [(g[a].items[k], g[b].items[k])] + later;
      v, j := EqualsIn(g, g[a].items[k], g[b].items[k], repository, roots, run, j, later);
      if !v.Same? {
        return;
      }
    }
    v := Same;
  }

  method Equals(g: Graph, a: Id, b: Id) returns (v: Verdict)
    requires WellFormed(g) && a in g && b in g
    ensures v == VerdictOf(g, a, b)
  {
    var repository := new ObjectRepository();
    ghost var run, verdict := RunWithVerdict(g, a, b);
    v := EqualsAtStart(g, a, b, repository, run);
  }

  method EqualsAtStart(g: Graph, a: Id, b: Id, repository: ObjectRepository, ghost run: seq<State>) returns (v: Verdict)
    requires IsRun(g, a, b, run) && repository.Valid() && repository.pairs == []
    modifies repository
    ensures MoveAt(g, run[|run| - 1]) == Stop(v)
  {
    assert [(a, b)] + [] == [(a, b)];
    ghost var j;
    v, j := EqualsIn(g, a, b, repository, (a, b), run, 0, []);
    if v.Same? {
      AtMove(g, a, b, run, j);
    }
  }

  lemma RunWithVerdict(g: Graph, a: Id, b: Id) returns (run: seq<State>, v: Verdict)
    requires WellFormed(g) && a in g && b in g
    ensures IsRun(g, a, b, run) && v == VerdictOf(g, a, b) && MoveAt(g, run[|run| - 1]) == Stop(v)
  {
    run, v := RunOf(g, a, b), VerdictOf(g, a, b);
  }

  /** Two nodes that may be paired: the same node, or nodes alike whose items are paired in turn. */
  ghost predicate Matches(g: Graph, p: Pair, relation: iset<Pair>) {
    && p.0 in g && p.1 in g
    && (p.0 == p.1 || (HeadsEqual(g[p.0], g[p.1]) && ItemsIn(g[p.0], g[p.1], relation)))
  }

  ghost predicate ItemsIn(a: Node, b: Node, relation: iset<Pair>)
    requires HeadsEqual(a, b)
  {
    a.Sequence? ==> forall k | 0 <= k < |a.items| :: (a.items[k], b.items[k]) in relation
  }

  /** A one-to-one pairing of nodes in which every pair matches. */
  ghost predicate Pairing(g: Graph, relation: iset<Pair>) {
    && (forall p, q | p in relation && q in relation :: p.0 == q.0 <==> p.1 == q.1)
    && forall p | p in relation :: Matches(g, p, relation)
  }

  ghost function SetOf(pairs: seq<Pair>): iset<Pair> {
    iset p | p in pairs
  }

  /** Every pair found matches, counting those still to be compared. */
  ghost predicate Supported(g: Graph, s: State) {
    OneToOne(s.pairs) && forall i | 0 <= i < |s.pairs| :: Matches(g, s.pairs[i], SetOf(s.pairs) + SetOf(s.todo))
  }

  lemma {:induction false} ItemPairsAt(a: seq<Id>, b: seq<Id>, k: nat, j: nat)
    requires |a| == |b| && k <= j < |a|
    ensures (a[j], b[j]) in ItemPairs(a, b, k)
    decreases j - k
  {
    if k < j {
      ItemPairsAt(a, b, k + 1, j);
    }
  }

  lemma MatchesGrows(g: Graph, p: Pair, small: iset<Pair>, large: iset<Pair>)
    requires small <= large && Matches(g, p, small)
    ensures Matches(g, p, large)
  {
  }

  /** A step drops no pair: the first pair to be compared is found, and others stay to be compared. */
  lemma StepDropsNone(g: Graph, s: State)
    requires WellFormed(g) && Known(g, s.todo) && MoveAt(g, s).Go?
    ensures var t := Step(g, s); SetOf(s.pairs) + SetOf(s.todo) <= SetOf(t.pairs) + SetOf(t.todo)
  {
    var t, p := Step(g, s), s.todo[0];
    forall q | q in s.pairs || q in s.todo ensures q in t.pairs || q in t.todo {
      if q in s.pairs {
        assert q in t.pairs;
      } else if q == p {
        assert t.pairs[|s.pairs|] == p;
      } else {
        assert q in s.todo[1..];
      }
    }
  }

  lemma StepAddsItems(g: Graph, s: State)
    requires WellFormed(g) && Known(g, s.todo) && MoveAt(g, s).Go?
    ensures var t, p := Step(g, s), s.todo[0];
            t.pairs != s.pairs ==> Matches(g, p, SetOf(t.pairs) + SetOf(t.todo))
  {
    var t, p := Step(g, s), s.todo[0];
    if t.pairs != s.pairs && p.0 != p.1 && g[p.0].Sequence? {
      forall k | 0 <= k < |g[p.0].items| ensures (g[p.0].items[k], g[p.1].items[k]) in SetOf(t.todo) {
        ItemPairsAt(g[p.0].items, g[p.1].items, 0, k);
        assert (g[p.0].items[k], g[p.1].items[k]) in t.todo;
      }
    }
  }

  lemma StepStaysOneToOne(g: Graph, s: State)
    requires WellFormed(g) && Known(g, s.todo) && MoveAt(g, s).Go? && OneToOne(s.pairs)
    ensures OneToOne(Step(g, s).pairs)
  {
    var p := s.todo[0];
    if Step(g, s).pairs != s.pairs {
      assert !HasFirst(s.pairs, p.0) && !HasSecond(s.pairs, p.1);
    }
  }

  lemma MatchesAll(g: Graph, pairs: seq<Pair>, more: seq<Pair>, small: iset<Pair>, large: iset<Pair>)
    requires forall i | 0 <= i < |pairs| :: Matches(g, pairs[i], small)
    requires more == pairs || (|more| == |pairs| + 1 && pairs <= more && Matches(g, more[|pairs|], large))
    requires small <= large
    ensures forall i | 0 <= i < |more| :: Matches(g, more[i], large)
  {
    forall i | 0 <= i < |more| ensures Matches(g, more[i], large) {
      if i < |pairs| {
        MatchesGrows(g, pairs[i], small, large);
      }
    }
  }

  lemma StepSupports(g: Graph, s: State)
    requires WellFormed(g) && Known(g, s.todo) && MoveAt(g, s).Go? && Supported(g, s)
    ensures Supported(g, Step(g, s))
  {
    var t := Step(g, s);
    StepDropsNone(g, s);
    StepAddsItems(g, s);
    StepStaysOneToOne(g, s);
    MatchesAll(g, s.pairs, t.pairs, SetOf(s.pairs) + SetOf(s.todo), SetOf(t.pairs) + SetOf(t.todo));
  }

  lemma {:induction false} RunSupports(g: Graph, a: Id, b: Id, run: seq<State>, i: nat)
    requires IsRun(g, a, b, run) && i < |run|
    ensures Supported(g, run[i]) && (a, b) in SetOf(run[i].pairs) + SetOf(run[i].todo)
  {
    if i > 0 {
      RunSupports(g, a, b, run, i - 1);
      assert Follows(g, run, i - 1);
      StepSupports(g, run[i - 1]);
      StepDropsNone(g, run[i - 1]);
    }
  }

  /** Pairs that are part of a pairing are never refused. */
  lemma NeverRefused(g: Graph, s: State, relation: iset<Pair>)
    requires WellFormed(g) && Known(g, s.todo) && s.todo != []
    requires Pairing(g, relation) && SetOf(s.pairs) <= relation && SetOf(s.todo) <= relation
    ensures MoveAt(g, s).Go? && SetOf(Step(g, s).pairs) <= relation && SetOf(Step(g, s).todo) <= relation
  {
    var p := s.todo[0];
    assert p in relation && Matches(g, p, relation);
    if HasFirst(s.pairs, p.0) {
      var i :| 0 <= i < |s.pairs| && s.pairs[i].0 == p.0;
      assert s.pairs[i] in SetOf(s.pairs);
    }
    if HasSecond(s.pairs, p.1) {
      var i :| 0 <= i < |s.pairs| && s.pairs[i].1 == p.1;
      assert s.pairs[i] in SetOf(s.pairs);
    }
    var t := Step(g, s);
    forall q | q in t.todo ensures q in relation {
      if q !in s.todo {
        ItemPairsFrom(g[p.0].items, g[p.1].items, 0, q);
      }
    }
  }

  lemma {:induction false} ItemPairsFrom(a: seq<Id>, b: seq<Id>, k: nat, p: Pair)
    requires |a| == |b| && k <= |a| && p in ItemPairs(a, b, k)
    ensures exists j :: k <= j < |a| && p == (a[j], b[j])
    decreases |a| - k
  {
    if p != (a[k], b[k]) {
      ItemPairsFrom(a, b, k + 1, p);
    }
  }

  lemma {:induction false} RunStaysInPairing(g: Graph, a: Id, b: Id, run: seq<State>, i: nat, relation: iset<Pair>)
    requires IsRun(g, a, b, run) && i < |run|
    requires Pairing(g, relation) && (a, b) in relation
    ensures SetOf(run[i].pairs) <= relation && SetOf(run[i].todo) <= relation
  {
    if i > 0 {
      RunStaysInPairing(g, a, b, run, i - 1, relation);
      assert Follows(g, run, i - 1);
      NeverRefused(g, run[i - 1], relation);
    }
  }

  /** Equal nodes are exactly those a pairing relates. */
  lemma EqualIffPaired(g: Graph, a: Id, b: Id)
    requires WellFormed(g) && a in g && b in g
    ensures VerdictOf(g, a, b).Same? <==> exists relation :: Pairing(g, relation) && (a, b) in relation
  {
    var run := RunOf(g, a, b);
    var last := run[|run| - 1];
    if VerdictOf(g, a, b).Same? {
      RunSupports(g, a, b, run, |run| - 1);
      FoundIsPairing(g, last);
      assert Pairing(g, SetOf(last.pairs)) && (a, b) in SetOf(last.pairs);
    }
    forall relation | Pairing(g, relation) && (a, b) in relation ensures VerdictOf(g, a, b).Same? {
      RunStaysInPairing(g, a, b, run, |run| - 1, relation);
      if last.todo != [] {
        NeverRefused(g, last, relation);
      }
    }
  }

  lemma FoundIsPairing(g: Graph, s: State)
    requires Supported(g, s) && s.todo == []
    ensures Pairing(g, SetOf(s.pairs))
  {
    assert SetOf(s.pairs) + SetOf(s.todo) == SetOf(s.pairs);
    forall p, q | p in s.pairs && q in s.pairs ensures p.0 == q.0 <==> p.1 == q.1 {
      var i :| 0 <= i < |s.pairs| && s.pairs[i] == p;
      var j :| 0 <= j < |s.pairs| && s.pairs[j] == q;
    }
  }

  /** A set of nodes that holds the items of its sequences. */
  ghost predicate Closed(g: Graph, s: iset<Id>) {
    forall id | id in s && id in g && g[id].Sequence? :: forall k | 0 <= k < |g[id].items| :: g[id].items[k] in s
  }

  /** Between two disjoint graphs no node is paired with itself. */
  ghost predicate StrictPairing(g: Graph, relation: iset<Pair>) {
    Pairing(g, relation) && forall p | p in relation :: p.0 != p.1
  }

  /** Nodes of disjoint graphs are equal exactly when the graphs below them are isomorphic. */
  lemma EqualIffIsomorphic(g: Graph, a: Id, b: Id, left: iset<Id>, right: iset<Id>)
    requires WellFormed(g) && a in g && b in g
    requires Closed(g, left) && Closed(g, right) && a in left && b in right && left !! right
    ensures VerdictOf(g, a, b).Same? <==> exists relation :: StrictPairing(g, relation) && (a, b) in relation
  {
    EqualIffPaired(g, a, b);
    forall relation | Pairing(g, relation) && (a, b) in relation
      ensures exists strict :: StrictPairing(g, strict) && (a, b) in strict
    {
      var strict: iset<Pair> := iset p: Pair | p in relation && p.0 in left && p.1 in right;
      forall p | p in strict ensures Matches(g, p, strict) {
        assert Matches(g, p, relation);
      }
      assert StrictPairing(g, strict) && (a, b) in strict;
    }
  }

  /** A node is equal to itself. */
  lemma EqualIsReflexive(g: Graph, a: Id)
    requires WellFormed(g) && a in g
    ensures VerdictOf(g, a, a).Same?
  {
    EqualIffPaired(g, a, a);
    assert Pairing(g, iset{(a, a)});
  }

  /** The native object of a scalar depends on its tag and value alone. */
  ghost predicate NativesDecoded(g: Graph) {
    forall x, y | x in g && y in g && g[x].Scalar? && g[y].Scalar? && g[x].tag == g[y].tag
        && g[x].value == g[y].value ::
      g[x].native == g[y].native
  }

  /** Equality does not depend on which node is asked. */
  lemma EqualIsSymmetric(g: Graph, a: Id, b: Id)
    requires WellFormed(g) && a in g && b in g && NativesDecoded(g)
    ensures VerdictOf(g, a, b).Same? ==> VerdictOf(g, b, a).Same?
  {
    EqualIffPaired(g, a, b);
    EqualIffPaired(g, b, a);
    forall relation | Pairing(g, relation) && (a, b) in relation
      ensures exists inverse :: Pairing(g, inverse) && (b, a) in inverse
    {
      var inverse: iset<Pair> := iset p: Pair | (p.1, p.0) in relation;
      forall p | p in inverse ensures Matches(g, p, inverse) {
        assert Matches(g, (p.1, p.0), relation);
      }
      assert Pairing(g, inverse) && (b, a) in inverse;
    }
  }

  ghost predicate Linked(first: iset<Pair>, second: iset<Pair>, p: Pair, middle: Id) {
    (p.0, middle) in first && (middle, p.1) in second
  }

  /** Pairs linked by a node in the middle; the pairs of three disjoint graphs. */
  ghost predicate InBoth(first: iset<Pair>, second: iset<Pair>, p: Pair) {
    exists middle :: Linked(first, second, p, middle)
  }

  lemma LinkedMatches(g: Graph, first: iset<Pair>, second: iset<Pair>, p: Pair, middle: Id, both: iset<Pair>)
    requires NativesDecoded(g) && StrictPairing(g, first) && StrictPairing(g, second)
             && Linked(first, second, p, middle)
    requires forall q :: InBoth(first, second, q) ==> q in both
    ensures Matches(g, p, both)
  {
    var a, b, c := g[p.0], g[middle], g[p.1];
    assert Matches(g, (p.0, middle), first) && Matches(g, (middle, p.1), second);
    if a.Sequence? {
      forall k | 0 <= k < |a.items| ensures (a.items[k], c.items[k]) in both {
        assert Linked(first, second, (a.items[k], c.items[k]), b.items[k]);
        assert InBoth(first, second, (a.items[k], c.items[k]));
      }
    }
  }

  /** Equality of nodes of three disjoint graphs is transitive. */
  lemma EqualIsTransitive(g: Graph, a: Id, b: Id, c: Id, left: iset<Id>, middle: iset<Id>, right: iset<Id>)
    requires WellFormed(g) && a in left && a in g && b in middle && b in g && c in right && c in g && NativesDecoded(g)
    requires Closed(g, left) && Closed(g, middle) && Closed(g, right)
    requires left !! middle && middle !! right && left !! right
    requires VerdictOf(g, a, b).Same? && VerdictOf(g, b, c).Same?
    ensures VerdictOf(g, a, c).Same?
  {
    EqualIffIsomorphic(g, a, b, left, middle);
    EqualIffIsomorphic(g, b, c, middle, right);
    var first :| StrictPairing(g, first) && (a, b) in first;
    var second :| StrictPairing(g, second) && (b, c) in second;
    var both: iset<Pair> := iset p: Pair | InBoth(first, second, p);
    assert Linked(first, second, (a, c), b) && InBoth(first, second, (a, c));
    forall p | p in both ensures Matches(g, p, both) {
      var m: Id :| Linked(first, second, p, m);
      LinkedMatches(g, first, second, p, m, both);
    }
    LinkedOneToOne(first, second);
    assert Pairing(g, both) && (a, c) in both;
    EqualIffPaired(g, a, c);
  }

  lemma LinkedOneToOne(first: iset<Pair>, second: iset<Pair>)
    requires forall p, q | p in first && q in first :: p.0 == q.0 <==> p.1 == q.1
    requires forall p, q | p in second && q in second :: p.0 == q.0 <==> p.1 == q.1
    ensures forall p, q | InBoth(first, second, p) && InBoth(first, second, q) :: p.0 == q.0 <==> p.1 == q.1
  {
    forall p, q | InBoth(first, second, p) && InBoth(first, second, q) ensures p.0 == q.0 <==> p.1 == q.1 {
      var m: Id :| Linked(first, second, p, m);
      var n: Id :| Linked(first, second, q, n);
      assert (p.0, m) in first && (q.0, n) in first && (m, p.1) in second && (n, q.1) in second;
    }
  }

  /** Graphs that differ only in sharing can make the comparison throw instead of answering no. */
  lemma CrossedPairThrows(g: Graph, a: Id, b: Id, x: Id, y: Id, p: Id, q: Id)
    requires WellFormed(g) && a in g && b in g && x in g && y in g && p in g && q in g
    requires a != x && a != y && x != y && b != p && b != q && p != q && a != b && x != p && y != q
    requires g[a] == Sequence("!!seq", [x, y, x]) && g[b] == Sequence("!!seq", [p, q, q])
    requires g[x].Scalar? && g[y].Scalar? && HeadsEqual(g[x], g[p]) && HeadsEqual(g[y], g[q])
    ensures VerdictOf(g, a, b) == Thrown
  {
    var run, v := RunWithVerdict(g, a, b);
    ItemPairsThree(g[a].items, g[b].items);
    SequenceStep(g, a, b, run);
    ScalarStep(g, a, b, run, 1, [(a, b)], x, p, [(y, q), (x, q)]);
    assert [(a, b)] + [(x, p)] == [(a, b), (x, p)];
    ScalarStep(g, a, b, run, 2, [(a, b), (x, p)], y, q, [(x, q)]);
    assert [(a, b), (x, p)] + [(y, q)] == [(a, b), (x, p), (y, q)];
    CrossedStep(g, a, b, run, 3, [(a, b), (x, p), (y, q)], x, q, 1, 2);
  }

  lemma CrossedStep(g: Graph, a: Id, b: Id, run: seq<State>, i: nat, pairs: seq<Pair>, x: Id, q: Id, j: nat, k: nat)
    requires IsRun(g, a, b, run) && i < |run| && run[i] == State(pairs, [(x, q)])
    requires j < |pairs| && k < |pairs| && pairs[j].0 == x && pairs[k].1 == q && (x, q) !in pairs
    ensures i == |run| - 1 && MoveAt(g, run[i]) == Stop(Thrown)
  {
    AtMove(g, a, b, run, i);
  }

  lemma SequenceStep(g: Graph, a: Id, b: Id, run: seq<State>)
    requires IsRun(g, a, b, run) && a != b && HeadsEqual(g[a], g[b]) && g[a].Sequence?
    ensures |run| > 1 && run[1] == State([(a, b)], ItemPairs(g[a].items, g[b].items, 0) + [])
  {
    AtMove(g, a, b, run, 0);
    assert !HasFirst([], a) && !HasSecond([], b);
  }

  lemma ScalarStep(g: Graph, a: Id, b: Id, run: seq<State>, i: nat, pairs: seq<Pair>, x: Id, p: Id, rest: seq<Pair>)
    requires IsRun(g, a, b, run) && i < |run| && run[i] == State(pairs, [(x, p)] + rest)
    requires x in g && p in g && g[x].Scalar? && HeadsEqual(g[x], g[p]) && x != p
    requires !HasFirst(pairs, x) && !HasSecond(pairs, p)
    ensures i < |run| - 1 && run[i + 1] == State(pairs + [(x, p)], rest)
  {
    AtMove(g, a, b, run, i);
    assert run[i].todo[0] == (x, p) && run[i].todo[1..] == rest;
  }

  lemma ItemPairsThree(a: seq<Id>, b: seq<Id>)
    requires |a| == |b| == 3
    ensures ItemPairs(a, b, 0) + [] == [(a[0], b[0]), (a[1], b[1]), (a[2], b[2])]
  {
    assert ItemPairs(a, b, 1) == [(a[1], b[1])] + ItemPairs(a, b, 2);
    assert ItemPairs(a, b, 2) == [(a[2], b[2])] + ItemPairs(a, b, 3);
  }
}
