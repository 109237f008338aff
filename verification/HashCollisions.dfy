/** What the comparison of mappings does when two keys of one mapping have the same hash code. */
module HashCollisions {
  import opened Wrappers
  import opened NodeEquality
  import opened NodeHash
  import opened MappingEquality
  import opened MappingPairing

  ghost predicate Leaves(g: Graph, x: Id, y: Id) {
    x in g && y in g && HeadsEqual(g[x], g[y]) && (g[x].Scalar? || g[x] == Sequence("!!seq", []))
  }

  lemma FreshLeavesSame(g: Graph, x: Id, y: Id, pairs: seq<Pair>, h: Hashes)
    requires Complete(g) && Leaves(g, x, y) && !HasFirst(pairs, x) && !HasSecond(pairs, y)
    ensures Compare(g, x, y, pairs, h) == Outcome(Same, pairs + [(x, y)])
  {}

  /** Nodes that have been paired, or one of them with another node. */
  lemma SeenLeaves(g: Graph, x: Id, y: Id, pairs: seq<Pair>, h: Hashes)
    requires Complete(g) && x in g && y in g && (HasFirst(pairs, x) || HasSecond(pairs, y))
    ensures (x, y) in pairs ==> Compare(g, x, y, pairs, h) == Outcome(Same, pairs)
    ensures (x, y) !in pairs ==>
      Compare(g, x, y, pairs, h)
      == Outcome(if HasFirst(pairs, x) && HasSecond(pairs, y) then Thrown else Different, pairs)
  {}

  /** An entry whose key and value are new leaves, when its partner is the first entry with the hash code of its key. */
  lemma FreshEntrySame(g: Graph, e: Pair, b: seq<Pair>, j: nat, base: seq<Pair>, pairs: seq<Pair>, h: Hashes)
    requires Complete(g) && e.0 in g && e.1 in g && EntriesIn(g, b) && base <= pairs && j < |b|
    requires FindKey(g, e.0, b, 0, base, pairs, h) == FindKey(g, e.0, b, j, base, pairs, h)
    requires HashOf(g, b[j].0, h) == HashOf(g, e.0, h) && Leaves(g, e.0, b[j].0) && Leaves(g, e.1, b[j].1)
    requires e.0 != e.1 && b[j].0 != b[j].1
    requires !HasFirst(pairs, e.0) && !HasSecond(pairs, b[j].0) && !HasFirst(pairs, e.1) && !HasSecond(pairs, b[j].1)
    ensures CompareEntry(g, e, b, base, pairs, h) == Outcome(Same, pairs + [(e.0, b[j].0), (e.1, b[j].1)])
  {
    FindKeyStep(g, e.0, b, j, base, pairs, h);
    FreshLeavesSame(g, e.0, b[j].0, pairs, h);
    var more := pairs + [(e.0, b[j].0)];
    FreshLeavesSame(g, e.1, b[j].1, more, h);
    assert more + [(e.1, b[j].1)] == pairs + [(e.0, b[j].0), (e.1, b[j].1)];
  }

  /** The comparison of two mappings with two entries comes down to that of the second entry. */
  lemma TwoEntries(g: Graph, a: Id, b: Id, pairs: seq<Pair>, h: Hashes)
    requires Complete(g) && a in g && b in g && a != b && g[a].Mapping? && HeadsEqual(g[a], g[b])
    requires |g[a].entries| == 2 && [(a, b)] <= pairs
    requires CompareEntry(g, g[a].entries[0], g[b].entries, [(a, b)], [(a, b)], h) == Outcome(Same, pairs)
    ensures Compare(g, a, b, [], h).v == CompareEntry(g, g[a].entries[1], g[b].entries, [(a, b)], pairs, h).v
  {
    var x, y, base := g[a].entries, g[b].entries, [(a, b)];
    assert AppearanceOf([], a, b).Fresh? && [] + [(a, b)] == base;
    assert CompareEntries(g, x, y, 0, base, base, h) == CompareEntries(g, x, y, 1, base, pairs, h);
    var r := CompareEntry(g, x[1], y, base, pairs, h);
    assert CompareEntries(g, x, y, 2, base, r.pairs, h) == Outcome(Same, r.pairs);
  }

  /** Two mappings with the same keys, one with the same sequence for both keys, the other with two sequences. */
  ghost predicate SharedAndNot(g: Graph, a: Id, b: Id, k1: Id, k2: Id, s: Id, p1: Id, p2: Id, t1: Id, t2: Id) {
    && a in g && b in g && k1 in g && k2 in g && s in g && p1 in g && p2 in g && t1 in g && t2 in g
    && g[a] == Mapping("!!map", [(k1, s), (k2, s)]) && g[b] == Mapping("!!map", [(p1, t1), (p2, t2)])
    && g[k1].Scalar? && g[k2].Scalar? && HeadsEqual(g[k1], g[p1]) && HeadsEqual(g[k2], g[p2])
    && g[s] == g[t1] == g[t2] == Sequence("!!seq", [])
    && a != b && k1 != k2 && p1 != p2 && t1 != t2
  }

  /** They cannot be paired. */
  lemma SharedIsNotPaired(g: Graph, a: Id, b: Id, k1: Id, k2: Id, s: Id, p1: Id, p2: Id, t1: Id, t2: Id,
      relation: iset<Pair>)
    requires SharedAndNot(g, a, b, k1, k2, s, p1, p2, t1, t2) && GraphPairing(g, relation)
    ensures (a, b) !in relation
  {
    var x, y := g[a].entries, g[b].entries;
    if (a, b) in relation {
      assert Fits(g, (a, b), relation) && HasPartner(x[0], y, relation);
      NoPartnerLeft(x[0], x[1], y, PartnerOf(x[0], y, relation), relation);
    }
  }

  /** When one entry has a partner, another with the same value has none if the values there are different. */
  lemma NoPartnerLeft(e: Pair, f: Pair, b: seq<Pair>, i: nat, relation: iset<Pair>)
    requires forall p, q | p in relation && q in relation :: p.0 == q.0 <==> p.1 == q.1
    requires EntryPaired(e, b, i, relation) && e.0 != f.0 && e.1 == f.1
    requires forall j, k | 0 <= j < k < |b| :: b[j].1 != b[k].1
    ensures !HasPartner(f, b, relation)
  {
    forall j: nat ensures !EntryPaired(f, b, j, relation) {}
  }

  /**
   * The difference in sharing is overlooked exactly when the two keys have the same hash: trying the wrong key first
   * makes the comparison forget the values that it has paired.
   */
  lemma StaleRewindOverlooksSharing(g: Graph, a: Id, b: Id, k1: Id, k2: Id, s: Id, p1: Id, p2: Id, t1: Id, t2: Id,
      h: Hashes)
    requires Complete(g) && NativesDecoded(g) && SharedAndNot(g, a, b, k1, k2, s, p1, p2, t1, t2)
    ensures Compare(g, a, b, [], h).v == if HashOf(g, k1, h) == HashOf(g, k2, h) then Same else Different
  {
    var x, y, pairs := g[a].entries, g[b].entries, [(a, b), (k1, p1), (s, t1)];
    AlikeScalarsHashAlike(g, k1, p1, h);
    AlikeScalarsHashAlike(g, k2, p2, h);
    FreshEntrySame(g, x[0], y, 0, [(a, b)], [(a, b)], h);
    assert [(a, b)] + [(k1, p1), (s, t1)] == pairs;
    TwoEntries(g, a, b, pairs, h);
    FindKeyStep(g, k2, y, 0, [(a, b)], pairs, h);
    if HashOf(g, k1, h) == HashOf(g, k2, h) {
      SameHashForgets(g, a, b, k1, k2, s, p1, p2, t1, t2, h);
    } else {
      OtherHashRemembers(g, a, b, k1, k2, s, p1, p2, t1, t2, h);
    }
  }

  lemma SameHashForgets(g: Graph, a: Id, b: Id, k1: Id, k2: Id, s: Id, p1: Id, p2: Id, t1: Id, t2: Id, h: Hashes)
    requires Complete(g) && SharedAndNot(g, a, b, k1, k2, s, p1, p2, t1, t2)
    requires HashOf(g, p1, h) == HashOf(g, k2, h) == HashOf(g, p2, h)
    ensures CompareEntry(g, (k2, s), g[b].entries, [(a, b)], [(a, b), (k1, p1), (s, t1)], h).v.Same?
  {
    var y, base, pairs := g[b].entries, [(a, b)], [(a, b), (k1, p1), (s, t1)];
    assert pairs[1].1 == p1;
    SeenLeaves(g, k2, p1, pairs, h);
    FindKeyStep(g, k2, y, 0, base, pairs, h);
    FindKeyStep(g, k2, y, 1, base, base, h);
    FreshLeavesSame(g, k2, p2, base, h);
    FreshLeavesSame(g, s, t2, base + [(k2, p2)], h);
  }

  lemma OtherHashRemembers(g: Graph, a: Id, b: Id, k1: Id, k2: Id, s: Id, p1: Id, p2: Id, t1: Id, t2: Id, h: Hashes)
    requires Complete(g) && SharedAndNot(g, a, b, k1, k2, s, p1, p2, t1, t2)
    requires HashOf(g, p1, h) != HashOf(g, k2, h) == HashOf(g, p2, h)
    ensures CompareEntry(g, (k2, s), g[b].entries, [(a, b)], [(a, b), (k1, p1), (s, t1)], h).v.Different?
  {
    var y, base, pairs := g[b].entries, [(a, b)], [(a, b), (k1, p1), (s, t1)];
    FindKeyStep(g, k2, y, 0, base, pairs, h);
    FindKeyStep(g, k2, y, 1, base, pairs, h);
    FreshLeavesSame(g, k2, p2, pairs, h);
    var more := pairs + [(k2, p2)];
    assert more[2].0 == s;
    SeenLeaves(g, s, t2, more, h);
  }

  /** The integer and the boolean are the only scalars, and each is what its text says. */
  ghost predicate OnesAndTrues(g: Graph, one: int, yes: int) {
    forall x | x in g && g[x].Scalar? ::
      g[x] == Scalar("!!int", "1", Some(one)) || g[x] == Scalar("!!bool", "true", Some(yes))
  }

  lemma OnesAndTruesDecoded(g: Graph, one: int, yes: int)
    requires OnesAndTrues(g, one, yes)
    ensures NativesDecoded(g)
  {
    assert "!!int" != "!!bool";
  }

  /** The graph of `{1: &A [], true: *A}`, from 0, and `{1: [], true: []}`, from 4. */
  ghost predicate StaleGraph(g: Graph, one: int, yes: int) {
    && g.Keys == {0, 1, 2, 3, 4, 5, 6, 7, 8}
    && g[0] == Mapping("!!map", [(1, 3), (2, 3)]) && g[4] == Mapping("!!map", [(5, 7), (6, 8)])
    && g[1] == g[5] == Scalar("!!int", "1", Some(one)) && g[2] == g[6] == Scalar("!!bool", "true", Some(yes))
    && g[3] == g[7] == g[8] == Sequence("!!seq", [])
  }

  /**
   * They are found equal where the integer and the boolean have the same hash code, as they have in .NET, though they
   * cannot be paired.
   */
  lemma StaleRewindExample(g: Graph, h: Hashes, one: int, yes: int)
    requires StaleGraph(g, one, yes) && one != yes && h.ofNative(one) == h.ofNative(yes)
    ensures Complete(g) && Compare(g, 0, 4, [], h).v.Same?
    ensures !exists relation :: GraphPairing(g, relation) && (0, 4) in relation
  {
    assert OnesAndTrues(g, one, yes);
    OnesAndTruesDecoded(g, one, yes);
    StaleRewindOverlooksSharing(g, 0, 4, 1, 2, 3, 5, 6, 7, 8, h);
    forall relation | GraphPairing(g, relation) ensures (0, 4) !in relation {
      SharedIsNotPaired(g, 0, 4, 1, 2, 3, 5, 6, 7, 8, relation);
    }
  }

  /** Two mappings with two keys that are the values too, crosswise. */
  ghost predicate Crosswise(g: Graph, a: Id, b: Id, k1: Id, k2: Id, p1: Id, p2: Id) {
    && a in g && b in g && k1 in g && k2 in g && p1 in g && p2 in g
    && g[a] == Mapping("!!map", [(k1, k2), (k2, k1)]) && g[b] == Mapping("!!map", [(p1, p2), (p2, p1)])
    && g[k1].Scalar? && g[k2].Scalar? && HeadsEqual(g[k1], g[p1]) && HeadsEqual(g[k2], g[p2])
    && a != b && k1 != k2 && p1 != p2
  }

  lemma CrosswiseIsPaired(g: Graph, a: Id, b: Id, k1: Id, k2: Id, p1: Id, p2: Id)
    requires Crosswise(g, a, b, k1, k2, p1, p2)
    ensures GraphPairing(g, iset{(a, b), (k1, p1), (k2, p2)})
  {
    var relation := iset{(a, b), (k1, p1), (k2, p2)};
    var x, y := g[a].entries, g[b].entries;
    assert EntryPaired(x[0], y, 0, relation) && EntryPaired(x[1], y, 1, relation);
  }

  /** The comparison throws exactly when the two keys have the same hash code, though the mappings can be paired. */
  lemma SharedKeysThrow(g: Graph, a: Id, b: Id, k1: Id, k2: Id, p1: Id, p2: Id, h: Hashes)
    requires Complete(g) && NativesDecoded(g) && Crosswise(g, a, b, k1, k2, p1, p2)
    ensures Compare(g, a, b, [], h).v == if HashOf(g, k1, h) == HashOf(g, k2, h) then Thrown else Same
  {
    var x, y, base, pairs := g[a].entries, g[b].entries, [(a, b)], [(a, b), (k1, p1), (k2, p2)];
    AlikeScalarsHashAlike(g, k1, p1, h);
    AlikeScalarsHashAlike(g, k2, p2, h);
    FreshEntrySame(g, x[0], y, 0, base, base, h);
    assert base + [(k1, p1), (k2, p2)] == pairs;
    TwoEntries(g, a, b, pairs, h);
    assert pairs[1] == (k1, p1) && pairs[2] == (k2, p2);
    SeenLeaves(g, k2, p1, pairs, h);
    SeenLeaves(g, k2, p2, pairs, h);
    SeenLeaves(g, k1, p1, pairs, h);
    FindKeyStep(g, k2, y, 0, base, pairs, h);
    FindKeyStep(g, k2, y, 1, base, pairs, h);
  }

  /** The graph of `{&A 1: &B true, *B: *A}` read twice, from 0 and from 3. */
  ghost predicate TwiceGraph(g: Graph, one: int, yes: int) {
    && g.Keys == {0, 1, 2, 3, 4, 5}
    && g[0] == Mapping("!!map", [(1, 2), (2, 1)]) && g[3] == Mapping("!!map", [(4, 5), (5, 4)])
    && g[1] == g[4] == Scalar("!!int", "1", Some(one)) && g[2] == g[5] == Scalar("!!bool", "true", Some(yes))
  }

  /** Comparing them throws where the integer and the boolean have the same hash code, though they can be paired. */
  lemma SharedKeysExample(g: Graph, h: Hashes, one: int, yes: int)
    requires TwiceGraph(g, one, yes) && one != yes && h.ofNative(one) == h.ofNative(yes)
    ensures Complete(g) && Compare(g, 0, 3, [], h).v.Thrown?
    ensures exists relation :: GraphPairing(g, relation) && (0, 3) in relation
  {
    assert OnesAndTrues(g, one, yes);
    OnesAndTruesDecoded(g, one, yes);
    SharedKeysThrow(g, 0, 3, 1, 2, 4, 5, h);
    TwiceIsPaired(g, one, yes);
  }

  lemma TwiceIsPaired(g: Graph, one: int, yes: int)
    requires TwiceGraph(g, one, yes)
    ensures exists relation :: GraphPairing(g, relation) && (0, 3) in relation
  {
    CrosswiseIsPaired(g, 0, 3, 1, 2, 4, 5);
    assert (0, 3) in iset{(0, 3), (1, 4), (2, 5)};
  }
}
