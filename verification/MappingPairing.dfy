/** When the comparison of nodes with mappings is right: a pairing of nodes, and the hash codes of keys. */
module MappingPairing {
  import opened Wrappers
  import opened NodeEquality
  import opened NodeHash
  import opened MappingEquality

  /** The j-th entry has a key and a value that are paired with those of `e`. */
  ghost predicate EntryPaired(e: Pair, b: seq<Pair>, j: nat, relation: iset<Pair>) {
    j < |b| && (e.0, b[j].0) in relation && (e.1, b[j].1) in relation
  }

  ghost predicate HasPartner(e: Pair, b: seq<Pair>, relation: iset<Pair>) {
    exists j :: EntryPaired(e, b, j, relation)
  }

  ghost predicate EntriesPairedFrom(a: seq<Pair>, b: seq<Pair>, k: nat, relation: iset<Pair>) {
    forall i | k <= i < |a| :: HasPartner(a[i], b, relation)
  }

  ghost predicate EntriesPaired(a: seq<Pair>, b: seq<Pair>, relation: iset<Pair>) {
    EntriesPairedFrom(a, b, 0, relation)
  }

  /** Two nodes that may be paired: items are paired in turn, and every entry has a partner in any place. */
  ghost predicate Fits(g: Graph, p: Pair, relation: iset<Pair>) {
    && Matches(g, p, relation)
    && (p.0 != p.1 && g[p.0].Mapping? ==> EntriesPaired(g[p.0].entries, g[p.1].entries, relation))
  }

  /** A one-to-one pairing of nodes in which every pair fits. */
  ghost predicate GraphPairing(g: Graph, relation: iset<Pair>) {
    && (forall p, q | p in relation && q in relation :: p.0 == q.0 <==> p.1 == q.1)
    && forall p | p in relation :: Fits(g, p, relation)
  }

  /** No two of the keys have the same hash code. */
  ghost predicate HashesApart(g: Graph, entries: seq<Pair>, h: Hashes)
    requires Complete(g) && EntriesIn(g, entries)
  {
    forall j, k | 0 <= j < k < |entries| :: HashOf(g, entries[j].0, h) != HashOf(g, entries[k].0, h)
  }

  /** No two keys of one mapping have the same hash code. */
  ghost predicate KeyHashesApart(g: Graph, h: Hashes)
    requires Complete(g)
  {
    forall id | id in g && g[id].Mapping? :: HashesApart(g, g[id].entries, h)
  }

  /** The pairs from the first `|pairs|` on are new, and each of them fits. */
  ghost predicate Grown(g: Graph, pairs: seq<Pair>, more: seq<Pair>) {
    pairs <= more && OneToOne(more) && forall k | |pairs| <= k < |more| :: Fits(g, more[k], SetOf(more))
  }

  lemma FitsMore(g: Graph, p: Pair, small: iset<Pair>, large: iset<Pair>)
    requires Fits(g, p, small) && small <= large
    ensures Fits(g, p, large)
  {
    if p.0 != p.1 && g[p.0].Mapping? {
      PartnersMore(g[p.0].entries, g[p.1].entries, small, large);
    }
  }

  lemma PartnersMore(a: seq<Pair>, b: seq<Pair>, small: iset<Pair>, large: iset<Pair>)
    requires EntriesPaired(a, b, small) && small <= large
    ensures EntriesPaired(a, b, large)
  {
    forall i | 0 <= i < |a| ensures HasPartner(a[i], b, large) {
      var j :| EntryPaired(a[i], b, j, small);
      assert EntryPaired(a[i], b, j, large);
    }
  }

  lemma GrownTwice(g: Graph, a: seq<Pair>, b: seq<Pair>, c: seq<Pair>)
    requires Grown(g, a, b) && Grown(g, b, c)
    ensures Grown(g, a, c)
  {
    forall k | |a| <= k < |c| ensures Fits(g, c[k], SetOf(c)) {
      if k < |b| {
        assert c[k] == b[k];
        FitsMore(g, b[k], SetOf(b), SetOf(c));
      }
    }
  }

  /** A pair that is new, and found to fit by what is paired after it. */
  lemma GrownByPair(g: Graph, pairs: seq<Pair>, p: Pair, more: seq<Pair>)
    requires Grown(g, pairs + [p], more) && Fits(g, p, SetOf(more))
    ensures Grown(g, pairs, more) && p in more
  {
    assert more[|pairs|] == (pairs + [p])[|pairs|] == p;
  }

  lemma FreshStaysOneToOne(pairs: seq<Pair>, a: Id, b: Id)
    requires OneToOne(pairs) && AppearanceOf(pairs, a, b).Fresh?
    ensures OneToOne(pairs + [(a, b)])
  {
    assert !HasFirst(pairs, a) && !HasSecond(pairs, b);
  }

  /** When hash codes are apart, the only key that is tried is the one with the hash code. */
  lemma {:induction false} OnlyCandidate(g: Graph, key: Id, b: seq<Pair>, j: nat, i: nat, base: seq<Pair>,
      pairs: seq<Pair>, h: Hashes)
    requires Complete(g) && key in g && EntriesIn(g, b) && base <= pairs && j <= i < |b|
    requires HashesApart(g, b, h) && HashOf(g, b[i].0, h) == HashOf(g, key, h)
    ensures var r := Compare(g, key, b[i].0, pairs, h);
            var f := FindKey(g, key, b, j, base, pairs, h);
            if r.v.Different? then f.0.v.Different? else f == (r, i)
    decreases i - j
  {
    FindKeyStep(g, key, b, j, base, pairs, h);
    if j < i {
      OnlyCandidate(g, key, b, j + 1, i, base, pairs, h);
    } else if Compare(g, key, b[i].0, pairs, h).v.Different? {
      NoCandidate(g, key, b, i + 1, base, base, h);
    }
  }

  lemma {:induction false} NoCandidate(g: Graph, key: Id, b: seq<Pair>, j: nat, base: seq<Pair>, pairs: seq<Pair>,
      h: Hashes)
    requires Complete(g) && key in g && EntriesIn(g, b) && base <= pairs && j <= |b|
    requires forall i | j <= i < |b| :: HashOf(g, b[i].0, h) != HashOf(g, key, h)
    ensures FindKey(g, key, b, j, base, pairs, h) == (Outcome(Different, pairs), |b|)
    decreases |b| - j
  {
    if j < |b| {
      FindKeyStep(g, key, b, j, base, pairs, h);
      NoCandidate(g, key, b, j + 1, base, pairs, h);
    }
  }

  /** Nodes found equal are paired, and so are all nodes that have been compared on the way. */
  lemma {:induction false} SameIsPaired(g: Graph, a: Id, b: Id, pairs: seq<Pair>, h: Hashes)
    requires Complete(g) && KeyHashesApart(g, h) && a in g && b in g && OneToOne(pairs)
    requires Compare(g, a, b, pairs, h).v.Same?
    ensures var r := Compare(g, a, b, pairs, h); Grown(g, pairs, r.pairs) && (a, b) in r.pairs
    decreases Unpaired(g, pairs), 0, 0
  {
    if (a, b) !in pairs {
      var r, more := Compare(g, a, b, pairs, h), pairs + [(a, b)];
      FreshStaysOneToOne(pairs, a, b);
      UnpairedDrops(g, pairs, a, b);
      if a != b && g[a].Sequence? {
        SameItemsPaired(g, g[a].items, g[b].items, 0, more, more, h);
      } else if a != b && g[a].Mapping? {
        SameEntriesPaired(g, g[a].entries, g[b].entries, 0, more, more, h);
      }
      GrownByPair(g, pairs, (a, b), r.pairs);
    }
  }

  lemma {:induction false} SameItemsPaired(g: Graph, a: seq<Id>, b: seq<Id>, k: nat, base: seq<Pair>, pairs: seq<Pair>,
      h: Hashes)
    requires Complete(g) && KeyHashesApart(g, h) && |a| == |b| && k <= |a| && AllIn(g, a) && AllIn(g, b)
    requires base <= pairs && OneToOne(pairs) && CompareItems(g, a, b, k, base, pairs, h).v.Same?
    ensures var r := CompareItems(g, a, b, k, base, pairs, h);
            Grown(g, pairs, r.pairs) && ItemsPaired(a, b, k, SetOf(r.pairs))
    decreases Unpaired(g, base), 2, |a| - k
  {
    if k < |a| {
      UnpairedShrinks(g, base, pairs);
      SameIsPaired(g, a[k], b[k], pairs, h);
      var next, r := Compare(g, a[k], b[k], pairs, h), CompareItems(g, a, b, k, base, pairs, h);
      SameItemsPaired(g, a, b, k + 1, base, next.pairs, h);
      GrownTwice(g, pairs, next.pairs, r.pairs);
      ItemsPairedMore(a, b, k, SetOf(r.pairs));
    }
  }

  ghost predicate ItemsPaired(a: seq<Id>, b: seq<Id>, k: nat, relation: iset<Pair>)
    requires |a| == |b|
  {
    forall j | k <= j < |a| :: (a[j], b[j]) in relation
  }

  lemma ItemsPairedMore(a: seq<Id>, b: seq<Id>, k: nat, relation: iset<Pair>)
    requires |a| == |b| && k < |a| && (a[k], b[k]) in relation && ItemsPaired(a, b, k + 1, relation)
    ensures ItemsPaired(a, b, k, relation)
  {}

  lemma {:induction false} SameEntriesPaired(g: Graph, a: seq<Pair>, b: seq<Pair>, i: nat, base: seq<Pair>,
      pairs: seq<Pair>, h: Hashes)
    requires Complete(g) && KeyHashesApart(g, h) && i <= |a| && EntriesIn(g, a) && EntriesIn(g, b) && base <= pairs
    requires HashesApart(g, b, h) && OneToOne(pairs) && CompareEntries(g, a, b, i, base, pairs, h).v.Same?
    ensures var r := CompareEntries(g, a, b, i, base, pairs, h);
            Grown(g, pairs, r.pairs) && EntriesPairedFrom(a, b, i, SetOf(r.pairs))
    decreases Unpaired(g, base), 3, |a| - i
  {
    if i < |a| {
      SameEntryPaired(g, a[i], b, base, pairs, h);
      var next, r := CompareEntry(g, a[i], b, base, pairs, h), CompareEntries(g, a, b, i, base, pairs, h);
      SameEntriesPaired(g, a, b, i + 1, base, next.pairs, h);
      GrownTwice(g, pairs, next.pairs, r.pairs);
      FirstPartnerMore(a, b, i, SetOf(next.pairs), SetOf(r.pairs));
    }
  }

  lemma FirstPartnerMore(a: seq<Pair>, b: seq<Pair>, i: nat, small: iset<Pair>, large: iset<Pair>)
    requires i < |a| && HasPartner(a[i], b, small) && small <= large && EntriesPairedFrom(a, b, i + 1, large)
    ensures EntriesPairedFrom(a, b, i, large)
  {
    var j :| EntryPaired(a[i], b, j, small);
    assert EntryPaired(a[i], b, j, large);
  }

  lemma {:induction false} SameEntryPaired(g: Graph, e: Pair, b: seq<Pair>, base: seq<Pair>, pairs: seq<Pair>,
      h: Hashes)
    requires Complete(g) && KeyHashesApart(g, h) && e.0 in g && e.1 in g && EntriesIn(g, b) && base <= pairs
    requires HashesApart(g, b, h) && OneToOne(pairs) && CompareEntry(g, e, b, base, pairs, h).v.Same?
    ensures var r := CompareEntry(g, e, b, base, pairs, h);
            Grown(g, pairs, r.pairs) && HasPartner(e, b, SetOf(r.pairs))
    decreases Unpaired(g, base), 2, 0
  {
    var (found, j) := FindKey(g, e.0, b, 0, base, pairs, h);
    OnlyCandidate(g, e.0, b, 0, j, base, pairs, h);
    UnpairedShrinks(g, base, pairs);
    SameIsPaired(g, e.0, b[j].0, pairs, h);
    UnpairedShrinks(g, base, found.pairs);
    SameIsPaired(g, e.1, b[j].1, found.pairs, h);
    var r := Compare(g, e.1, b[j].1, found.pairs, h);
    GrownTwice(g, pairs, found.pairs, r.pairs);
    assert EntryPaired(e, b, j, SetOf(r.pairs));
  }

  /** The place of a partner. */
  ghost function PartnerOf(e: Pair, b: seq<Pair>, relation: iset<Pair>): (j: nat)
    requires HasPartner(e, b, relation)
    ensures EntryPaired(e, b, j, relation)
  {
    var j :| EntryPaired(e, b, j, relation); j
  }

  /** Nodes that fit are alike, and add the same to the hash of the collection that they are in. */
  lemma FittingAddAlike(g: Graph, relation: iset<Pair>, e: Pair, f: Pair, h: Hashes)
    requires Complete(g) && NativesDecoded(g) && GraphPairing(g, relation)
    requires (e.0, f.0) in relation && (e.1, f.1) in relation
    ensures EntryHash(g, e, h) == EntryHash(g, f, h)
  {
    assert Fits(g, (e.0, f.0), relation) && Fits(g, (e.1, f.1), relation);
    AlikeScalarsHashAlike(g, e.0, f.0, h);
    AlikeScalarsHashAlike(g, e.1, f.1, h);
  }

  /** Every entry has a partner of its own. */
  lemma PartnersAreApart(a: seq<Pair>, b: seq<Pair>, relation: iset<Pair>) returns (m: seq<nat>)
    requires EntriesPaired(a, b, relation) && forall j, k | 0 <= j < k < |a| :: a[j].0 != a[k].0
    requires forall p, q | p in relation && q in relation :: p.0 == q.0 <==> p.1 == q.1
    ensures |m| == |a| && forall i | 0 <= i < |m| :: EntryPaired(a[i], b, m[i], relation)
    ensures forall j, k | 0 <= j < k < |m| :: m[j] != m[k]
  {
    m := seq(|a|, i requires 0 <= i < |a| => PartnerOf(a[i], b, relation));
    forall j, k | 0 <= j < k < |m| ensures m[j] != m[k] {
      assert EntryPaired(a[j], b, m[j], relation) && EntryPaired(a[k], b, m[k], relation);
      assert (a[j].0, b[m[j]].0) in relation && (a[k].0, b[m[k]].0) in relation;
    }
  }

  lemma KeysAreApart(g: Graph, entries: seq<Pair>, h: Hashes)
    requires Complete(g) && EntriesIn(g, entries) && HashesApart(g, entries, h)
    ensures forall j, k | 0 <= j < k < |entries| :: entries[j].0 != entries[k].0
  {}

  lemma PairedMappingsAddAlike(g: Graph, a: Id, b: Id, relation: iset<Pair>, h: Hashes)
    requires Complete(g) && NativesDecoded(g) && KeyHashesApart(g, h) && GraphPairing(g, relation)
    requires a in g && b in g && g[a].Mapping? && g[b].Mapping? && |g[a].entries| == |g[b].entries|
    requires EntriesPaired(g[a].entries, g[b].entries, relation)
    ensures Sum(Parts(g, a, h)) == Sum(Parts(g, b, h))
  {
    var x, y := g[a].entries, g[b].entries;
    KeysAreApart(g, x, h);
    var m := PartnersAreApart(x, y, relation);
    forall k | 0 <= k < |m| ensures m[k] < |y| && Parts(g, a, h)[k] == Parts(g, b, h)[m[k]] {
      assert EntryPaired(x[k], y, m[k], relation);
      FittingAddAlike(g, relation, x[k], y[m[k]], h);
    }
    SumRearranged(m, Parts(g, a, h), Parts(g, b, h));
  }

  /** Paired nodes have equal hash codes, whatever their keys are. */
  lemma PairedNodesHashAlike(g: Graph, a: Id, b: Id, relation: iset<Pair>, h: Hashes)
    requires Complete(g) && NativesDecoded(g) && KeyHashesApart(g, h) && GraphPairing(g, relation)
    requires (a, b) in relation
    ensures a in g && b in g && HashOf(g, a, h) == HashOf(g, b, h)
  {
    assert Fits(g, (a, b), relation);
    AlikeScalarsHashAlike(g, a, b, h);
    if a != b && g[a].Sequence? {
      PairedItemsAddAlike(g, a, b, relation, h);
    } else if a != b && g[a].Mapping? {
      PairedMappingsAddAlike(g, a, b, relation, h);
      SameSumSameHash(g, a, b, h);
    }
  }

  lemma PairedItemsAddAlike(g: Graph, a: Id, b: Id, relation: iset<Pair>, h: Hashes)
    requires Complete(g) && NativesDecoded(g) && GraphPairing(g, relation) && a in g && b in g
    requires g[a].Sequence? && HeadsEqual(g[a], g[b]) && ItemsIn(g[a], g[b], relation)
    ensures HashOf(g, a, h) == HashOf(g, b, h)
  {
    forall k | 0 <= k < |g[a].items| ensures Parts(g, a, h)[k] == Parts(g, b, h)[k] {
      assert Fits(g, (g[a].items[k], g[b].items[k]), relation);
      AlikeScalarsHashAlike(g, g[a].items[k], g[b].items[k], h);
    }
    assert Parts(g, a, h) == Parts(g, b, h);
  }

  /** What the comparison of paired nodes may come to: it throws only where hash codes of keys are the same. */
  ghost predicate Right(g: Graph, r: Outcome, relation: iset<Pair>, h: Hashes)
    requires Complete(g)
  {
    if r.v.Same? then SetOf(r.pairs) <= relation else r.v.Thrown? && !KeyHashesApart(g, h)
  }

  ghost predicate Comparable(g: Graph, relation: iset<Pair>, h: Hashes) {
    Complete(g) && NativesDecoded(g) && (KeyHashesApart(g, h) || ScalarKeys(g)) && GraphPairing(g, relation)
  }

  lemma PairedKeysHashAlike(g: Graph, a: Id, b: Id, relation: iset<Pair>, h: Hashes)
    requires Comparable(g, relation, h) && (a, b) in relation && a in g && b in g
    requires ScalarKeys(g) && !KeyHashesApart(g, h) ==> g[b].Scalar?
    ensures HashOf(g, a, h) == HashOf(g, b, h)
  {
    if KeyHashesApart(g, h) {
      PairedNodesHashAlike(g, a, b, relation, h);
    } else {
      assert Fits(g, (a, b), relation);
      AlikeScalarsHashAlike(g, a, b, h);
    }
  }

  lemma PairedIsNew(g: Graph, a: Id, b: Id, pairs: seq<Pair>, relation: iset<Pair>)
    requires GraphPairing(g, relation) && (a, b) in relation && SetOf(pairs) <= relation
    ensures AppearanceOf(pairs, a, b).Paired? || AppearanceOf(pairs, a, b).Fresh?
    ensures SetOf(pairs + [(a, b)]) <= relation
  {
    if HasFirst(pairs, a) {
      var i :| 0 <= i < |pairs| && pairs[i].0 == a;
      assert pairs[i] in SetOf(pairs);
    }
    if HasSecond(pairs, b) {
      var i :| 0 <= i < |pairs| && pairs[i].1 == b;
      assert pairs[i] in SetOf(pairs);
    }
  }

  /** Paired nodes are never found different. */
  lemma {:induction false} PairedIsRight(g: Graph, a: Id, b: Id, pairs: seq<Pair>, relation: iset<Pair>, h: Hashes)
    requires Comparable(g, relation, h) && (a, b) in relation && SetOf(pairs) <= relation && a in g && b in g
    ensures Right(g, Compare(g, a, b, pairs, h), relation, h)
    decreases Unpaired(g, pairs), 0, 0
  {
    assert Fits(g, (a, b), relation);
    PairedIsNew(g, a, b, pairs, relation);
    if AppearanceOf(pairs, a, b).Fresh? && a != b {
      var more := pairs + [(a, b)];
      UnpairedDrops(g, pairs, a, b);
      if g[a].Sequence? {
        PairedItemsRight(g, g[a].items, g[b].items, 0, more, more, relation, h);
      } else if g[a].Mapping? {
        PairedEntriesRight(g, a, b, 0, more, more, relation, h);
      }
    }
  }

  lemma {:induction false} PairedItemsRight(g: Graph, a: seq<Id>, b: seq<Id>, k: nat, base: seq<Pair>,
      pairs: seq<Pair>, relation: iset<Pair>, h: Hashes)
    requires Comparable(g, relation, h) && |a| == |b| && k <= |a| && AllIn(g, a) && AllIn(g, b)
    requires base <= pairs && SetOf(pairs) <= relation && forall j | 0 <= j < |a| :: (a[j], b[j]) in relation
    ensures Right(g, CompareItems(g, a, b, k, base, pairs, h), relation, h)
    decreases Unpaired(g, base), 2, |a| - k
  {
    if k < |a| {
      UnpairedShrinks(g, base, pairs);
      PairedIsRight(g, a[k], b[k], pairs, relation, h);
      var r := Compare(g, a[k], b[k], pairs, h);
      if r.v.Same? {
        PairedItemsRight(g, a, b, k + 1, base, r.pairs, relation, h);
      }
    }
  }

  lemma {:induction false} PairedEntriesRight(g: Graph, a: Id, b: Id, i: nat, base: seq<Pair>, pairs: seq<Pair>,
      relation: iset<Pair>, h: Hashes)
    requires Comparable(g, relation, h) && a in g && b in g && g[a].Mapping? && g[b].Mapping?
    requires i <= |g[a].entries| && base <= pairs && SetOf(pairs) <= relation
    requires EntriesPaired(g[a].entries, g[b].entries, relation)
    ensures Right(g, CompareEntries(g, g[a].entries, g[b].entries, i, base, pairs, h), relation, h)
    decreases Unpaired(g, base), 3, |g[a].entries| - i
  {
    var x, y := g[a].entries, g[b].entries;
    if i < |x| {
      PairedEntryRight(g, x[i], b, base, pairs, relation, h);
      var r := CompareEntry(g, x[i], y, base, pairs, h);
      if r.v.Same? {
        PairedEntriesRight(g, a, b, i + 1, base, r.pairs, relation, h);
      }
    }
  }

  lemma {:induction false} PairedEntryRight(g: Graph, e: Pair, b: Id, base: seq<Pair>, pairs: seq<Pair>,
      relation: iset<Pair>, h: Hashes)
    requires Comparable(g, relation, h) && e.0 in g && e.1 in g && b in g && g[b].Mapping?
    requires base <= pairs && SetOf(pairs) <= relation && HasPartner(e, g[b].entries, relation)
    ensures Right(g, CompareEntry(g, e, g[b].entries, base, pairs, h), relation, h)
    decreases Unpaired(g, base), 2, 0
  {
    var y := g[b].entries;
    var i := PartnerOf(e, y, relation);
    PartnerFound(g, e, b, 0, i, base, pairs, relation, h);
    var (found, j) := FindKey(g, e.0, y, 0, base, pairs, h);
    if found.v.Same? {
      UnpairedShrinks(g, base, found.pairs);
      PairedIsRight(g, e.1, y[i].1, found.pairs, relation, h);
    }
  }

  /** The partner of an entry is found, if the search does not throw. */
  lemma {:induction false} PartnerFound(g: Graph, e: Pair, b: Id, j: nat, i: nat, base: seq<Pair>, pairs: seq<Pair>,
      relation: iset<Pair>, h: Hashes)
    requires Comparable(g, relation, h) && e.0 in g && e.1 in g && b in g && g[b].Mapping?
    requires base <= pairs && SetOf(pairs) <= relation && EntryPaired(e, g[b].entries, i, relation) && j <= i
    ensures var (found, k) := FindKey(g, e.0, g[b].entries, j, base, pairs, h);
            Right(g, found, relation, h) && (found.v.Same? ==> k == i)
    decreases Unpaired(g, base), 1, |g[b].entries| - j
  {
    var y := g[b].entries;
    FindKeyStep(g, e.0, y, j, base, pairs, h);
    if j == i {
      PartnerKeyRight(g, e, b, i, relation, h);
      UnpairedShrinks(g, base, pairs);
      PairedIsRight(g, e.0, y[i].0, pairs, relation, h);
    } else if HashOf(g, y[j].0, h) != HashOf(g, e.0, h) {
      PartnerFound(g, e, b, j + 1, i, base, pairs, relation, h);
    } else {
      OtherKeyRight(g, e, b, j, i, pairs, relation, h);
      if Compare(g, e.0, y[j].0, pairs, h).v.Different? {
        PartnerFound(g, e, b, j + 1, i, base, base, relation, h);
      }
    }
  }

  lemma PartnerKeyRight(g: Graph, e: Pair, b: Id, i: nat, relation: iset<Pair>, h: Hashes)
    requires Comparable(g, relation, h) && e.0 in g && b in g && g[b].Mapping?
    requires EntryPaired(e, g[b].entries, i, relation)
    ensures HashOf(g, g[b].entries[i].0, h) == HashOf(g, e.0, h)
  {
    PairedKeysHashAlike(g, e.0, g[b].entries[i].0, relation, h);
  }

  /** A key with the same hash code before the partner is refused. */
  lemma OtherKeyRight(g: Graph, e: Pair, b: Id, j: nat, i: nat, pairs: seq<Pair>, relation: iset<Pair>, h: Hashes)
    requires Comparable(g, relation, h) && e.0 in g && e.1 in g && b in g && g[b].Mapping?
    requires SetOf(pairs) <= relation && EntryPaired(e, g[b].entries, i, relation) && j < i
    requires HashOf(g, g[b].entries[j].0, h) == HashOf(g, e.0, h)
    ensures var v := Compare(g, e.0, g[b].entries[j].0, pairs, h).v;
            v.Different? || (v.Thrown? && !KeyHashesApart(g, h))
  {
    var y := g[b].entries;
    PartnerKeyRight(g, e, b, i, relation, h);
    SameHashNotApart(g, b, j, i, h);
    OtherKeyRefused(g, e.0, y[j].0, y[i].0, pairs, relation, h);
  }

  lemma SameHashNotApart(g: Graph, b: Id, j: nat, i: nat, h: Hashes)
    requires Complete(g) && b in g && g[b].Mapping? && j < i < |g[b].entries|
    requires HashOf(g, g[b].entries[j].0, h) == HashOf(g, g[b].entries[i].0, h)
    ensures !KeyHashesApart(g, h)
  {
    assert !HashesApart(g, g[b].entries, h);
  }

  /** A key that is not alike to the partner of the key is refused, though the comparison may throw. */
  lemma OtherKeyRefused(g: Graph, key: Id, other: Id, partner: Id, pairs: seq<Pair>, relation: iset<Pair>, h: Hashes)
    requires Complete(g) && NativesDecoded(g) && GraphPairing(g, relation) && SetOf(pairs) <= relation
    requires key in g && other in g && partner in g && (key, partner) in relation
    requires g[other].Scalar? && g[partner].Scalar? && !Alike(g, other, partner)
    ensures var v := Compare(g, key, other, pairs, h).v; v.Different? || v.Thrown?
  {
    assert Fits(g, (key, partner), relation);
    assert (key, other) !in relation;
    if Alike(g, key, other) {
      AlikeBoth(g, other, partner, key);
    }
  }

  /**
   * When no two keys of one mapping have the same hash code, nodes are equal exactly when they can be paired, with
   * items in order and entries in any order, on cyclic graphs too.
   */
  lemma EqualIffGraphsPaired(g: Graph, a: Id, b: Id, h: Hashes)
    requires Complete(g) && NativesDecoded(g) && KeyHashesApart(g, h) && a in g && b in g
    ensures Compare(g, a, b, [], h).v.Same? <==> exists relation :: GraphPairing(g, relation) && (a, b) in relation
  {
    if Compare(g, a, b, [], h).v.Same? {
      SameIsPaired(g, a, b, [], h);
      GrownIsPairing(g, Compare(g, a, b, [], h).pairs);
    }
    forall relation | GraphPairing(g, relation) && (a, b) in relation ensures Compare(g, a, b, [], h).v.Same? {
      PairedIsRight(g, a, b, [], relation, h);
    }
  }

  lemma GrownIsPairing(g: Graph, pairs: seq<Pair>)
    requires Grown(g, [], pairs)
    ensures GraphPairing(g, SetOf(pairs))
  {
    forall p, q | p in pairs && q in pairs ensures p.0 == q.0 <==> p.1 == q.1 {
      var i :| 0 <= i < |pairs| && pairs[i] == p;
      var j :| 0 <= j < |pairs| && pairs[j] == q;
    }
  }

  /**
   * Whatever the hash codes, nodes with scalar keys that can be paired are never found different; but where keys of
   * one mapping have the same hash code their comparison may throw.
   */
  lemma PairedNeverDifferent(g: Graph, a: Id, b: Id, relation: iset<Pair>, h: Hashes)
    requires Complete(g) && NativesDecoded(g) && ScalarKeys(g) && GraphPairing(g, relation) && (a, b) in relation
    requires a in g && b in g
    ensures !Compare(g, a, b, [], h).v.Different?
  {
    PairedIsRight(g, a, b, [], relation, h);
  }

  /** Numbers below `n` that are different from each other. */
  ghost predicate Places(m: seq<nat>, n: nat) {
    && (forall i | 0 <= i < |m| :: m[i] < n)
    && forall j, k | 0 <= j < k < |m| :: m[j] != m[k]
  }

  /** As many places as there are leave none out. */
  lemma {:induction false} EveryPlaceTaken(m: seq<nat>, n: nat, j: nat)
    requires Places(m, n) && |m| == n && j < n
    ensures j in m
  {
    var last := n - 1;
    if last in m {
      var p :| 0 <= p < n && m[p] == last;
      if j != last {
        EveryPlaceTaken(m[..p] + m[p + 1..], last, j);
      }
    } else {
      EveryPlaceTaken(m[..last], last, m[last]);
    }
  }

  ghost function Inverse(relation: iset<Pair>): iset<Pair> {
    iset p: Pair | (p.1, p.0) in relation
  }

  /** Partners the other way round: no entry of the other mapping is left over. */
  lemma PartnersBack(a: seq<Pair>, b: seq<Pair>, relation: iset<Pair>)
    requires EntriesPaired(a, b, relation) && forall j, k | 0 <= j < k < |a| :: a[j].0 != a[k].0
    requires forall p, q | p in relation && q in relation :: p.0 == q.0 <==> p.1 == q.1
    requires |a| == |b|
    ensures EntriesPaired(b, a, Inverse(relation))
  {
    var m := PartnersAreApart(a, b, relation);
    forall j | 0 <= j < |b| ensures HasPartner(b[j], a, Inverse(relation)) {
      assert forall i | 0 <= i < |m| :: EntryPaired(a[i], b, m[i], relation);
      EveryPlaceTaken(m, |b|, j);
      var i :| 0 <= i < |m| && m[i] == j;
      assert EntryPaired(a[i], b, m[i], relation);
      assert EntryPaired(b[j], a, i, Inverse(relation));
    }
  }

  lemma InverseFits(g: Graph, p: Pair, relation: iset<Pair>, h: Hashes)
    requires Complete(g) && NativesDecoded(g) && KeyHashesApart(g, h) && GraphPairing(g, relation)
    requires (p.1, p.0) in relation
    ensures Fits(g, p, Inverse(relation))
  {
    var a, b := p.1, p.0;
    assert Fits(g, (a, b), relation);
    if a != b && g[a].Mapping? {
      KeysAreApart(g, g[a].entries, h);
      PartnersBack(g[a].entries, g[b].entries, relation);
    }
  }

  /** Equality of nodes with mappings does not depend on which node is asked. */
  lemma EqualGraphsSymmetric(g: Graph, a: Id, b: Id, h: Hashes)
    requires Complete(g) && NativesDecoded(g) && KeyHashesApart(g, h) && a in g && b in g
    requires Compare(g, a, b, [], h).v.Same?
    ensures Compare(g, b, a, [], h).v.Same?
  {
    EqualIffGraphsPaired(g, a, b, h);
    var relation :| GraphPairing(g, relation) && (a, b) in relation;
    forall p | p in Inverse(relation) ensures Fits(g, p, Inverse(relation)) {
      InverseFits(g, p, relation, h);
    }
    assert GraphPairing(g, Inverse(relation)) && (b, a) in Inverse(relation);
    EqualIffGraphsPaired(g, b, a, h);
  }

  /** A set of nodes that holds the items of its sequences, and the keys and values of its mappings. */
  ghost predicate ClosedGraph(g: Graph, s: iset<Id>) {
    && Closed(g, s)
    && forall id | id in s && id in g && g[id].Mapping? :: ChildrenIn(g[id].entries, s)
  }

  ghost predicate ChildrenIn(entries: seq<Pair>, s: iset<Id>) {
    forall k | 0 <= k < |entries| :: entries[k].0 in s && entries[k].1 in s
  }

  /** Between two disjoint graphs no node is paired with itself. */
  ghost predicate StrictGraphPairing(g: Graph, relation: iset<Pair>) {
    GraphPairing(g, relation) && forall p | p in relation :: p.0 != p.1
  }

  lemma PartnersWithin(a: seq<Pair>, b: seq<Pair>, relation: iset<Pair>, left: iset<Id>, right: iset<Id>)
    requires EntriesPaired(a, b, relation) && ChildrenIn(a, left) && ChildrenIn(b, right)
    ensures EntriesPaired(a, b, iset p: Pair | p in relation && p.0 in left && p.1 in right)
  {
    var strict := iset p: Pair | p in relation && p.0 in left && p.1 in right;
    forall i | 0 <= i < |a| ensures HasPartner(a[i], b, strict) {
      var j :| EntryPaired(a[i], b, j, relation);
      assert EntryPaired(a[i], b, j, strict);
    }
  }

  /** Nodes of disjoint graphs are equal exactly when the graphs below them are isomorphic. */
  lemma EqualIffGraphsIsomorphic(g: Graph, a: Id, b: Id, left: iset<Id>, right: iset<Id>, h: Hashes)
    requires Complete(g) && NativesDecoded(g) && KeyHashesApart(g, h) && a in g && b in g
    requires ClosedGraph(g, left) && ClosedGraph(g, right) && a in left && b in right && left !! right
    ensures Compare(g, a, b, [], h).v.Same?
            <==> exists relation :: StrictGraphPairing(g, relation) && (a, b) in relation
  {
    EqualIffGraphsPaired(g, a, b, h);
    forall relation | GraphPairing(g, relation) && (a, b) in relation
      ensures exists strict :: StrictGraphPairing(g, strict) && (a, b) in strict
    {
      var strict := iset p: Pair | p in relation && p.0 in left && p.1 in right;
      forall p | p in strict ensures Fits(g, p, strict) {
        assert Fits(g, p, relation);
        if g[p.0].Mapping? {
          PartnersWithin(g[p.0].entries, g[p.1].entries, relation, left, right);
        }
      }
      assert StrictGraphPairing(g, strict) && (a, b) in strict;
    }
  }

  lemma LinkedPartners(a: seq<Pair>, b: seq<Pair>, c: seq<Pair>, first: iset<Pair>, second: iset<Pair>,
      both: iset<Pair>)
    requires EntriesPaired(a, b, first) && EntriesPaired(b, c, second)
    requires forall q :: InBoth(first, second, q) ==> q in both
    ensures EntriesPaired(a, c, both)
  {
    forall i | 0 <= i < |a| ensures HasPartner(a[i], c, both) {
      var j: nat :| EntryPaired(a[i], b, j, first);
      assert HasPartner(b[j], c, second);
      var k: nat :| EntryPaired(b[j], c, k, second);
      assert Linked(first, second, (a[i].0, c[k].0), b[j].0) && Linked(first, second, (a[i].1, c[k].1), b[j].1);
      assert InBoth(first, second, (a[i].0, c[k].0)) && InBoth(first, second, (a[i].1, c[k].1));
      assert EntryPaired(a[i], c, k, both);
    }
  }

  lemma LinkedFits(g: Graph, first: iset<Pair>, second: iset<Pair>, p: Pair, middle: Id, both: iset<Pair>)
    requires NativesDecoded(g) && StrictGraphPairing(g, first) && StrictGraphPairing(g, second)
    requires Linked(first, second, p, middle) && forall q :: InBoth(first, second, q) ==> q in both
    ensures Fits(g, p, both)
  {
    assert Fits(g, (p.0, middle), first) && Fits(g, (middle, p.1), second);
    var a, b, c := g[p.0], g[middle], g[p.1];
    if a.Sequence? {
      forall k | 0 <= k < |a.items| ensures (a.items[k], c.items[k]) in both {
        assert Linked(first, second, (a.items[k], c.items[k]), b.items[k]);
        assert InBoth(first, second, (a.items[k], c.items[k]));
      }
    } else if a.Mapping? {
      LinkedPartners(a.entries, b.entries, c.entries, first, second, both);
    }
  }

  /** Equality of nodes with mappings of three disjoint graphs is transitive. */
  lemma EqualGraphsTransitive(g: Graph, a: Id, b: Id, c: Id, left: iset<Id>, middle: iset<Id>, right: iset<Id>,
      h: Hashes)
    requires Complete(g) && NativesDecoded(g) && KeyHashesApart(g, h) && a in g && b in g && c in g
    requires ClosedGraph(g, left) && ClosedGraph(g, middle) && ClosedGraph(g, right)
    requires a in left && b in middle && c in right && left !! middle && middle !! right && left !! right
    requires Compare(g, a, b, [], h).v.Same? && Compare(g, b, c, [], h).v.Same?
    ensures Compare(g, a, c, [], h).v.Same?
  {
    EqualIffGraphsIsomorphic(g, a, b, left, middle, h);
    EqualIffGraphsIsomorphic(g, b, c, middle, right, h);
    var first :| StrictGraphPairing(g, first) && (a, b) in first;
    var second :| StrictGraphPairing(g, second) && (b, c) in second;
    var both: iset<Pair> := iset p: Pair | InBoth(first, second, p);
    assert Linked(first, second, (a, c), b) && InBoth(first, second, (a, c));
    forall p | p in both ensures Fits(g, p, both) {
      var m: Id :| Linked(first, second, p, m);
      LinkedFits(g, first, second, p, m, both);
    }
    LinkedOneToOne(first, second);
    assert GraphPairing(g, both) && (a, c) in both;
    EqualIffGraphsPaired(g, a, c, h);
  }
}
