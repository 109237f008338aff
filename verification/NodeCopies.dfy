/** What equality of nodes means for their content: a document read twice is equal to its copy, and nothing else is. */
module NodeCopies {
  import opened Wrappers
  import opened NodeEquality
  import opened NodeHash
  import opened MappingEquality
  import opened MappingPairing

  /** The entry of the copy at `j` has the copies of the key and the value. */
  ghost predicate CopiedAt(e: Pair, copy: seq<Pair>, j: nat, f: map<Id, Id>) {
    j < |copy| && e.0 in f && e.1 in f && copy[j] == (f[e.0], f[e.1])
  }

  ghost predicate EntryCopied(e: Pair, copy: seq<Pair>, f: map<Id, Id>) {
    exists j :: CopiedAt(e, copy, j, f)
  }

  /** The same tag, text and native object, and copies of the items in order, or of the entries in any order. */
  ghost predicate IsCopy(a: Node, b: Node, f: map<Id, Id>) {
    match a
    case Scalar(_, _, _) => b == a
    case Sequence(tag, items) =>
      && b.Sequence? && b.tag == tag && |b.items| == |items|
      && forall k | 0 <= k < |items| :: items[k] in f && b.items[k] == f[items[k]]
    case Mapping(tag, entries) =>
      && b.Mapping? && b.tag == tag && |b.entries| == |entries|
      && forall k | 0 <= k < |entries| :: EntryCopied(entries[k], b.entries, f)
  }

  /** Nodes that are compared by their content: native objects and strings, `!!seq` and `!!map`. */
  predicate ByContent(a: Node) {
    match a
    case Scalar(tag, _, native) => native.Some? || tag == "!!str"
    case Sequence(tag, _) => tag == "!!seq"
    case Mapping(tag, _) => tag == "!!map"
  }

  /** The nodes of a document, each with its own copy. */
  ghost predicate Copies(g: Graph, f: map<Id, Id>) {
    && (forall x, y | x in f && y in f && f[x] == f[y] :: x == y)
    && forall x | x in f :: x in g && f[x] in g && ByContent(g[x]) && IsCopy(g[x], g[f[x]], f)
  }

  ghost function Graphed(f: map<Id, Id>): iset<Pair> {
    iset p: Pair | p.0 in f && p.1 == f[p.0]
  }

  lemma CopyMatches(g: Graph, f: map<Id, Id>, p: Pair)
    requires Copies(g, f) && p in Graphed(f)
    ensures Matches(g, p, Graphed(f))
  {}

  /** A document of scalars and sequences, with any sharing and cycles, is equal to its copy. */
  lemma CopyIsEqual(g: Graph, f: map<Id, Id>, a: Id)
    requires WellFormed(g) && Copies(g, f) && a in f
    ensures VerdictOf(g, a, f[a]).Same?
  {
    forall p | p in Graphed(f) ensures Matches(g, p, Graphed(f)) {
      CopyMatches(g, f, p);
    }
    assert Pairing(g, Graphed(f)) && (a, f[a]) in Graphed(f);
    EqualIffPaired(g, a, f[a]);
  }

  lemma CopyFits(g: Graph, f: map<Id, Id>, p: Pair)
    requires Copies(g, f) && p in Graphed(f)
    ensures Fits(g, p, Graphed(f))
  {
    CopyMatches(g, f, p);
    if g[p.0].Mapping? {
      var x, y := g[p.0].entries, g[p.1].entries;
      forall k | 0 <= k < |x| ensures HasPartner(x[k], y, Graphed(f)) {
        assert EntryCopied(x[k], y, f);
        var j: nat :| CopiedAt(x[k], y, j, f);
        assert EntryPaired(x[k], y, j, Graphed(f));
      }
    }
  }

  /** So is one with mappings, whatever the order of their entries, when no two keys of one have the same hash code. */
  lemma CopyWithMappingsIsEqual(g: Graph, f: map<Id, Id>, a: Id, h: Hashes)
    requires Complete(g) && NativesDecoded(g) && KeyHashesApart(g, h) && Copies(g, f) && a in f
    ensures Compare(g, a, f[a], [], h).v.Same?
  {
    forall p | p in Graphed(f) ensures Fits(g, p, Graphed(f)) {
      CopyFits(g, f, p);
    }
    assert GraphPairing(g, Graphed(f)) && (a, f[a]) in Graphed(f);
    EqualIffGraphsPaired(g, a, f[a], h);
  }

  /** Two scalars with equal native objects, or two strings with the same text. */
  predicate SameScalar(a: Node, b: Node) {
    a.Scalar? && b.Scalar? && a.tag == b.tag
    && if a.native.Some? then b.native == a.native else a.tag == "!!str" && a.value == b.value
  }

  /** A scalar is equal to itself and to the scalars of the same tag with its native object, or with its text. */
  lemma EqualScalars(g: Graph, a: Id, b: Id)
    requires WellFormed(g) && a in g && b in g && g[a].Scalar?
    ensures VerdictOf(g, a, b).Same? <==> a == b || SameScalar(g[a], g[b])
  {
    EqualIffPaired(g, a, b);
    if a == b || SameScalar(g[a], g[b]) {
      assert Pairing(g, iset{(a, b)});
    }
    forall relation | Pairing(g, relation) && (a, b) in relation ensures a == b || SameScalar(g[a], g[b]) {
      assert Matches(g, (a, b), relation);
    }
  }

  /** Items paired in order, entries in any order. */
  ghost predicate SameChildren(a: Node, b: Node, relation: iset<Pair>) {
    match a
    case Scalar(_, _, _) => true
    case Sequence(_, items) =>
      && b.Sequence? && |b.items| == |items|
      && forall k | 0 <= k < |items| :: (items[k], b.items[k]) in relation
    case Mapping(_, entries) => b.Mapping? && |b.entries| == |entries| && EntriesPaired(entries, b.entries, relation)
  }

  /** Nodes with the same content, as far as a pairing of their children goes. */
  ghost predicate Corresponds(a: Node, b: Node, relation: iset<Pair>) {
    if a.Scalar? then SameScalar(a, b) else a.tag == b.tag && ByContent(a) && SameChildren(a, b, relation)
  }

  /** A one-to-one relation of nodes that are identical or have the same content. */
  ghost predicate Correspondence(g: Graph, relation: iset<Pair>) {
    && (forall p, q | p in relation && q in relation :: p.0 == q.0 <==> p.1 == q.1)
    && forall p | p in relation :: p.0 in g && p.1 in g && (p.0 == p.1 || Corresponds(g[p.0], g[p.1], relation))
  }

  /** Nodes of graphs of scalars and sequences are equal exactly when a correspondence relates them. */
  lemma EqualIffCorrespond(g: Graph, a: Id, b: Id)
    requires WellFormed(g) && a in g && b in g
    ensures VerdictOf(g, a, b).Same? <==> exists relation :: Correspondence(g, relation) && (a, b) in relation
  {
    EqualIffPaired(g, a, b);
    forall relation ensures Pairing(g, relation) <==> Correspondence(g, relation) {
      PairingCorresponds(g, relation);
    }
  }

  lemma PairingCorresponds(g: Graph, relation: iset<Pair>)
    requires WellFormed(g)
    ensures Pairing(g, relation) <==> Correspondence(g, relation)
  {
    forall p: Pair | p.0 in g && p.1 in g && p.0 != p.1
      ensures Matches(g, p, relation) <==> Corresponds(g[p.0], g[p.1], relation)
    {}
  }

  lemma GraphPairingCorresponds(g: Graph, relation: iset<Pair>)
    requires Complete(g)
    ensures GraphPairing(g, relation) <==> Correspondence(g, relation)
  {
    forall p: Pair | p.0 in g && p.1 in g && p.0 != p.1
      ensures Fits(g, p, relation) <==> Corresponds(g[p.0], g[p.1], relation)
    {}
  }

  /** So are nodes with mappings, when no two keys of one mapping have the same hash code. */
  lemma EqualGraphsCorrespond(g: Graph, a: Id, b: Id, h: Hashes)
    requires Complete(g) && NativesDecoded(g) && KeyHashesApart(g, h) && a in g && b in g
    ensures Compare(g, a, b, [], h).v.Same?
            <==> exists relation :: Correspondence(g, relation) && (a, b) in relation
  {
    EqualIffGraphsPaired(g, a, b, h);
    forall relation ensures GraphPairing(g, relation) <==> Correspondence(g, relation) {
      GraphPairingCorresponds(g, relation);
    }
  }
}
