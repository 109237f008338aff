/** Hash codes of nodes. */
module NodeHash {
  import opened Wrappers
  import opened NodeEquality

  /** 32-bit words; sums and products wrap around. */
  type Word = w: int | 0 <= w < 0x1_0000_0000

  function Wrap(n: nat): Word {
    n % 0x1_0000_0000
  }

  /** Exclusive or, bit by bit. */
  function Xor(a: nat, b: nat): nat {
    if a == 0 then b else if b == 0 then a else 2 * Xor(a / 2, b / 2) + (a % 2 + b % 2) % 2
  }

  /** Hash codes of strings, of native objects, and of nodes by their identity. */
  datatype Hashes = Hashes(ofString: string -> Word, ofNative: int -> Word, byIdentity: Id -> Word)

  function ScalarHash(g: Graph, id: Id, h: Hashes): Word
    requires id in g && g[id].Scalar?
  {
    if g[id].native.Some? then h.ofNative(g[id].native.value)
    else if g[id].tag == "!!str" then Wrap(Xor(Wrap(h.ofString(g[id].value) * 193), h.ofString(g[id].tag)))
    else h.byIdentity(id)
  }

  /** What the item at index `i` adds to the hash of a sequence: for a collection, no more than the index. */
  function ItemHash(g: Graph, id: Id, i: nat, h: Hashes): Word
    requires id in g
  {
    if g[id].Scalar? then Wrap(Xor(ScalarHash(g, id, h), Wrap(i))) else Wrap(i)
  }

  function KeyHash(g: Graph, id: Id, h: Hashes): Word
    requires id in g
  {
    if g[id].Scalar? then ScalarHash(g, id, h) else 0
  }

  /** What an entry adds to the hash of a mapping: for a value that is a collection, no more than the key. */
  function EntryHash(g: Graph, e: Pair, h: Hashes): Word
    requires e.0 in g && e.1 in g
  {
    var k := KeyHash(g, e.0, h);
    Wrap(Wrap(k * 971) + if g[e.1].Scalar? then Wrap(Xor(ScalarHash(g, e.1, h), k)) else Wrap(k * 151))
  }

  /** The number of items or entries. */
  function Size(n: Node): nat
    requires !n.Scalar?
  {
    if n.Sequence? then |n.items| else |n.entries|
  }

  /** What the children of a collection add, in the order in which they are enumerated. */
  function Parts(g: Graph, id: Id, h: Hashes): (parts: seq<Word>)
    requires Complete(g) && id in g && !g[id].Scalar?
    ensures |parts| == Size(g[id])
  {
    match g[id]
    case Sequence(_, items) => seq(|items|, i requires 0 <= i < |items| => ItemHash(g, items[i], i, h))
    case Mapping(_, entries) => seq(|entries|, i requires 0 <= i < |entries| => EntryHash(g, entries[i], h))
  }

  /** Words put together one after the other. */
  function Folded(op: (Word, Word) -> Word, parts: seq<Word>): Word {
    if parts == [] then 0 else op(Folded(op, parts[..|parts| - 1]), parts[|parts| - 1])
  }

  /** The sum of two words, which wraps around. */
  function Plus(a: Word, b: Word): Word {
    if a + b < 0x1_0000_0000 then a + b else a + b - 0x1_0000_0000
  }

  function Sum(parts: seq<Word>): Word {
    Folded(Plus, parts)
  }

  function HashOf(g: Graph, id: Id, h: Hashes): Word
    requires Complete(g) && id in g
  {
    if g[id].Scalar? then ScalarHash(g, id, h)
    else if g[id].tag != (if g[id].Sequence? then "!!seq" else "!!map") then h.byIdentity(id)
    else Plus(h.ofString(g[id].tag), Sum(Parts(g, id, h)))
  }

  method GetHashCodeCore(g: Graph, id: Id, h: Hashes) returns (hash: Word)
    requires Complete(g) && id in g
    ensures hash == HashOf(g, id, h)
  {
    if g[id].Scalar? {
      return ScalarHash(g, id, h);
    }
    var seen;
    hash, seen := GetHashCodeCoreSub(g, id, 0, map[], h);
  }

  /**
   * The hash of a collection. For children that are collections the code calls itself on the collection again, not on
   * the child; that is in the dictionary by then, so that the call goes no deeper.
   */
  method GetHashCodeCoreSub(g: Graph, id: Id, path: Word, dict: map<Id, Word>, h: Hashes)
    returns (hash: Word, seen: map<Id, Word>)
    requires Complete(g) && id in g && !g[id].Scalar?
    ensures seen == if id in dict then dict else dict[id := path]
    ensures id in dict ==> hash == Wrap(dict[id] * 27 + path)
    ensures id !in dict && path == 0 ==> hash == HashOf(g, id, h)
    decreases id !in dict, 1
  {
    if id in dict {
      return Wrap(dict[id] * 27 + path), dict;
    }
    seen := dict[id := path];
    if g[id].tag != (if g[id].Sequence? then "!!seq" else "!!map") {
      return h.byIdentity(id), seen;
    }
    hash, seen := AddParts(g, id, path, seen, h);
  }

  /** Adds what the children contribute to the hash of the tag. */
  method AddParts(g: Graph, id: Id, path: Word, dict: map<Id, Word>, h: Hashes)
    returns (hash: Word, seen: map<Id, Word>)
    requires Complete(g) && id in g && !g[id].Scalar? && id in dict && dict[id] == path
    ensures seen == dict && (path == 0 ==> hash == Plus(h.ofString(g[id].tag), Sum(Parts(g, id, h))))
    decreases false, 3
  {
    hash, seen := h.ofString(g[id].tag), dict;
    ghost var tag, parts := hash, [];
    for i := 0 to Size(g[id])
      invariant seen == dict && |parts| == i && hash == Plus(tag, Sum(parts))
      invariant path == 0 ==> parts == Parts(g, id, h)[..i]
    {
      var more: Word;
      more, seen := AddPart(g, id, i, path, seen, h);
      SumMore(tag, parts, more);
      hash, parts := Plus(hash, more), parts + [more];
    }
    assert path == 0 ==> parts == Parts(g, id, h);
  }

  method AddPart(g: Graph, id: Id, i: nat, path: Word, dict: map<Id, Word>, h: Hashes)
    returns (more: Word, seen: map<Id, Word>)
    requires Complete(g) && id in g && !g[id].Scalar? && id in dict && dict[id] == path
    requires i < Size(g[id])
    ensures seen == dict && (path == 0 ==> more == Parts(g, id, h)[i])
    decreases false, 2, 1
  {
    if g[id].Sequence? {
      more, seen := AddItem(g, id, i, path, dict, h);
    } else {
      more, seen := AddEntry(g, id, i, path, dict, h);
    }
  }

  method AddItem(g: Graph, id: Id, i: nat, path: Word, dict: map<Id, Word>, h: Hashes)
    returns (more: Word, seen: map<Id, Word>)
    requires Complete(g) && id in g && g[id].Sequence? && i < |g[id].items| && id in dict && dict[id] == path
    ensures seen == dict && (path == 0 ==> more == ItemHash(g, g[id].items[i], i, h))
    decreases false, 2, 0
  {
    var item := g[id].items[i];
    if g[item].Scalar? {
      more, seen := Wrap(Xor(ScalarHash(g, item, h), Wrap(i))), dict;
    } else {
      NoPath(Wrap(i));
      more, seen := GetHashCodeCoreSub(g, id, Wrap(Xor(Wrap(path * 317), Wrap(i))), dict, h);
    }
  }

  method AddEntry(g: Graph, id: Id, i: nat, path: Word, dict: map<Id, Word>, h: Hashes)
    returns (more: Word, seen: map<Id, Word>)
    requires Complete(g) && id in g && g[id].Mapping? && i < |g[id].entries| && id in dict && dict[id] == path
    ensures seen == dict && (path == 0 ==> more == EntryHash(g, g[id].entries[i], h))
    decreases false, 2, 0
  {
    var (key, value) := g[id].entries[i];
    var hashForKey: Word;
    seen := dict;
    if g[key].Scalar? {
      hashForKey := ScalarHash(g, key, h);
    } else {
      hashForKey, seen := GetHashCodeCoreSub(g, id, Wrap(path * 317), seen, h);
    }
    more := Wrap(hashForKey * 971);
    var ofValue: Word;
    if g[value].Scalar? {
      ofValue := Wrap(Xor(ScalarHash(g, value, h), hashForKey));
    } else {
      ofValue, seen := GetHashCodeCoreSub(g, id, Wrap(path * 317 + hashForKey * 151), seen, h);
    }
    NoPathEntry(hashForKey);
    more := Wrap(more + ofValue);
  }

  lemma NoPathEntry(k: Word)
    ensures Wrap(0 * 27 + Wrap(0 * 317)) == 0 && Wrap(0 * 27 + Wrap(0 * 317 + k * 151)) == Wrap(k * 151)
  {}

  lemma NoPath(i: Word)
    ensures Wrap(0 * 27 + Wrap(Xor(Wrap(0 * 317), i))) == i
  {}

  lemma SumMore(tag: Word, parts: seq<Word>, more: Word)
    ensures Plus(Plus(tag, Sum(parts)), more) == Plus(tag, Sum(parts + [more]))
  {
    SumOfMore(parts, more);
  }

  lemma SumOfMore(parts: seq<Word>, more: Word)
    ensures Sum(parts + [more]) == Plus(Sum(parts), more)
  {
    assert (parts + [more])[..|parts|] == parts;
  }

  /** Nodes that comparing finds alike by themselves: the same node, or nodes whose heads are equal. */
  predicate Alike(g: Graph, a: Id, b: Id) {
    a == b || (a in g && b in g && HeadsEqual(g[a], g[b]))
  }

  lemma AlikeScalarsHashAlike(g: Graph, a: Id, b: Id, h: Hashes)
    requires NativesDecoded(g) && a in g && b in g && Alike(g, a, b)
    ensures g[a].Scalar? == g[b].Scalar? && (g[a].Scalar? ==> ScalarHash(g, a, h) == ScalarHash(g, b, h))
  {}

  /** Equal nodes have equal hash codes, on all graphs of scalars and sequences, cyclic ones too. */
  lemma EqualNodesHashAlike(g: Graph, a: Id, b: Id, h: Hashes)
    requires WellFormed(g) && NativesDecoded(g) && a in g && b in g && VerdictOf(g, a, b).Same?
    ensures HashOf(g, a, h) == HashOf(g, b, h)
  {
    EqualIffPaired(g, a, b);
    var relation :| Pairing(g, relation) && (a, b) in relation;
    PairedHashAlike(g, a, b, relation, h);
  }

  lemma PairedHashAlike(g: Graph, a: Id, b: Id, relation: iset<Pair>, h: Hashes)
    requires WellFormed(g) && NativesDecoded(g) && a in g && b in g && Pairing(g, relation) && (a, b) in relation
    ensures HashOf(g, a, h) == HashOf(g, b, h)
  {
    assert Matches(g, (a, b), relation);
    AlikeScalarsHashAlike(g, a, b, h);
    if a != b && g[a].Sequence? {
      forall k | 0 <= k < |g[a].items| ensures Parts(g, a, h)[k] == Parts(g, b, h)[k] {
        assert Matches(g, (g[a].items[k], g[b].items[k]), relation);
        AlikeScalarsHashAlike(g, g[a].items[k], g[b].items[k], h);
      }
      assert Parts(g, a, h) == Parts(g, b, h);
    }
  }

  /** The hash of a sequence does not depend on what its items that are collections hold. */
  lemma HashIsShallow(g: Graph, a: Id, b: Id, h: Hashes)
    requires Complete(g) && a in g && b in g && g[a].Sequence? && g[b].Sequence? && g[a].tag == g[b].tag == "!!seq"
    requires |g[a].items| == |g[b].items|
    requires forall k | 0 <= k < |g[a].items| ::
               g[a].items[k] == g[b].items[k] || (!g[g[a].items[k]].Scalar? && !g[g[b].items[k]].Scalar?)
    ensures HashOf(g, a, h) == HashOf(g, b, h)
  {
    assert Parts(g, a, h) == Parts(g, b, h);
  }

  /** Exclusive or with the same number twice changes nothing. */
  lemma {:induction false} XorTwice(a: nat, b: nat)
    ensures Xor(Xor(a, b), b) == a
    decreases a + b
  {
    if a != 0 && b != 0 {
      XorTwice(a / 2, b / 2);
      XorHalves(a, b);
      XorHalves(Xor(a, b), b);
    } else if a == 0 {
      XorSelf(b);
    }
  }

  lemma XorHalves(a: nat, b: nat)
    ensures Xor(a, b) / 2 == Xor(a / 2, b / 2) && Xor(a, b) % 2 == (a % 2 + b % 2) % 2
  {}

  lemma {:induction false} XorSelf(b: nat)
    ensures Xor(b, b) == 0
  {
    if b != 0 {
      XorSelf(b / 2);
    }
  }

  function PowerOfTwo(k: nat): nat {
    if k == 0 then 1 else 2 * PowerOfTwo(k - 1)
  }

  lemma {:induction false} PowerOfSum(j: nat, k: nat)
    ensures PowerOfTwo(j + k) == PowerOfTwo(j) * PowerOfTwo(k)
  {
    if j > 0 {
      PowerOfSum(j - 1, k);
    }
  }

  lemma WordBits()
    ensures PowerOfTwo(32) == 0x1_0000_0000
  {
    assert PowerOfTwo(2) == 4;
    PowerOfSum(2, 2);
    PowerOfSum(4, 4);
    PowerOfSum(8, 8);
    PowerOfSum(16, 16);
  }

  lemma {:induction false} XorBound(a: nat, b: nat, k: nat)
    requires a < PowerOfTwo(k) && b < PowerOfTwo(k)
    ensures Xor(a, b) < PowerOfTwo(k)
  {
    if a != 0 && b != 0 {
      XorBound(a / 2, b / 2, k - 1);
    }
  }

  /** The exclusive or of two words is a word. */
  lemma XorOfWords(a: Word, b: Word)
    ensures Xor(a, b) < 0x1_0000_0000
  {
    WordBits();
    XorBound(a, b, 32);
  }

  /** Multiplying by 193 can be undone. */
  lemma TimesUndone(x: nat, r: nat)
    requires x < 0x1_0000_0000 && r == x * 193 % 0x1_0000_0000
    ensures r * 2425655105 % 0x1_0000_0000 == x
  {
    TimesInverse(x, x * 193 / 0x1_0000_0000, r);
  }

  lemma TimesInverse(x: int, q: int, r: int)
    requires 0 <= x < 0x1_0000_0000 && x * 193 == 0x1_0000_0000 * q + r
    ensures r * 2425655105 % 0x1_0000_0000 == x
  {
    var z, t := r * 2425655105, x * 109 - q * 2425655105;
    assert z == x + 0x1_0000_0000 * t;
    Remainder(x, t, z);
  }

  lemma Remainder(x: int, t: int, z: int)
    requires 0 <= x < 0x1_0000_0000 && z == x + 0x1_0000_0000 * t
    ensures z % 0x1_0000_0000 == x
  {}

  /** Two strings have the same hash code exactly when their texts have. */
  lemma StringsHashApart(g: Graph, a: Id, b: Id, h: Hashes)
    requires a in g && b in g && g[a].Scalar? && g[b].Scalar? && g[a].native.None? && g[b].native.None?
    requires g[a].tag == g[b].tag == "!!str"
    ensures ScalarHash(g, a, h) == ScalarHash(g, b, h) <==> h.ofString(g[a].value) == h.ofString(g[b].value)
  {
    var x: int, y: int, tag := h.ofString(g[a].value), h.ofString(g[b].value), h.ofString("!!str");
    var r, s := Wrap(x * 193), Wrap(y * 193);
    assert ScalarHash(g, a, h) == Xor(r, tag) by { XorOfWords(r, tag); }
    assert ScalarHash(g, b, h) == Xor(s, tag) by { XorOfWords(s, tag); }
    XorTwice(r, tag);
    XorTwice(s, tag);
    TimesUndone(x, r);
    TimesUndone(y, s);
  }
}
