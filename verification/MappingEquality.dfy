/** Equality of nodes with mappings, whose keys are looked up by hash and tried in turn. */
module MappingEquality {
  import opened NodeEquality
  import opened NodeHash

  /** The verdict, and the pairs in the repository. */
  datatype Outcome = Outcome(v: Verdict, pairs: seq<Pair>)

  ghost predicate AllIn(g: Graph, ids: seq<Id>) {
    forall k | 0 <= k < |ids| :: ids[k] in g
  }

  ghost predicate EntriesIn(g: Graph, entries: seq<Pair>) {
    forall k | 0 <= k < |entries| :: entries[k].0 in g && entries[k].1 in g
  }

  /**
   * Compares two nodes with the pairs found so far. It ends because every collection that is entered is paired first,
   * and a pair made before a mapping is entered is not forgotten inside.
   */
  ghost function Compare(g: Graph, a: Id, b: Id, pairs: seq<Pair>, h: Hashes): (r: Outcome)
    requires Complete(g) && a in g && b in g
    ensures pairs <= r.pairs
    decreases Unpaired(g, pairs), 0, 0
  {
    match AppearanceOf(pairs, a, b)
    case Paired => Outcome(Same, pairs)
    case OneOnly => Outcome(Different, pairs)
    case Crossed => Outcome(Thrown, pairs)
    case Fresh =>
      var more := pairs + [(a, b)];
      if a == b then Outcome(Same, more)
      else if !HeadsEqual(g[a], g[b]) then Outcome(Different, more)
      else
        UnpairedDrops(g, pairs, a, b);
        match g[a]
        case Scalar(_, _, _) => Outcome(Same, more)
        case Sequence(_, items) => CompareItems(g, items, g[b].items, 0, more, more, h)
        case Mapping(_, entries) => CompareEntries(g, entries, g[b].entries, 0, more, more, h)
  }

  /** Items from the k-th on; `base` are the pairs before all items. */
  ghost function CompareItems(g: Graph, a: seq<Id>, b: seq<Id>, k: nat, base: seq<Pair>, pairs: seq<Pair>, h: Hashes)
    : (r: Outcome)
    requires Complete(g) && |a| == |b| && k <= |a| && AllIn(g, a) && AllIn(g, b) && base <= pairs
    ensures pairs <= r.pairs
    decreases Unpaired(g, base), 2, |a| - k
  {
    if k == |a| then Outcome(Same, pairs)
    else
      UnpairedShrinks(g, base, pairs);
      var r := Compare(g, a[k], b[k], pairs, h);
      if !r.v.Same? then r else CompareItems(g, a, b, k + 1, base, r.pairs, h)
  }

  /** Entries from the i-th on; `base` are the pairs before all entries. */
  ghost function CompareEntries(g: Graph, a: seq<Pair>, b: seq<Pair>, i: nat, base: seq<Pair>, pairs: seq<Pair>,
      h: Hashes): (r: Outcome)
    requires Complete(g) && i <= |a| && EntriesIn(g, a) && EntriesIn(g, b) && base <= pairs
    ensures base <= r.pairs
    decreases Unpaired(g, base), 4, |a| - i
  {
    if i == |a| then Outcome(Same, pairs)
    else
      var r := CompareEntry(g, a[i], b, base, pairs, h);
      if !r.v.Same? then r else CompareEntries(g, a, b, i + 1, base, r.pairs, h)
  }

  /** An entry with an equal key is looked for, and the values are compared. */
  ghost function CompareEntry(g: Graph, e: Pair, b: seq<Pair>, base: seq<Pair>, pairs: seq<Pair>,
      h: Hashes): (r: Outcome)
    requires Complete(g) && e.0 in g && e.1 in g && EntriesIn(g, b) && base <= pairs
    ensures base <= r.pairs
    decreases Unpaired(g, base), 3
  {
    var (found, j) := FindKey(g, e.0, b, 0, base, pairs, h);
    if !found.v.Same? then found
    else
      UnpairedShrinks(g, base, found.pairs);
      Compare(g, e.1, b[j].1, found.pairs, h)
  }

  /** The first entry from the j-th on whose key has the same hash and is equal. */
  ghost function FindKey(g: Graph, key: Id, b: seq<Pair>, j: nat, base: seq<Pair>, pairs: seq<Pair>, h: Hashes)
    : (r: (Outcome, nat))
    requires Complete(g) && j <= |b| && key in g && EntriesIn(g, b) && base <= pairs
    ensures base <= r.0.pairs
    ensures r.0.v.Same? ==> j <= r.1 < |b| && HashOf(g, b[r.1].0, h) == HashOf(g, key, h)
    decreases Unpaired(g, base), 2, |b| - j
  {
    if j == |b| then (Outcome(Different, pairs), j)
    else
      var r := CompareKey(g, key, b[j].0, base, pairs, h);
      if !r.v.Different? then (r, j) else FindKey(g, key, b, j + 1, base, r.pairs, h)
  }

  /**
   * Tries a key, if its hash is the same. When it is not equal, the repository is rewound to the status before all
   * entries, not to that before this key.
   */
  ghost function CompareKey(g: Graph, key: Id, other: Id, base: seq<Pair>, pairs: seq<Pair>, h: Hashes): (r: Outcome)
    requires Complete(g) && key in g && other in g && base <= pairs
    ensures base <= r.pairs && (r.v.Same? ==> HashOf(g, other, h) == HashOf(g, key, h))
    decreases Unpaired(g, base), 1
  {
    if HashOf(g, other, h) != HashOf(g, key, h) then Outcome(Different, pairs)
    else
      UnpairedShrinks(g, base, pairs);
      var r := Compare(g, key, other, pairs, h);
      if r.v.Different? then Outcome(Different, base) else r
  }

  /** Compares two nodes with the pairs found so far. */
  method EqualsIn(g: Graph, a: Id, b: Id, repository: ObjectRepository, h: Hashes) returns (v: Verdict)
    requires Complete(g) && a in g && b in g && repository.Valid()
    modifies repository
    ensures repository.Valid() && Outcome(v, repository.pairs) == Compare(g, a, b, old(repository.pairs), h)
    decreases Unpaired(g, repository.pairs), 0, 0
  {
    ghost var before := repository.pairs;
    var appearance := repository.AlreadyAppeared(a, b);
    match appearance {
      case Paired => return Same;
      case OneOnly => return Different;
      case Crossed => return Thrown;
      case Fresh =>
    }
    if a == b {
      return Same;
    }
    if !HeadsEqual(g[a], g[b]) {
      return Different;
    }
    UnpairedDrops(g, before, a, b);
    match g[a] {
      case Scalar(_, _, _) => v := Same;
      case Sequence(_, items) => v := ItemsEqual(g, items, g[b].items, repository, h);
      case Mapping(_, entries) => v := EntriesEqual(g, entries, g[b].entries, repository, h);
    }
  }

  method ItemsEqual(g: Graph, a: seq<Id>, b: seq<Id>, repository: ObjectRepository, h: Hashes) returns (v: Verdict)
    requires Complete(g) && |a| == |b| && AllIn(g, a) && AllIn(g, b) && repository.Valid()
    modifies repository
    ensures repository.Valid()
    ensures var pairs := old(repository.pairs);
            Outcome(v, repository.pairs) == CompareItems(g, a, b, 0, pairs, pairs, h)
    decreases Unpaired(g, repository.pairs), 2, |a|
  {
    ghost var base := repository.pairs;
    for k := 0 to |a|
      invariant repository.Valid() && base <= repository.pairs
      invariant CompareItems(g, a, b, 0, base, base, h) == CompareItems(g, a, b, k, base, repository.pairs, h)
    {
      UnpairedShrinks(g, base, repository.pairs);
      v := EqualsIn(g, a[k], b[k], repository, h);
      if !v.Same? {
        return;
      }
    }
    v := Same;
  }

  method EntriesEqual(g: Graph, a: seq<Pair>, b: seq<Pair>, repository: ObjectRepository, h: Hashes)
    returns (v: Verdict)
    requires Complete(g) && EntriesIn(g, a) && EntriesIn(g, b) && repository.Valid()
    modifies repository
    ensures repository.Valid()
    ensures var pairs := old(repository.pairs);
            Outcome(v, repository.pairs) == CompareEntries(g, a, b, 0, pairs, pairs, h)
    decreases Unpaired(g, repository.pairs), 4, |a|
  {
    var status := |repository.stackA|;
    ghost var base := repository.pairs;
    for i := 0 to |a|
      invariant repository.Valid() && base <= repository.pairs
      invariant CompareEntries(g, a, b, 0, base, base, h) == CompareEntries(g, a, b, i, base, repository.pairs, h)
    {
      v := EntryEqual(g, a[i], b, repository, status, h, base);
      if !v.Same? {
        return;
      }
    }
    v := Same;
  }

  method EntryEqual(g: Graph, e: Pair, b: seq<Pair>, repository: ObjectRepository, status: nat, h: Hashes,
      ghost base: seq<Pair>) returns (v: Verdict)
    requires Complete(g) && e.0 in g && e.1 in g && EntriesIn(g, b)
    requires repository.Valid() && base <= repository.pairs && status == |base|
    modifies repository
    ensures repository.Valid() && base <= repository.pairs
    ensures Outcome(v, repository.pairs) == CompareEntry(g, e, b, base, old(repository.pairs), h)
    decreases Unpaired(g, base), 3
  {
    var j;
    v, j := Candidate(g, e.0, b, repository, status, h, base);
    if v.Same? {
      UnpairedShrinks(g, base, repository.pairs);
      v := EqualsIn(g, e.1, b[j].1, repository, h);
    }
  }

  method Candidate(g: Graph, key: Id, b: seq<Pair>, repository: ObjectRepository, status: nat, h: Hashes,
      ghost base: seq<Pair>) returns (v: Verdict, j: nat)
    requires Complete(g) && key in g && EntriesIn(g, b)
    requires repository.Valid() && base <= repository.pairs && status == |base|
    modifies repository
    ensures repository.Valid() && base <= repository.pairs
    ensures (Outcome(v, repository.pairs), j) == FindKey(g, key, b, 0, base, old(repository.pairs), h)
    decreases Unpaired(g, base), 2
  {
    ghost var all := FindKey(g, key, b, 0, base, repository.pairs, h);
    j := 0;
    v := Different;
    while j < |b|
      invariant j <= |b| && repository.Valid() && base <= repository.pairs && v.Different?
      invariant all == FindKey(g, key, b, j, base, repository.pairs, h)
      decreases |b| - j
    {
      v := TryKey(g, key, b[j].0, repository, status, h, base);
      if !v.Different? {
        return;
      }
      j := j + 1;
    }
  }

  /** Tries one key, if its hash is the same; the repository is rewound when it is not equal. */
  method TryKey(g: Graph, key: Id, other: Id, repository: ObjectRepository, status: nat, h: Hashes,
      ghost base: seq<Pair>) returns (v: Verdict)
    requires Complete(g) && key in g && other in g
    requires repository.Valid() && base <= repository.pairs && status == |base|
    modifies repository
    ensures repository.Valid() && Outcome(v, repository.pairs) ==
            CompareKey(g, key, other, base, old(repository.pairs), h)
    decreases Unpaired(g, base), 1
  {
    var hash := GetHashCodeCore(g, key, h);
    var otherHash := GetHashCodeCore(g, other, h);
    if otherHash != hash {
      return Different;
    }
    UnpairedShrinks(g, base, repository.pairs);
    v := EqualsIn(g, key, other, repository, h);
    if v.Different? {
      repository.Rewind(status);
      assert repository.pairs == base;
    }
  }

  lemma {:induction false} FindKeyStep(g: Graph, key: Id, b: seq<Pair>, j: nat, base: seq<Pair>, pairs: seq<Pair>,
      h: Hashes)
    requires Complete(g) && j < |b| && key in g && EntriesIn(g, b) && base <= pairs
    ensures FindKey(g, key, b, j, base, pairs, h)
            == if HashOf(g, b[j].0, h) != HashOf(g, key, h) then FindKey(g, key, b, j + 1, base, pairs, h)
               else
                 var r := Compare(g, key, b[j].0, pairs, h);
                 if r.v.Different? then FindKey(g, key, b, j + 1, base, base, h) else (r, j)
  {}

  method Equals(g: Graph, a: Id, b: Id, h: Hashes) returns (v: Verdict)
    requires Complete(g) && a in g && b in g
    ensures v == Compare(g, a, b, [], h).v
  {
    var repository := new ObjectRepository();
    v := EqualsIn(g, a, b, repository, h);
  }

  /** Without mappings this is the comparison of node graphs, step by step. */
  lemma {:induction false} CompareInRun(g: Graph, a: Id, b: Id, h: Hashes,
      roots: Pair, run: seq<State>, i: nat, pairs: seq<Pair>, rest: seq<Pair>) returns (j: nat)
    requires WellFormed(g) && a in g && b in g && At(g, roots, run, i, pairs, [(a, b)] + rest)
    ensures var r := Compare(g, a, b, pairs, h);
            if r.v.Same? then i < j && At(g, roots, run, j, r.pairs, rest)
            else Stopped(g, run, r.v)
    decreases |run| - i, 0
  {
    NextMove(g, roots, run, i, pairs, a, b, rest);
    assert [] + rest == rest;
    j := i + 1;
    if AppearanceOf(pairs, a, b).Fresh? && a != b && HeadsEqual(g[a], g[b]) && g[a].Sequence? {
      var more := pairs + [(a, b)];
      j := CompareItemsInRun(g, a, b, 0, h, roots, run, j, more, more, rest);
    }
  }

  lemma {:induction false} CompareItemsInRun(g: Graph, a: Id, b: Id, k: nat, h: Hashes,
      roots: Pair, run: seq<State>, i: nat, base: seq<Pair>, pairs: seq<Pair>, rest: seq<Pair>) returns (j: nat)
    requires WellFormed(g) && a in g && b in g && g[a].Sequence? && g[b].Sequence? && base <= pairs
    requires |g[a].items| == |g[b].items| && k <= |g[a].items|
    requires At(g, roots, run, i, pairs, ItemPairs(g[a].items, g[b].items, k) + rest)
    ensures var r := CompareItems(g, g[a].items, g[b].items, k, base, pairs, h);
            if r.v.Same? then i <= j && At(g, roots, run, j, r.pairs, rest)
            else Stopped(g, run, r.v)
    decreases |run| - i, 1
  {
    var x, y := g[a].items, g[b].items;
    j := i;
    if k == |x| {
      assert ItemPairs(x, y, k) + rest == rest;
    } else {
      var later := ItemPairs(x, y, k + 1) + rest;
      assert ItemPairs(x, y, k) + rest == [(x[k], y[k])] + later;
      j := CompareInRun(g, x[k], y[k], h, roots, run, i, pairs, later);
      var r := Compare(g, x[k], y[k], pairs, h);
      if r.v.Same? {
        j := CompareItemsInRun(g, a, b, k + 1, h, roots, run, j, base, r.pairs, rest);
      }
    }
  }

  lemma CompareIsVerdict(g: Graph, a: Id, b: Id, h: Hashes)
    requires WellFormed(g) && a in g && b in g
    ensures Compare(g, a, b, [], h).v == VerdictOf(g, a, b)
  {
    var run, v := RunWithVerdict(g, a, b);
    assert [(a, b)] + [] == [(a, b)];
    var j := CompareInRun(g, a, b, h, (a, b), run, 0, [], []);
    if Compare(g, a, b, [], h).v.Same? {
      AtMove(g, a, b, run, j);
    }
  }

  /** Every pair in the repository is alike. */
  ghost predicate AllAlike(g: Graph, pairs: seq<Pair>) {
    forall k | 0 <= k < |pairs| :: Alike(g, pairs[k].0, pairs[k].1)
  }

  /** An entry is matched by another whose key has the same hash, and whose key and value are alike. */
  ghost predicate EntryAlike(g: Graph, e: Pair, f: Pair, h: Hashes)
    requires Complete(g) && e.0 in g && f.0 in g
  {
    HashOf(g, e.0, h) == HashOf(g, f.0, h) && Alike(g, e.0, f.0) && Alike(g, e.1, f.1)
  }

  /** Nodes found equal are alike, and so are the pairs found on the way. */
  lemma {:induction false} SameIsAlike(g: Graph, a: Id, b: Id, pairs: seq<Pair>, h: Hashes)
    requires Complete(g) && a in g && b in g && AllAlike(g, pairs) && Compare(g, a, b, pairs, h).v.Same?
    ensures Alike(g, a, b) && AllAlike(g, Compare(g, a, b, pairs, h).pairs)
    decreases Unpaired(g, pairs), 0, 0
  {
    if (a, b) in pairs {
      assert Alike(g, a, b);
    } else if a != b {
      var more := pairs + [(a, b)];
      assert AllAlike(g, more);
      UnpairedDrops(g, pairs, a, b);
      match g[a] {
        case Scalar(_, _, _) =>
        case Sequence(_, items) => SameItemsAlike(g, items, g[b].items, 0, more, more, h);
        case Mapping(_, entries) => var matching := SameEntriesAlike(g, entries, g[b].entries, 0, more, more, h);
      }
    }
  }

  lemma {:induction false} SameItemsAlike(g: Graph, a: seq<Id>, b: seq<Id>, k: nat, base: seq<Pair>, pairs: seq<Pair>,
      h: Hashes)
    requires Complete(g) && |a| == |b| && k <= |a| && AllIn(g, a) && AllIn(g, b) && base <= pairs
    requires AllAlike(g, pairs) && CompareItems(g, a, b, k, base, pairs, h).v.Same?
    ensures AllAlike(g, CompareItems(g, a, b, k, base, pairs, h).pairs)
    ensures ItemsAlike(g, a, b, k)
    decreases Unpaired(g, base), 2, |a| - k
  {
    if k < |a| {
      UnpairedShrinks(g, base, pairs);
      SameIsAlike(g, a[k], b[k], pairs, h);
      SameItemsAlike(g, a, b, k + 1, base, Compare(g, a[k], b[k], pairs, h).pairs, h);
      ItemsAlikeMore(g, a, b, k);
    }
  }

  ghost predicate ItemsAlike(g: Graph, a: seq<Id>, b: seq<Id>, k: nat)
    requires |a| == |b|
  {
    forall j | k <= j < |a| :: Alike(g, a[j], b[j])
  }

  lemma ItemsAlikeMore(g: Graph, a: seq<Id>, b: seq<Id>, k: nat)
    requires |a| == |b| && k < |a| && Alike(g, a[k], b[k]) && ItemsAlike(g, a, b, k + 1)
    ensures ItemsAlike(g, a, b, k)
  {}

  /** Gives for every entry from the i-th on an entry that matches it. */
  lemma {:induction false} SameEntriesAlike(g: Graph, a: seq<Pair>, b: seq<Pair>, i: nat, base: seq<Pair>,
      pairs: seq<Pair>, h: Hashes) returns (m: seq<nat>)
    requires Complete(g) && i <= |a| && EntriesIn(g, a) && EntriesIn(g, b) && base <= pairs
    requires AllAlike(g, pairs) && CompareEntries(g, a, b, i, base, pairs, h).v.Same?
    ensures AllAlike(g, CompareEntries(g, a, b, i, base, pairs, h).pairs)
    ensures |m| == |a| - i && forall k | 0 <= k < |m| :: m[k] < |b| && EntryAlike(g, a[i + k], b[m[k]], h)
    decreases Unpaired(g, base), 4, |a| - i
  {
    if i == |a| {
      m := [];
    } else {
      var j := SameEntryAlike(g, a[i], b, base, pairs, h);
      var rest := SameEntriesAlike(g, a, b, i + 1, base, CompareEntry(g, a[i], b, base, pairs, h).pairs, h);
      m := [j] + rest;
    }
  }

  lemma {:induction false} SameEntryAlike(g: Graph, e: Pair, b: seq<Pair>, base: seq<Pair>, pairs: seq<Pair>, h: Hashes)
    returns (j: nat)
    requires Complete(g) && e.0 in g && e.1 in g && EntriesIn(g, b) && base <= pairs
    requires AllAlike(g, pairs) && CompareEntry(g, e, b, base, pairs, h).v.Same?
    ensures AllAlike(g, CompareEntry(g, e, b, base, pairs, h).pairs) && j < |b| && EntryAlike(g, e, b[j], h)
    decreases Unpaired(g, base), 3
  {
    var (found, i) := FindKey(g, e.0, b, 0, base, pairs, h);
    j := i;
    FoundKeyAlike(g, e.0, b, 0, base, pairs, h);
    UnpairedShrinks(g, base, found.pairs);
    SameIsAlike(g, e.1, b[j].1, found.pairs, h);
  }

  lemma {:induction false} FoundKeyAlike(g: Graph, key: Id, b: seq<Pair>, j: nat, base: seq<Pair>, pairs: seq<Pair>,
      h: Hashes)
    requires Complete(g) && j <= |b| && key in g && EntriesIn(g, b) && base <= pairs
    requires AllAlike(g, pairs) && FindKey(g, key, b, j, base, pairs, h).0.v.Same?
    ensures var (found, i) := FindKey(g, key, b, j, base, pairs, h); AllAlike(g, found.pairs) && Alike(g, key, b[i].0)
    decreases Unpaired(g, base), 2, |b| - j
  {
    FindKeyStep(g, key, b, j, base, pairs, h);
    if HashOf(g, b[j].0, h) != HashOf(g, key, h) {
      FoundKeyAlike(g, key, b, j + 1, base, pairs, h);
    } else if Compare(g, key, b[j].0, pairs, h).v.Different? {
      FoundKeyAlike(g, key, b, j + 1, base, base, h);
    } else {
      UnpairedShrinks(g, base, pairs);
      SameIsAlike(g, key, b[j].0, pairs, h);
    }
  }

  /** The keys of mappings are scalars, none alike in one mapping. */
  ghost predicate ScalarKeys(g: Graph) {
    forall id | id in g && g[id].Mapping? ::
      && (forall k | 0 <= k < |g[id].entries| :: g[id].entries[k].0 in g && g[g[id].entries[k].0].Scalar?)
      && forall j, k | 0 <= j < k < |g[id].entries| :: !Alike(g, g[id].entries[j].0, g[id].entries[k].0)
  }

  /** Putting two words after another in either order comes to the same. */
  ghost predicate Commutes(op: (Word, Word) -> Word) {
    forall a, b, c :: op(op(a, b), c) == op(op(a, c), b)
  }

  lemma {:induction false} FoldedWithout(op: (Word, Word) -> Word, parts: seq<Word>, j: nat)
    requires Commutes(op) && j < |parts|
    ensures Folded(op, parts) == op(Folded(op, parts[..j] + parts[j + 1..]), parts[j])
  {
    var last := |parts| - 1;
    var rest := parts[..j] + parts[j + 1..];
    if j == last {
      assert rest == parts[..last];
    } else {
      var shorter := parts[..last];
      var inner := shorter[..j] + shorter[j + 1..];
      FoldedWithout(op, shorter, j);
      assert rest[..|rest| - 1] == inner && rest[|rest| - 1] == parts[last];
    }
  }

  /** Every position is matched by one with the same number, and no position is used twice. */
  ghost predicate Rearranges(m: seq<nat>, a: seq<Word>, b: seq<Word>) {
    && |m| == |a| == |b|
    && (forall k | 0 <= k < |m| :: m[k] < |b| && a[k] == b[m[k]])
    && forall j, k | 0 <= j < k < |m| :: m[j] != m[k]
  }

  lemma {:induction false} FoldedRearranged(op: (Word, Word) -> Word, m: seq<nat>, a: seq<Word>, b: seq<Word>)
    requires Commutes(op) && Rearranges(m, a, b)
    ensures Folded(op, a) == Folded(op, b)
    decreases |a|
  {
    if a != [] {
      var last := |a| - 1;
      var j := m[last];
      var shorter := seq(last, k requires 0 <= k < last => if m[k] < j then m[k] else m[k] - 1);
      var rest := b[..j] + b[j + 1..];
      forall k | 0 <= k < last ensures shorter[k] < |rest| && a[..last][k] == rest[shorter[k]] {
        assert m[k] != j;
      }
      FoldedRearranged(op, shorter, a[..last], rest);
      FoldedWithout(op, b, j);
    }
  }

  /** A sum does not depend on the order. */
  lemma SumRearranged(m: seq<nat>, a: seq<Word>, b: seq<Word>)
    requires Rearranges(m, a, b)
    ensures Sum(a) == Sum(b)
  {
    PlusCommutes();
    FoldedRearranged(Plus, m, a, b);
  }

  lemma PlusCommutes()
    ensures Commutes(Plus)
  {
    assert forall a: Word, b: Word, c: Word :: Plus(Plus(a, b), c) == Plus(Plus(a, c), b);
  }

  /** Nodes that are alike to the same node are alike. */
  lemma AlikeBoth(g: Graph, x: Id, y: Id, z: Id)
    requires NativesDecoded(g) && Alike(g, x, z) && Alike(g, y, z) && x in g && y in g && z in g && g[x].Scalar?
    ensures Alike(g, x, y)
  {}

  lemma MatchedMappings(g: Graph, a: Id, b: Id, m: seq<nat>, h: Hashes)
    requires Complete(g) && NativesDecoded(g) && ScalarKeys(g) && a in g && b in g && g[a].Mapping? && g[b].Mapping?
    requires |g[a].entries| == |g[b].entries| == |m|
    requires forall k | 0 <= k < |m| :: m[k] < |m| && EntryAlike(g, g[a].entries[k], g[b].entries[m[k]], h)
    ensures Sum(Parts(g, a, h)) == Sum(Parts(g, b, h))
  {
    var x, y := g[a].entries, g[b].entries;
    forall k | 0 <= k < |m| ensures Parts(g, a, h)[k] == Parts(g, b, h)[m[k]] {
      assert EntryAlike(g, x[k], y[m[k]], h);
      AlikeScalarsHashAlike(g, x[k].0, y[m[k]].0, h);
      AlikeScalarsHashAlike(g, x[k].1, y[m[k]].1, h);
    }
    forall j, k | 0 <= j < k < |m| ensures m[j] != m[k] {
      if m[j] == m[k] {
        assert EntryAlike(g, x[j], y[m[j]], h) && EntryAlike(g, x[k], y[m[k]], h);
        AlikeBoth(g, x[j].0, x[k].0, y[m[j]].0);
      }
    }
    SumRearranged(m, Parts(g, a, h), Parts(g, b, h));
  }

  /** Equal nodes have equal hash codes, in whatever order their mappings are enumerated. */
  lemma EqualNodesHashAlike(g: Graph, a: Id, b: Id, h: Hashes)
    requires Complete(g) && NativesDecoded(g) && ScalarKeys(g) && a in g && b in g
    requires Compare(g, a, b, [], h).v.Same?
    ensures HashOf(g, a, h) == HashOf(g, b, h)
  {
    SameIsAlike(g, a, b, [], h);
    if a == b || g[a].Scalar? {
      AlikeScalarsHashAlike(g, a, b, h);
    } else {
      assert AppearanceOf([], a, b).Fresh? && [] + [(a, b)] == [(a, b)];
      if g[a].Sequence? {
        SameSequencesHashAlike(g, a, b, [(a, b)], h);
      } else {
        SameMappingsHashAlike(g, a, b, [(a, b)], h);
      }
    }
  }

  lemma SameSequencesHashAlike(g: Graph, a: Id, b: Id, pairs: seq<Pair>, h: Hashes)
    requires Complete(g) && NativesDecoded(g) && a in g && b in g && AllAlike(g, pairs)
    requires HeadsEqual(g[a], g[b]) && g[a].Sequence?
    requires CompareItems(g, g[a].items, g[b].items, 0, pairs, pairs, h).v.Same?
    ensures HashOf(g, a, h) == HashOf(g, b, h)
  {
    SameItemsAlike(g, g[a].items, g[b].items, 0, pairs, pairs, h);
    forall k | 0 <= k < |g[a].items| ensures Parts(g, a, h)[k] == Parts(g, b, h)[k] {
      AlikeScalarsHashAlike(g, g[a].items[k], g[b].items[k], h);
    }
    assert Parts(g, a, h) == Parts(g, b, h);
  }

  lemma SameMappingsHashAlike(g: Graph, a: Id, b: Id, pairs: seq<Pair>, h: Hashes)
    requires Complete(g) && NativesDecoded(g) && ScalarKeys(g) && a in g && b in g && AllAlike(g, pairs)
    requires HeadsEqual(g[a], g[b]) && g[a].Mapping?
    requires CompareEntries(g, g[a].entries, g[b].entries, 0, pairs, pairs, h).v.Same?
    ensures HashOf(g, a, h) == HashOf(g, b, h)
  {
    var x, y := g[a].entries, g[b].entries;
    var m := SameEntriesAlike(g, x, y, 0, pairs, pairs, h);
    forall k | 0 <= k < |m| ensures m[k] < |m| && EntryAlike(g, x[k], y[m[k]], h) {
      assert m[k] < |y| && EntryAlike(g, x[0 + k], y[m[k]], h);
    }
    MatchedMappings(g, a, b, m, h);
    SameSumSameHash(g, a, b, h);
  }

  lemma SameSumSameHash(g: Graph, a: Id, b: Id, h: Hashes)
    requires Complete(g) && a in g && b in g && g[a].Mapping? && g[b].Mapping? && g[a].tag == g[b].tag == "!!map"
    requires Sum(Parts(g, a, h)) == Sum(Parts(g, b, h))
    ensures HashOf(g, a, h) == HashOf(g, b, h)
  {}
}
