/** What is read from any nested sequences, written from an array or not, even or ragged. */
module ArrayReading {
  import opened Wrappers
  import opened NestedArrays

  /** The scalar at the end of a path, if there is one. */
  function Leaf<T>(node: Node<T>, path: Index): (v: Option<T>)
    decreases node
  {
    match node
    case Scalar(value) => if path == [] then Some(value) else None
    case Sequence(items) => if path == [] || path[0] >= |items| then None else Leaf(items[path[0]], path[1..])
  }

  /** The number of items of the sequence at the end of a path, if there is one. */
  function SizeAt<T>(node: Node<T>, path: Index): (n: Option<nat>)
    decreases node
  {
    match node
    case Scalar(_) => None
    case Sequence(items) =>
      if path == [] then Some(|items|) else if path[0] >= |items| then None else SizeAt(items[path[0]], path[1..])
  }

  /** All scalars are on one level, and nothing but sequences above it. */
  predicate Uniform<T>(node: Node<T>, depth: nat)
    decreases node
  {
    match node
    case Scalar(_) => depth == 0
    case Sequence(items) => depth > 0 && forall i | 0 <= i < |items| :: Uniform(items[i], depth - 1)
  }

  /** Nothing but sequences above the level of the scalars. */
  predicate Deep<T>(node: Node<T>, depth: nat)
    decreases node
  {
    match node
    case Scalar(_) => depth == 0
    case Sequence(items) => depth <= 1 || forall i | 0 <= i < |items| :: Deep(items[i], depth - 1)
  }

  predicate AllDeep<T>(items: seq<Node<T>>, depth: nat) {
    forall i | 0 <= i < |items| :: Deep(items[i], depth)
  }

  /** No sequence on the level has more items, and one has as many unless there are none. */
  ghost predicate Greatest<T>(node: Node<T>, level: nat, n: nat) {
    && (forall path | |path| == level && SizeAt(node, path).Some? :: SizeAt(node, path).value <= n)
    && (n > 0 ==> exists path :: |path| == level && SizeAt(node, path) == Some(n))
  }

  /** The greatest number of items of a sequence on a level. */
  function Widest<T>(node: Node<T>, level: nat): nat
    decreases node
  {
    match node
    case Scalar(_) => 0
    case Sequence(items) => if level == 0 then |items| else WidestOfAll(items, level - 1)
  }

  function WidestOfAll<T>(items: seq<Node<T>>, level: nat): nat
    decreases items
  {
    if items == [] then 0 else Max(Widest(items[0], level), WidestOfAll(items[1..], level))
  }

  lemma {:induction false} WidestIsGreatest<T>(node: Node<T>, level: nat)
    ensures Greatest(node, level, Widest(node, level))
    decreases node, 1
  {
    if node.Sequence? {
      if level == 0 {
        assert SizeAt(node, []) == Some(|node.items|);
      } else {
        var n := Widest(node, level);
        forall path | |path| == level && SizeAt(node, path).Some? ensures SizeAt(node, path).value <= n {
          WidestIsGreatest(node.items[path[0]], level - 1);
          WidestOfAllBounds(node.items, level - 1, path[0]);
        }
        if n > 0 {
          var k := WidestOfAllFound(node.items, level - 1);
          WidestIsGreatest(node.items[k], level - 1);
          var rest :| |rest| == level - 1 && SizeAt(node.items[k], rest) == Some(n);
          assert ([k] + rest)[1..] == rest && SizeAt(node, [k] + rest) == Some(n);
        }
      }
    }
  }

  lemma {:induction false} WidestOfAllBounds<T>(items: seq<Node<T>>, level: nat, k: nat)
    requires k < |items|
    ensures Widest(items[k], level) <= WidestOfAll(items, level)
  {
    if k > 0 {
      WidestOfAllBounds(items[1..], level, k - 1);
    }
  }

  lemma {:induction false} WidestOfAllFound<T>(items: seq<Node<T>>, level: nat) returns (k: nat)
    requires WidestOfAll(items, level) > 0
    ensures k < |items| && Widest(items[k], level) == WidestOfAll(items, level)
  {
    if Widest(items[0], level) == WidestOfAll(items, level) {
      k := 0;
    } else {
      k := WidestOfAllFound(items[1..], level);
      k := k + 1;
    }
  }

  /** Lengths raised from a level on. */
  ghost predicate Raised(before: seq<nat>, after: seq<nat>, i: nat, widest: nat -> nat) {
    && |after| == |before|
    && forall k | 0 <= k < |before| :: after[k] == if k < i then before[k] else Max(before[k], widest(k - i))
  }

  /** Measuring fails exactly if a scalar is where a sequence must be, and finds the greatest number of every level. */
  lemma {:induction false} LengthsAreGreatest<T>(node: Node<T>, i: nat, lengths: seq<nat>)
    requires i < |lengths|
    ensures Lengths(node, i, lengths).Some? <==> Deep(node, |lengths| - i)
    ensures var r := Lengths(node, i, lengths); r.Some? ==> Raised(lengths, r.value, i, l => Widest(node, l))
    decreases node
  {
    if node.Sequence? && i < |lengths| - 1 {
      var raised := lengths[i := Max(lengths[i], |node.items|)];
      LengthsOfAllAreGreatest(node.items, i + 1, raised);
    }
  }

  lemma {:induction false} LengthsOfAllAreGreatest<T>(items: seq<Node<T>>, i: nat, lengths: seq<nat>)
    requires i < |lengths|
    ensures LengthsOfAll(items, i, lengths).Some? <==> AllDeep(items, |lengths| - i)
    ensures var r := LengthsOfAll(items, i, lengths);
            r.Some? ==> Raised(lengths, r.value, i, l => WidestOfAll(items, l))
    decreases items
  {
    if items != [] {
      var depth := |lengths| - i;
      LengthsAreGreatest(items[0], i, lengths);
      assert AllDeep(items, depth) <==> Deep(items[0], depth) && AllDeep(items[1..], depth);
      var r := Lengths(items[0], i, lengths);
      if r.Some? {
        LengthsOfAllAreGreatest(items[1..], i, r.value);
      }
    }
  }

  function Get<T>(elements: map<Index, T>, index: Index): Option<T> {
    if index in elements then Some(elements[index]) else None
  }

  /** Everything that is set from one item. */
  function LeafUnder<T>(item: Node<T>, prefix: Index, index: Index): Option<T> {
    if prefix <= index then Leaf(item, index[|prefix|..]) else None
  }

  function LeafOfAll<T>(items: seq<Node<T>>, prefix: Index, n: nat, index: Index): Option<T> {
    if prefix < index && n <= index[|prefix|] < n + |items| then
      Leaf(items[index[|prefix|] - n], index[|prefix| + 1..])
    else None
  }

  function OrElse<T>(a: Option<T>, b: Option<T>): Option<T> {
    if a.Some? then a else b
  }

  /** The node fits the dimensions from a level on. */
  ghost predicate FitsIn<T>(dims: seq<nat>, node: Node<T>, i: nat) {
    forall l: nat | i + l < |dims| :: Widest(node, l) <= dims[i + l]
  }

  lemma ItemFitsIn<T>(dims: seq<nat>, items: seq<Node<T>>, i: nat, k: nat)
    requires i < |dims| && k < |items| && FitsIn(dims, Sequence(items), i)
    ensures FitsIn(dims, items[k], i + 1) && |items| <= dims[i]
  {
    assert Widest(Sequence(items), 0) <= dims[i + 0];
    forall l: nat | i + 1 + l < |dims| ensures Widest(items[k], l) <= dims[i + 1 + l] {
      assert Widest(Sequence(items), l + 1) <= dims[i + (l + 1)];
      WidestOfAllBounds(items, l, k);
    }
  }

  predicate AllUniform<T>(items: seq<Node<T>>, depth: nat) {
    forall i | 0 <= i < |items| :: Uniform(items[i], depth)
  }

  ghost predicate AllFitIn<T>(dims: seq<nat>, items: seq<Node<T>>, i: nat) {
    forall k | 0 <= k < |items| :: FitsIn(dims, items[k], i)
  }

  /** The start of an index vector within bounds. */
  predicate PrefixInBounds(dims: seq<nat>, prefix: Index) {
    |prefix| <= |dims| && forall k | 0 <= k < |prefix| :: prefix[k] < dims[k]
  }

  lemma {:induction false} FilledByIsLeaves<T>(dims: seq<nat>, elements: map<Index, T>, item: Node<T>, prefix: Index)
    requires 0 < |prefix| && PrefixInBounds(dims, prefix) && FitsIn(dims, item, |prefix|)
    ensures FilledBy(dims, elements, item, prefix).Some? <==> Uniform(item, |dims| - |prefix|)
    ensures var r := FilledBy(dims, elements, item, prefix);
            r.Some? ==>
              forall index :: Get(r.value, index) == OrElse(LeafUnder(item, prefix, index), Get(elements, index))
    decreases item
  {
    match item
    case Scalar(value) =>
      forall index ensures LeafUnder(item, prefix, index) == if index == prefix then Some(value) else None {
        assert prefix <= index && |index| == |prefix| ==> index == prefix;
      }
    case Sequence(items) =>
      if |prefix| < |dims| {
        assert Widest(item, 0) <= dims[|prefix| + 0];
        forall k | 0 <= k < |items| ensures FitsIn(dims, items[k], |prefix| + 1) {
          ItemFitsIn(dims, items, |prefix|, k);
        }
        FilledIsLeaves(dims, elements, items, prefix, 0);
        forall index ensures LeafUnder(item, prefix, index) == LeafOfAll(items, prefix, 0, index) {
          LeafOfItems(items, prefix, index);
        }
      }
  }

  lemma LeafOfItems<T>(items: seq<Node<T>>, prefix: Index, index: Index)
    ensures LeafUnder(Sequence(items), prefix, index) == LeafOfAll(items, prefix, 0, index)
  {
    if prefix < index {
      assert index[|prefix|..][1..] == index[|prefix| + 1..];
    }
  }

  lemma {:induction false} FilledIsLeaves<T>(dims: seq<nat>, elements: map<Index, T>, items: seq<Node<T>>,
      prefix: Index, n: nat)
    requires PrefixInBounds(dims, prefix) && |prefix| < |dims| && n + |items| <= dims[|prefix|]
    requires AllFitIn(dims, items, |prefix| + 1)
    ensures Filled(dims, elements, items, prefix, n).Some? <==> AllUniform(items, |dims| - |prefix| - 1)
    ensures var r := Filled(dims, elements, items, prefix, n);
            r.Some? ==>
              forall index :: Get(r.value, index) == OrElse(LeafOfAll(items, prefix, n, index), Get(elements, index))
    decreases items
  {
    if items != [] {
      var depth := |dims| - |prefix| - 1;
      FilledByIsLeaves(dims, elements, items[0], prefix + [n]);
      assert AllUniform(items, depth) <==> Uniform(items[0], depth) && AllUniform(items[1..], depth);
      var r := FilledBy(dims, elements, items[0], prefix + [n]);
      if r.Some? {
        FilledIsLeaves(dims, r.value, items[1..], prefix, n + 1);
        forall index
          ensures LeafOfAll(items, prefix, n, index)
                  == OrElse(LeafOfAll(items[1..], prefix, n + 1, index), LeafUnder(items[0], prefix + [n], index))
        {
          LeafOfFirst(items, prefix, n, index);
        }
      }
    }
  }

  lemma LeafOfFirst<T>(items: seq<Node<T>>, prefix: Index, n: nat, index: Index)
    requires items != []
    ensures LeafOfAll(items, prefix, n, index)
            == OrElse(LeafOfAll(items[1..], prefix, n + 1, index), LeafUnder(items[0], prefix + [n], index))
  {
    if prefix < index {
      assert prefix + [n] <= index <==> index[|prefix|] == n;
    }
  }

  lemma {:induction false} UniformIsDeep<T>(node: Node<T>, depth: nat)
    requires Uniform(node, depth)
    ensures Deep(node, depth)
    decreases node
  {
    if node.Sequence? {
      forall i | 0 <= i < |node.items| ensures Deep(node.items[i], depth - 1) {
        UniformIsDeep(node.items[i], depth - 1);
      }
    }
  }

  /**
   * Reading an array of any rank from any nested sequences: it succeeds exactly if all scalars are on the level of the
   * rank, with sequences alone above; every dimension is the greatest number of items on its level; and the elements
   * are exactly the scalars, each at its path.
   */
  lemma ReadsEveryLeaf<T>(items: seq<Node<T>>, rank: nat)
    requires rank > 0
    ensures ToArray(items, rank).Some? <==> Uniform(Sequence(items), rank)
    ensures var r := ToArray(items, rank);
            r.Some? ==>
              && |r.value.0| == rank
              && (forall level | 0 <= level < rank :: Greatest(Sequence(items), level, r.value.0[level]))
              && forall index :: Get(r.value.1, index) == Leaf(Sequence(items), index)
  {
    var node := Sequence(items);
    var lengths := Lengths(node, 0, Zeros(rank));
    LengthsAreGreatest(node, 0, Zeros(rank));
    if Uniform(node, rank) {
      UniformIsDeep(node, rank);
    }
    if lengths.Some? {
      var dims := lengths.value;
      forall level | 0 <= level < rank ensures dims[level] == Widest(node, level) {}
      forall level | 0 <= level < rank ensures Greatest(node, level, dims[level]) {
        WidestIsGreatest(node, level);
      }
      forall k | 0 <= k < |items| ensures FitsIn(dims, items[k], 1) {
        ItemFitsIn(dims, items, 0, k);
      }
      assert Widest(node, 0) == |items|;
      FilledIsLeaves(dims, map[], items, [], 0);
      forall index ensures Leaf(node, index) == LeafOfAll(items, [], 0, index) {}
    }
  }
}
