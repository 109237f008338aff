/** Writing an array as nested sequences and reading it back. */
module ArrayRoundTrip {
  import opened Wrappers
  import opened NestedArrays

  /** A dimension after a zero one cannot be seen in nested sequences. */
  ghost predicate ZeroBetween(dims: seq<nat>, i: nat, k: nat) {
    exists j :: i <= j < k && j < |dims| && dims[j] == 0
  }

  ghost function Seen(dims: seq<nat>, i: nat, k: nat): nat
    requires k < |dims|
  {
    if ZeroBetween(dims, i, k) then 0 else dims[k]
  }

  ghost function SeenDims(dims: seq<nat>): seq<nat> {
    seq(|dims|, k requires 0 <= k < |dims| => Seen(dims, 0, k))
  }

  /** Lengths raised to what is seen of the dimensions from level `i` on. */
  ghost predicate RaisedFrom(lengths: seq<nat>, raised: seq<nat>, dims: seq<nat>, i: nat) {
    |lengths| == |raised| == |dims|
    && forall k | 0 <= k < |dims| :: raised[k] == if k < i then lengths[k] else Max(lengths[k], Seen(dims, i, k))
  }

  lemma {:induction false} LengthsOfMore<T>(items: seq<Node<T>>, item: Node<T>, i: nat, lengths: seq<nat>)
    requires i < |lengths|
    ensures LengthsOfAll(items + [item], i, lengths)
            == var r := LengthsOfAll(items, i, lengths); if r.None? then None else Lengths(item, i, r.value)
    decreases |items|
  {
    if items == [] {
      assert items + [item] == [item];
    } else {
      assert (items + [item])[1..] == items[1..] + [item];
      var r := Lengths(items[0], i, lengths);
      if r.Some? {
        LengthsOfMore(items[1..], item, i, r.value);
      }
    }
  }

  /** Measuring the node for a part of an array. */
  lemma {:induction false} NodeIsMeasured<T>(dims: seq<nat>, elements: map<Index, T>, prefix: Index, lengths: seq<nat>)
    requires IsPrefix(dims, prefix) && IsFull(dims, elements) && |lengths| == |dims|
    ensures var r := Lengths(NodeOf(dims, elements, prefix), |prefix|, lengths);
            r.Some? && RaisedFrom(lengths, r.value, dims, |prefix|)
    decreases |dims| - |prefix|, 1
  {
    var i := |prefix|;
    var items := ItemsOf(dims, elements, prefix, dims[i]);
    var raised := lengths[i := Max(lengths[i], |items|)];
    if i < |dims| - 1 {
      ItemsAreMeasured(dims, elements, prefix, dims[i], raised);
      forall k | i < k < |dims| ensures Seen(dims, i, k) == if dims[i] == 0 then 0 else Seen(dims, i + 1, k) {
        SeenNext(dims, i, k);
      }
    }
  }

  lemma SeenNext(dims: seq<nat>, i: nat, k: nat)
    requires i < k < |dims|
    ensures Seen(dims, i, k) == if dims[i] == 0 then 0 else Seen(dims, i + 1, k)
  {}

  lemma {:induction false} ItemsAreMeasured<T>(dims: seq<nat>, elements: map<Index, T>, prefix: Index, n: nat,
      lengths: seq<nat>)
    requires IsPrefix(dims, prefix) && IsFull(dims, elements) && |lengths| == |dims|
    requires |prefix| < |dims| - 1 && n <= dims[|prefix|]
    ensures var r := LengthsOfAll(ItemsOf(dims, elements, prefix, n), |prefix| + 1, lengths);
            r.Some? && if n == 0 then r.value == lengths else RaisedFrom(lengths, r.value, dims, |prefix| + 1)
    decreases |dims| - |prefix|, 0, n
  {
    if n > 0 {
      ItemsAreMeasured(dims, elements, prefix, n - 1, lengths);
      var before := LengthsOfAll(ItemsOf(dims, elements, prefix, n - 1), |prefix| + 1, lengths).value;
      LengthsOfMore(ItemsOf(dims, elements, prefix, n - 1),
        ItemOf(dims, elements, prefix + [n - 1]), |prefix| + 1, lengths);
      NodeIsMeasured(dims, elements, prefix + [n - 1], before);
    }
  }

  lemma {:induction false} FilledMore<T>(dims: seq<nat>, elements: map<Index, T>, items: seq<Node<T>>, item: Node<T>,
      prefix: Index, n: nat)
    requires |prefix| < |dims|
    ensures Filled(dims, elements, items + [item], prefix, n)
            == var r := Filled(dims, elements, items, prefix, n);
               if r.None? then None else FilledBy(dims, r.value, item, prefix + [n + |items|])
    decreases |items|
  {
    if items == [] {
      assert items + [item] == [item];
    } else {
      assert (items + [item])[1..] == items[1..] + [item];
      var r := FilledBy(dims, elements, items[0], prefix + [n]);
      if r.Some? {
        FilledMore(dims, r.value, items[1..], item, prefix, n + 1);
      }
    }
  }

  /** The elements whose index vectors start with `prefix`, the next index being less than `n`, have been added. */
  ghost predicate Adds<T>(before: map<Index, T>, after: map<Index, T>, dims: seq<nat>, elements: map<Index, T>,
      prefix: Index, n: nat)
    requires IsFull(dims, elements)
  {
    forall index: Index ::
      if Under(dims, prefix, n, index) then index in after && after[index] == elements[index]
      else (index in after <==> index in before) && (index in after ==> after[index] == before[index])
  }

  predicate Under(dims: seq<nat>, prefix: Index, n: nat, index: Index) {
    InBounds(dims, index) && prefix <= index && (|prefix| < |index| ==> index[|prefix|] < n)
  }

  lemma {:induction false} ItemsAreFilled<T>(dims: seq<nat>, elements: map<Index, T>, prefix: Index, n: nat,
      seen: seq<nat>, before: map<Index, T>)
    requires IsPrefix(dims, prefix) && IsFull(dims, elements) && n <= dims[|prefix|] && |seen| == |dims|
    requires forall index | InBounds(dims, index) :: InBounds(seen, index)
    ensures var r := Filled(seen, before, ItemsOf(dims, elements, prefix, n), prefix, 0);
            r.Some? && Adds(before, r.value, dims, elements, prefix, n)
    decreases |dims| - |prefix|, 0, n
  {
    if n > 0 {
      var next := prefix + [n - 1];
      ItemsAreFilled(dims, elements, prefix, n - 1, seen, before);
      var middle := Filled(seen, before, ItemsOf(dims, elements, prefix, n - 1), prefix, 0).value;
      FilledMore(seen, before, ItemsOf(dims, elements, prefix, n - 1), ItemOf(dims, elements, next), prefix, 0);
      ItemIsFilled(dims, elements, next, seen, middle);
      forall index ensures Under(dims, prefix, n, index)
        <==> Under(dims, prefix, n - 1, index) || Below(dims, next, index) {
        UnderNext(dims, prefix, n, index);
      }
    }
  }

  /** An index vector that starts with the given one. */
  predicate Below(dims: seq<nat>, prefix: Index, index: Index) {
    InBounds(dims, index) && prefix <= index
  }

  lemma UnderNext(dims: seq<nat>, prefix: Index, n: nat, index: Index)
    requires n > 0 && |prefix| < |dims|
    ensures Under(dims, prefix, n, index) <==> Under(dims, prefix, n - 1, index) || Below(dims, prefix + [n - 1], index)
  {}

  lemma {:induction false} ItemIsFilled<T>(dims: seq<nat>, elements: map<Index, T>, prefix: Index, seen: seq<nat>,
      before: map<Index, T>)
    requires IsFull(dims, elements) && |seen| == |dims| && prefix != []
    requires if |prefix| == |dims| then InBounds(dims, prefix) else IsPrefix(dims, prefix)
    requires forall index | InBounds(dims, index) :: InBounds(seen, index)
    ensures var r := FilledBy(seen, before, ItemOf(dims, elements, prefix), prefix);
            r.Some? && forall index: Index ::
              if Below(dims, prefix, index) then index in r.value && r.value[index] == elements[index]
              else (index in r.value <==> index in before) && (index in r.value ==> r.value[index] == before[index])
    decreases |dims| - |prefix|, 1
  {
    if |prefix| < |dims| {
      ItemsAreFilled(dims, elements, prefix, dims[|prefix|], seen, before);
      assert forall index :: Below(dims, prefix, index) <==> Under(dims, prefix, dims[|prefix|], index);
    } else {
      forall index | Below(dims, prefix, index) ensures index == prefix {}
    }
  }

  /** The array that is read back: its dimensions are those that are seen, and it has every element of the original. */
  lemma ReadBack<T>(dims: seq<nat>, elements: map<Index, T>)
    requires |dims| > 0 && IsFull(dims, elements)
    ensures var r := ToArray(NodeOf(dims, elements, []).items, |dims|);
            && r.Some? && r.value.0 == SeenDims(dims)
            && forall index :: (index in r.value.1 <==> InBounds(dims, index))
                               && (index in r.value.1 ==> r.value.1[index] == elements[index])
  {
    NodeIsMeasured(dims, elements, [], Zeros(|dims|));
    var lengths := Lengths(NodeOf(dims, elements, []), 0, Zeros(|dims|)).value;
    assert lengths == SeenDims(dims);
    forall index | InBounds(dims, index) ensures InBounds(SeenDims(dims), index) {
      assert forall j | 0 <= j < |dims| :: index[j] < dims[j];
    }
    ItemsAreFilled(dims, elements, [], dims[0], SeenDims(dims), map[]);
    assert forall index :: Under(dims, [], dims[0], index) <==> InBounds(dims, index);
  }

  /** Every zero dimension is followed by zero dimensions only. */
  ghost predicate ZerosLast(dims: seq<nat>) {
    forall j, k | 0 <= j < k < |dims| :: dims[j] == 0 ==> dims[k] == 0
  }

  /**
   * The dimensions come back exactly when each zero dimension is followed only by zero ones; the elements always do.
   */
  lemma RoundTrip<T>(dims: seq<nat>, elements: map<Index, T>)
    requires |dims| > 0 && forall index :: index in elements <==> InBounds(dims, index)
    ensures var r := ToArray(NodeOf(dims, elements, []).items, |dims|);
            && r.Some? && r.value.1 == elements
            && (r.value.0 == dims <==> ZerosLast(dims))
            && forall index :: InBounds(r.value.0, index) <==> InBounds(dims, index)
  {
    ReadBack(dims, elements);
    var r := ToArray(NodeOf(dims, elements, []).items, |dims|);
    assert r.value.1 == elements;
    if ZerosLast(dims) {
      assert SeenDims(dims) == dims;
    } else {
      var j, k :| 0 <= j < k < |dims| && dims[j] == 0 && dims[k] != 0;
      assert SeenDims(dims)[k] == 0;
    }
    forall index ensures InBounds(SeenDims(dims), index) <==> InBounds(dims, index) {
      SameBounds(dims, index);
    }
  }

  lemma SameBounds(dims: seq<nat>, index: Index)
    ensures InBounds(SeenDims(dims), index) <==> InBounds(dims, index)
  {
    if InBounds(SeenDims(dims), index) {
      forall k | 0 <= k < |dims| ensures index[k] < dims[k] {
        assert SeenDims(dims)[k] <= dims[k];
      }
    }
    if InBounds(dims, index) {
      forall k | 0 <= k < |dims| ensures index[k] < SeenDims(dims)[k] {
        assert forall j | 0 <= j < |dims| :: index[j] < dims[j];
      }
    }
  }
}
