/** Arrays of any rank written as nested sequences, and nested sequences measured and read back into an array. */
module NestedArrays {
  import opened Wrappers

  datatype Node<T> = Scalar(value: T) | Sequence(items: seq<Node<T>>)

  type Index = seq<nat>

  /** An index vector of an array with these dimensions. */
  predicate InBounds(dims: seq<nat>, index: Index) {
    |index| == |dims| && forall k | 0 <= k < |dims| :: index[k] < dims[k]
  }

  class NdArray<T> {
    const dims: seq<nat>
    var elements: map<Index, T>

    constructor (dims: seq<nat>, elements: map<Index, T>)
      ensures this.dims == dims && this.elements == elements
    {
      this.dims, this.elements := dims, elements;
    }

    /** Setting an element out of bounds is an error. */
    method SetValue(value: T, index: Index) returns (ok: bool)
      modifies this
      ensures ok == InBounds(dims, index)
      ensures elements == if ok then old(elements)[index := value] else old(elements)
    {
      if !InBounds(dims, index) {
        return false;
      }
      elements := elements[index := value];
      return true;
    }
  }

  /** All elements are in the map. */
  ghost predicate IsFull<T>(dims: seq<nat>, elements: map<Index, T>) {
    forall index | InBounds(dims, index) :: index in elements
  }

  /** The start of an index vector. */
  predicate IsPrefix(dims: seq<nat>, prefix: Index) {
    |prefix| < |dims| && forall k | 0 <= k < |prefix| :: prefix[k] < dims[k]
  }

  /** The node for the part of an array whose index vectors start with `prefix`. */
  ghost function NodeOf<T>(dims: seq<nat>, elements: map<Index, T>, prefix: Index): Node<T>
    requires IsPrefix(dims, prefix) && IsFull(dims, elements)
    decreases |dims| - |prefix|, 1
  {
    Sequence(ItemsOf(dims, elements, prefix, dims[|prefix|]))
  }

  /** The first `n` items of that node. */
  ghost function ItemsOf<T>(dims: seq<nat>, elements: map<Index, T>, prefix: Index, n: nat): (items: seq<Node<T>>)
    requires IsPrefix(dims, prefix) && IsFull(dims, elements) && n <= dims[|prefix|]
    ensures |items| == n
    decreases |dims| - |prefix|, 0, n
  {
    if n == 0 then []
    else ItemsOf(dims, elements, prefix, n - 1) + [ItemOf(dims, elements, prefix + [n - 1])]
  }

  ghost function ItemOf<T>(dims: seq<nat>, elements: map<Index, T>, prefix: Index): Node<T>
    requires IsFull(dims, elements) && (if |prefix| == |dims| then InBounds(dims, prefix) else IsPrefix(dims, prefix))
    decreases |dims| - |prefix|, 2
  {
    if |prefix| == |dims| then Scalar(elements[prefix]) else NodeOf(dims, elements, prefix)
  }

  method CreateArrayNode<T>(a: NdArray<T>) returns (node: Node<T>)
    requires |a.dims| > 0 && IsFull(a.dims, a.elements)
    ensures node == NodeOf(a.dims, a.elements, [])
  {
    var indices := new nat[|a.dims|](_ => 0);
    assert indices[..0] == [];
    node := CreateArrayNodeSub(a, 0, indices);
  }

  /** All levels of the recursion share one index vector: each counts in its own place. */
  method CreateArrayNodeSub<T>(a: NdArray<T>, i: nat, indices: array<nat>) returns (node: Node<T>)
    requires indices.Length == |a.dims| && i < indices.Length
    requires IsPrefix(a.dims, indices[..i]) && IsFull(a.dims, a.elements)
    modifies indices
    ensures indices[..i] == old(indices[..i]) && node == NodeOf(a.dims, a.elements, indices[..i])
    decreases indices.Length - i
  {
    ghost var prefix := indices[..i];
    var items := [];
    indices[i] := 0;
    while indices[i] < a.dims[i]
      invariant indices[i] <= a.dims[i] && indices[..i] == prefix
      invariant items == ItemsOf(a.dims, a.elements, prefix, indices[i])
      decreases a.dims[i] - indices[i]
    {
      assert indices[..i + 1] == prefix + [indices[i]];
      ghost var n := indices[i];
      if i == indices.Length - 1 {
        assert indices[..] == indices[..i + 1];
        items := items + [Scalar(a.elements[indices[..]])];
      } else {
        var s := CreateArrayNodeSub(a, i + 1, indices);
        assert indices[..i + 1][..i] == indices[..i] && indices[..i + 1][i] == indices[i];
        items := items + [s];
      }
      indices[i] := indices[i] + 1;
    }
    node := Sequence(items);
  }

  function Max(a: nat, b: nat): nat {
    if a < b then b else a
  }

  /**
   * Lengths raised to those of a sequence at level `i` and of what is in it; a scalar where a sequence must be is an
   * error.
   */
  function Lengths<T>(node: Node<T>, i: nat, lengths: seq<nat>): (r: Option<seq<nat>>)
    requires i < |lengths|
    ensures r.Some? ==> |r.value| == |lengths|
    decreases node
  {
    match node
    case Scalar(_) => None
    case Sequence(items) =>
      var raised := lengths[i := Max(lengths[i], |items|)];
      if i < |lengths| - 1 then LengthsOfAll(items, i + 1, raised) else Some(raised)
  }

  function LengthsOfAll<T>(items: seq<Node<T>>, i: nat, lengths: seq<nat>): (r: Option<seq<nat>>)
    requires i < |lengths|
    ensures r.Some? ==> |r.value| == |lengths|
    decreases items
  {
    if items == [] then Some(lengths)
    else
      var r := Lengths(items[0], i, lengths);
      if r.None? then None else LengthsOfAll(items[1..], i, r.value)
  }

  method GetLengthes<T>(node: Node<T>, i: nat, lengthes: array<nat>) returns (ok: bool)
    requires i < lengthes.Length
    modifies lengthes
    ensures var r := Lengths(node, i, old(lengthes[..])); ok == r.Some? && (ok ==> lengthes[..] == r.value)
    decreases node
  {
    if node.Scalar? {
      return false;
    }
    ghost var raised := lengthes[..][i := Max(lengthes[i], |node.items|)];
    lengthes[i] := Max(lengthes[i], |node.items|);
    assert lengthes[..] == raised;
    if i < lengthes.Length - 1 {
      ghost var all := LengthsOfAll(node.items, i + 1, lengthes[..]);
      for j := 0 to |node.items|
        invariant all == LengthsOfAll(node.items[j..], i + 1, lengthes[..])
      {
        assert node.items[j..][0] == node.items[j] && node.items[j..][1..] == node.items[j + 1..];
        var good := GetLengthes(node.items[j], i + 1, lengthes);
        if !good {
          return false;
        }
      }
    }
    return true;
  }

  /** Elements set from the items of a sequence, from the n-th on; the index vectors start with `prefix`. */
  function Filled<T>(dims: seq<nat>, elements: map<Index, T>, items: seq<Node<T>>, prefix: Index,
      n: nat): Option<map<Index, T>>
    requires |prefix| < |dims|
    decreases items
  {
    if items == [] then Some(elements)
    else
      var r := FilledBy(dims, elements, items[0], prefix + [n]);
      if r.None? then None else Filled(dims, r.value, items[1..], prefix, n + 1)
  }

  /** Elements set from one item: a sequence on the levels before the last, an element on the last one. */
  function FilledBy<T>(dims: seq<nat>, elements: map<Index, T>, item: Node<T>, prefix: Index): Option<map<Index, T>>
    requires 0 < |prefix| <= |dims|
    decreases item
  {
    match item
    case Sequence(items) => if |prefix| < |dims| then Filled(dims, elements, items, prefix, 0) else None
    case Scalar(value) => if InBounds(dims, prefix) then Some(elements[prefix := value]) else None
  }

  method SetArrayElements<T>(a: NdArray<T>, items: seq<Node<T>>, i: nat, indices: array<nat>) returns (ok: bool)
    requires indices.Length == |a.dims| && i < indices.Length
    modifies a, indices
    ensures indices[..i] == old(indices[..i])
    ensures var r := Filled(a.dims, old(a.elements), items, old(indices[..i]), 0);
            ok == r.Some? && (ok ==> a.elements == r.value)
    decreases items
  {
    ghost var prefix := indices[..i];
    ghost var all := Filled(a.dims, a.elements, items, prefix, 0);
    indices[i] := 0;
    while indices[i] < |items|
      invariant indices[i] <= |items| && indices[..i] == prefix
      invariant all == Filled(a.dims, a.elements, items[indices[i]..], prefix, indices[i])
      decreases |items| - indices[i]
    {
      var n := indices[i];
      assert items[n..][0] == items[n] && items[n..][1..] == items[n + 1..];
      assert indices[..i + 1] == prefix + [n];
      ok := SetItem(a, items[n], i, indices);
      if !ok {
        return false;
      }
      indices[i] := indices[i] + 1;
    }
    return true;
  }

  /** Sets what one item holds. */
  method SetItem<T>(a: NdArray<T>, item: Node<T>, i: nat, indices: array<nat>) returns (ok: bool)
    requires indices.Length == |a.dims| && i < indices.Length
    modifies a, indices
    ensures indices[..i + 1] == old(indices[..i + 1])
    ensures var r := FilledBy(a.dims, old(a.elements), item, old(indices[..i + 1]));
            ok == r.Some? && (ok ==> a.elements == r.value)
    decreases item
  {
    if i < indices.Length - 1 {
      if item.Scalar? {
        assert !InBounds(a.dims, indices[..i + 1]);
        return false;
      }
      ok := SetArrayElements(a, item.items, i + 1, indices);
    } else {
      assert indices[..] == indices[..i + 1];
      if item.Sequence? {
        return false;
      }
      ok := a.SetValue(item.value, indices[..]);
    }
  }

  function Zeros(rank: nat): seq<nat> {
    seq(rank, _ => 0)
  }

  /** The dimensions and elements of the array read from a sequence. */
  function ToArray<T>(items: seq<Node<T>>, rank: nat): Option<(seq<nat>, map<Index, T>)>
    requires rank > 0
  {
    var lengths := Lengths(Sequence(items), 0, Zeros(rank));
    if lengths.None? then None
    else
      var elements := Filled(lengths.value, map[], items, [], 0);
      if elements.None? then None else Some((lengths.value, elements.value))
  }

  /** Reads an array of the given rank from a sequence; the array has no elements before they are set. */
  method SequenceToObject<T>(items: seq<Node<T>>, rank: nat) returns (a: NdArray?<T>)
    requires rank > 0
    ensures var r := ToArray(items, rank);
            (a != null <==> r.Some?) && (a != null ==> fresh(a) && (a.dims, a.elements) == r.value)
  {
    var lengthes := new nat[rank](_ => 0);
    assert lengthes[..] == Zeros(rank);
    var ok := GetLengthes(Sequence(items), 0, lengthes);
    if !ok {
      return null;
    }
    a := new NdArray(lengthes[..], map[]);
    var indices := new nat[rank](_ => 0);
    assert indices[..0] == [];
    ok := SetArrayElements(a, items, 0, indices);
    if !ok {
      return null;
    }
  }
}
