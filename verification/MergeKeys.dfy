/** Merge keys: when a mapping has been loaded, the entries of other mappings fill it up. */
module MergeKeys {
  import opened Wrappers

  datatype Key = Key(tag: string, value: string)

  datatype Node = Scalar(text: string) | Sequence(items: seq<Node>) | Mapping(entries: seq<Entry>)

  datatype Entry = Entry(key: Key, value: Node)

  const MERGE := "!!merge"

  /** The value of a key. */
  function Lookup(entries: seq<Entry>, k: Key): (v: Option<Node>)
    ensures v.Some? <==> exists i :: 0 <= i < |entries| && entries[i].key == k
  {
    if entries == [] then None
    else if entries[0].key == k then Some(entries[0].value)
    else Lookup(entries[1..], k)
  }

  ghost predicate Unique(entries: seq<Entry>) {
    forall i, j | 0 <= i < j < |entries| :: entries[i].key != entries[j].key
  }

  function OrElse(a: Option<Node>, b: Option<Node>): Option<Node> {
    if a.Some? then a else b
  }

  lemma {:induction false} LookupInBoth(a: seq<Entry>, b: seq<Entry>, k: Key)
    ensures Lookup(a + b, k) == OrElse(Lookup(a, k), Lookup(b, k))
  {
    if a == [] {
      assert a + b == b;
    } else {
      assert (a + b)[1..] == a[1..] + b;
      LookupInBoth(a[1..], b, k);
    }
  }

  /** The value of a key in the first of the mappings listed that has it. */
  function FirstListed(listed: seq<Node>, k: Key): Option<Node> {
    if listed == [] then None
    else OrElse(if listed[0].Mapping? then Lookup(listed[0].entries, k) else None, FirstListed(listed[1..], k))
  }

  lemma {:induction false} FirstListedMore(listed: seq<Node>, item: Node, k: Key)
    ensures FirstListed(listed + [item], k)
            == OrElse(FirstListed(listed, k), if item.Mapping? then Lookup(item.entries, k) else None)
  {
    if listed == [] {
      assert listed + [item] == [item];
    } else {
      assert (listed + [item])[1..] == listed[1..] + [item];
      FirstListedMore(listed[1..], item, k);
    }
  }

  /** What the merge key lists: a mapping, the items of a sequence; anything else is ignored. */
  function Listed(value: Node): seq<Node> {
    match value
    case Mapping(_) => [value]
    case Sequence(items) => items
    case Scalar(_) => []
  }

  class YamlMapping {
    var entries: seq<Entry>

    constructor (entries: seq<Entry>)
      requires Unique(entries)
      ensures this.entries == entries
    {
      this.entries := entries;
    }

    method ContainsKey(k: Key) returns (yes: bool)
      ensures yes == Lookup(entries, k).Some?
    {
      var i := 0;
      while i < |entries| && entries[i].key != k
        invariant i <= |entries| && forall j | 0 <= j < i :: entries[j].key != k
      {
        i := i + 1;
      }
      return i < |entries|;
    }

    method Add(e: Entry)
      requires Unique(entries) && Lookup(entries, e.key) == None
      modifies this
      ensures Unique(entries) && entries == old(entries) + [e]
    {
      entries := entries + [e];
    }

    /** Removes the i-th entry. */
    method RemoveAt(i: nat)
      requires Unique(entries) && i < |entries|
      modifies this
      ensures Unique(entries)
      ensures forall k :: Lookup(entries, k) == if k == old(entries)[i].key then None else Lookup(old(entries), k)
    {
      ghost var all := entries;
      entries := entries[..i] + entries[i + 1..];
      forall k ensures Lookup(entries, k) == if k == all[i].key then None else Lookup(all, k) {
        RemovedLookup(all, i, k);
      }
    }

    /** Adds the entries of another mapping whose keys are not there yet. */
    method Merge(other: seq<Entry>)
      requires Unique(entries)
      modifies this
      ensures Unique(entries)
      ensures forall k :: Lookup(entries, k) == OrElse(Lookup(old(entries), k), Lookup(other, k))
    {
      for i := 0 to |other|
        invariant Unique(entries)
        invariant forall k :: Lookup(entries, k) == OrElse(Lookup(old(entries), k), Lookup(other[..i], k))
      {
        var e := other[i];
        ghost var before := entries;
        var contained := ContainsKey(e.key);
        if !contained {
          Add(e);
        }
        forall k ensures Lookup(entries, k) == OrElse(Lookup(old(entries), k), Lookup(other[..i + 1], k)) {
          assert other[..i + 1] == other[..i] + [e];
          LookupInBoth(other[..i], [e], k);
          LookupInBoth(before, [e], k);
        }
      }
      assert other[..|other|] == other;
    }

    /** Looks for the first key with the merge tag; the entries of what it lists are added after it has been removed. */
    method ProcessMergeKey()
      requires Unique(entries)
      modifies this
      ensures Unique(entries)
      ensures MergedFrom(entries, old(entries)) && Merges(entries, old(entries))
    {
      var i := 0;
      while i < |entries| && entries[i].key.tag != MERGE
        invariant i <= |entries| && forall j | 0 <= j < i :: entries[j].key.tag != MERGE
      {
        i := i + 1;
      }
      if i == |entries| || entries[i].value.Scalar? {
        assert forall x: nat | IsFirstMerge(entries, x) :: x == i;
        MergedMeans(entries, entries);
        return;
      }
      var listed := Listed(entries[i].value);
      ghost var own := entries;
      RemoveAt(i);
      ghost var left := entries;
      for j := 0 to |listed|
        invariant Unique(entries)
        invariant forall k :: Lookup(entries, k) == OrElse(Lookup(left, k), FirstListed(listed[..j], k))
      {
        ghost var before := entries;
        if listed[j].Mapping? {
          Merge(listed[j].entries);
        }
        forall k ensures Lookup(entries, k) == OrElse(Lookup(left, k), FirstListed(listed[..j + 1], k)) {
          assert listed[..j + 1] == listed[..j] + [listed[j]];
          FirstListedMore(listed[..j], listed[j], k);
        }
      }
      assert listed[..|listed|] == listed;
      assert IsFirstMerge(own, i);
      MergedMeans(entries, own);
    }
  }

  ghost predicate IsFirstMerge(entries: seq<Entry>, i: nat) {
    i < |entries| && entries[i].key.tag == MERGE && forall j | 0 <= j < i :: entries[j].key.tag != MERGE
  }

  /**
   * Every key has its own value if it has one, else that of the first listed mapping which has it. The merge key itself
   * is gone, unless a listed mapping has one; without a merge key, or with a scalar for it, nothing has changed.
   */
  ghost predicate MergedFrom(entries: seq<Entry>, own: seq<Entry>) {
    if exists i: nat :: IsFirstMerge(own, i) && !own[i].value.Scalar? then
      exists i: nat :: IsFirstMerge(own, i) && !own[i].value.Scalar? && forall k ::
        Lookup(entries, k) == OrElse(
               if k == own[i].key then None else Lookup(own, k), FirstListed(Listed(own[i].value), k))
    else entries == own
  }

  /** The first entry with a key has this value. */
  ghost predicate ValueOf(entries: seq<Entry>, k: Key, v: Node) {
    exists i :: 0 <= i < |entries| && entries[i] == Entry(k, v) && forall j | 0 <= j < i :: entries[j].key != k
  }

  ghost predicate HasKey(entries: seq<Entry>, k: Key) {
    exists i :: 0 <= i < |entries| && entries[i].key == k
  }

  /** The j-th item is the first one that is a mapping with the key, and this is the value there. */
  ghost predicate SuppliedBy(items: seq<Node>, k: Key, v: Node, j: nat) {
    && j < |items| && items[j].Mapping? && ValueOf(items[j].entries, k, v)
    && forall i | 0 <= i < j :: items[i].Mapping? ==> !HasKey(items[i].entries, k)
  }

  /** A mapping supplies its own values; a sequence, for every key, the value of its first mapping that has it. */
  ghost predicate Supplies(value: Node, k: Key, v: Node) {
    match value
    case Scalar(_) => false
    case Mapping(entries) => ValueOf(entries, k, v)
    case Sequence(items) => exists j :: SuppliedBy(items, k, v, j)
  }

  /** What merging promises: every other own entry stays, and a key without one gets what the merge key supplies. */
  ghost predicate Merges(entries: seq<Entry>, own: seq<Entry>) {
    && ((forall i: nat :: !IsFirstMerge(own, i)) ==> entries == own)
    && forall i: nat | IsFirstMerge(own, i) :: MergesAt(entries, own, i)
  }

  ghost predicate MergesAt(entries: seq<Entry>, own: seq<Entry>, i: nat)
    requires i < |own|
  {
    if own[i].value.Scalar? then entries == own
    else
      forall k, v :: ValueOf(entries, k, v) <==>
        if k != own[i].key && HasKey(own, k) then ValueOf(own, k, v) else Supplies(own[i].value, k, v)
  }

  lemma {:induction false} LookupIsValueOf(entries: seq<Entry>, k: Key, v: Node)
    ensures Lookup(entries, k) == Some(v) <==> ValueOf(entries, k, v)
  {
    if entries != [] && entries[0].key != k {
      LookupIsValueOf(entries[1..], k, v);
      if ValueOf(entries, k, v) {
        var i :| 0 <= i < |entries| && entries[i] == Entry(k, v) && forall j | 0 <= j < i :: entries[j].key != k;
        assert entries[1..][i - 1] == Entry(k, v);
      }
      if ValueOf(entries[1..], k, v) {
        var i :| 0 <= i < |entries| - 1 && entries[1..][i] == Entry(k, v)
                 && forall j | 0 <= j < i :: entries[1..][j].key != k;
        assert entries[i + 1] == Entry(k, v);
      }
    }
  }

  lemma {:induction false} FirstListedIsSupplied(items: seq<Node>, k: Key, v: Node)
    ensures FirstListed(items, k) == Some(v) <==> exists j :: SuppliedBy(items, k, v, j)
  {
    if items != [] {
      var rest := items[1..];
      FirstListedIsSupplied(rest, k, v);
      if items[0].Mapping? && HasKey(items[0].entries, k) {
        LookupIsValueOf(items[0].entries, k, v);
        assert ValueOf(items[0].entries, k, v) ==> SuppliedBy(items, k, v, 0);
      } else {
        assert forall j: nat :: SuppliedBy(rest, k, v, j) ==> SuppliedBy(items, k, v, j + 1);
        assert forall j: nat :: SuppliedBy(items, k, v, j) ==> j > 0 && SuppliedBy(rest, k, v, j - 1);
      }
    }
  }

  lemma ListedIsSupplied(value: Node, k: Key, v: Node)
    ensures FirstListed(Listed(value), k) == Some(v) <==> Supplies(value, k, v)
  {
    FirstListedIsSupplied(Listed(value), k, v);
    if value.Mapping? {
      assert FirstListed([value], k) == OrElse(Lookup(value.entries, k), FirstListed([], k));
      LookupIsValueOf(value.entries, k, v);
    }
  }

  lemma MergedMeans(entries: seq<Entry>, own: seq<Entry>)
    requires MergedFrom(entries, own)
    ensures Merges(entries, own)
  {
    forall i: nat | IsFirstMerge(own, i) ensures MergesAt(entries, own, i) {
      assert forall x: nat | IsFirstMerge(own, x) :: x == i;
      if !own[i].value.Scalar? {
        forall k, v ensures ValueOf(entries, k, v) <==>
                            if k != own[i].key && HasKey(own, k) then ValueOf(own, k, v)
                            else Supplies(own[i].value, k, v)
        {
          LookupIsValueOf(entries, k, v);
          LookupIsValueOf(own, k, v);
          ListedIsSupplied(own[i].value, k, v);
        }
      }
    }
  }

  lemma {:induction false} RemovedLookup(all: seq<Entry>, i: nat, k: Key)
    requires Unique(all) && i < |all|
    ensures Lookup(all[..i] + all[i + 1..], k) == if k == all[i].key then None else Lookup(all, k)
  {
    LookupInBoth(all[..i], all[i + 1..], k);
    LookupInBoth(all[..i], all[i..], k);
    assert all == all[..i] + all[i..];
    assert all[i..][1..] == all[i + 1..];
    if k == all[i].key {
      assert Lookup(all[..i], k) == None && Lookup(all[i + 1..], k) == None;
    }
  }
}
