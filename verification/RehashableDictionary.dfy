/** A dictionary that finds its keys by hash and moves them to another bucket when their content changes. */
module RehashableDictionary {
  import opened Wrappers

  /** What a key is compared by. Equal contents have equal hashes; unequal ones may share a hash. */
  datatype Content = Content(hash: int, value: int)

  class Key {
    var content: Content

    constructor (content: Content)
      ensures this.content == content
    {
      this.content := content;
    }

    predicate Equals(other: Key)
      reads this, other
    {
      content == other.content
    }
  }

  datatype KeyValue<V> = KeyValue(key: Key, value: V)

  /** A bucket holds one entry as it is, or a list of several. */
  datatype Bucket<V> = One(kv: KeyValue<V>) | Several(list: seq<KeyValue<V>>)

  function EntriesOf<V>(bucket: Bucket<V>): seq<KeyValue<V>> {
    match bucket case One(kv) => [kv] case Several(list) => list
  }

  /** Entries of the bucket of a hash. */
  function At<V>(items: map<int, Bucket<V>>, hash: int): seq<KeyValue<V>> {
    if hash in items then EntriesOf(items[hash]) else []
  }

  /** Every bucket is in use, and is a list exactly when it holds several entries. */
  ghost predicate Shaped<V>(items: map<int, Bucket<V>>) {
    forall h | h in items :: items[h].Several? ==> |items[h].list| >= 2
  }

  /** An entry of the bucket of `h` is the one the model has for its key, recorded under that hash. */
  ghost predicate Recorded<V>(kv: KeyValue<V>, hashes: map<Key, int>, model: map<Key, V>, h: int) {
    kv.key in hashes && hashes[kv.key] == h && kv.key in model && model[kv.key] == kv.value
  }

  ghost predicate HasKey<V>(entries: seq<KeyValue<V>>, k: Key) {
    exists i :: 0 <= i < |entries| && entries[i].key == k
  }

  /** The entries are those of the keys recorded under `h`, each once. */
  ghost predicate BucketHolds<V>(entries: seq<KeyValue<V>>, hashes: map<Key, int>, model: map<Key, V>, h: int) {
    && (forall i | 0 <= i < |entries| :: Recorded(entries[i], hashes, model, h))
    && (forall i, j | 0 <= i < j < |entries| :: entries[i].key != entries[j].key)
    && (forall k | k in hashes && hashes[k] == h :: HasKey(entries, k))
  }

  /** The two tables agree with each other and with the model: each key sits once, in the bucket of its hash. */
  ghost predicate Tables<V>(items: map<int, Bucket<V>>, hashes: map<Key, int>, model: map<Key, V>) {
    && Shaped(items) && hashes.Keys == model.Keys
    && forall h :: BucketHolds(At(items, h), hashes, model, h)
  }

  /** Puts an entry at the end of the bucket of a hash. */
  function Put<V>(items: map<int, Bucket<V>>, h: int, kv: KeyValue<V>): (r: map<int, Bucket<V>>)
    requires Shaped(items)
    ensures Shaped(r)
    ensures forall x :: At(r, x) == if x == h then At(items, h) + [kv] else At(items, x)
  {
    if h in items then items[h := Several(EntriesOf(items[h]) + [kv])] else items[h := One(kv)]
  }

  /** Takes the i-th entry out of the bucket of a hash. */
  function Take<V>(items: map<int, Bucket<V>>, h: int, i: nat): (r: map<int, Bucket<V>>)
    requires Shaped(items) && i < |At(items, h)|
    ensures Shaped(r)
    ensures forall x :: At(r, x) == if x == h then At(items, h)[..i] + At(items, h)[i + 1..] else At(items, x)
  {
    match items[h]
    case One(_) => items - {h}
    case Several(list) =>
      var rest := list[..i] + list[i + 1..];
      if |rest| == 1 then items[h := One(rest[0])] else items[h := Several(rest)]
  }

  lemma BucketGains<V>(entries: seq<KeyValue<V>>, hashes: map<Key, int>, model: map<Key, V>, h: int, x: int,
      kv: KeyValue<V>)
    requires BucketHolds(entries, hashes, model, x) && kv.key !in hashes
    ensures BucketHolds(if x == h then entries + [kv] else entries, hashes[kv.key := h], model[kv.key := kv.value], x)
  {
    var more := if x == h then entries + [kv] else entries;
    forall k | k in hashes[kv.key := h] && hashes[kv.key := h][k] == x ensures HasKey(more, k) {
      if k == kv.key {
        assert more[|entries|].key == k;
      } else {
        assert HasKey(entries, k);
        var i :| 0 <= i < |entries| && entries[i].key == k;
        assert more[i].key == k;
      }
    }
  }

  lemma BucketLoses<V>(entries: seq<KeyValue<V>>, hashes: map<Key, int>, model: map<Key, V>, x: int, i: nat)
    requires BucketHolds(entries, hashes, model, x) && i < |entries|
    ensures BucketHolds(entries[..i] + entries[i + 1..], hashes - {entries[i].key}, model - {entries[i].key}, x)
  {
    var k, rest := entries[i].key, entries[..i] + entries[i + 1..];
    forall j | 0 <= j < |rest| ensures Recorded(rest[j], hashes - {k}, model - {k}, x) {
      assert Recorded(entries[if j < i then j else j + 1], hashes, model, x);
    }
    forall other | other in hashes - {k} && (hashes - {k})[other] == x ensures HasKey(rest, other) {
      assert HasKey(entries, other);
      var j :| 0 <= j < |entries| && entries[j].key == other;
      assert rest[if j < i then j else j - 1].key == other;
    }
  }

  lemma BucketUntouched<V>(entries: seq<KeyValue<V>>, hashes: map<Key, int>, model: map<Key, V>, x: int, k: Key)
    requires BucketHolds(entries, hashes, model, x) && (k in hashes ==> hashes[k] != x)
    ensures BucketHolds(entries, hashes - {k}, model - {k}, x)
  {
    forall j | 0 <= j < |entries| ensures Recorded(entries[j], hashes - {k}, model - {k}, x) {
      assert Recorded(entries[j], hashes, model, x);
    }
  }

  lemma PutKeepsTables<V>(items: map<int, Bucket<V>>, hashes: map<Key, int>, model: map<Key, V>, h: int,
      kv: KeyValue<V>)
    requires Tables(items, hashes, model) && kv.key !in model
    ensures Tables(Put(items, h, kv), hashes[kv.key := h], model[kv.key := kv.value])
  {
    forall x ensures BucketHolds(At(Put(items, h, kv), x), hashes[kv.key := h], model[kv.key := kv.value], x) {
      BucketGains(At(items, x), hashes, model, h, x, kv);
    }
  }

  lemma TakeKeepsTables<V>(items: map<int, Bucket<V>>, hashes: map<Key, int>, model: map<Key, V>, h: int, i: nat)
    requires Tables(items, hashes, model) && i < |At(items, h)|
    ensures var k := At(items, h)[i].key;
            Recorded(At(items, h)[i], hashes, model, h) && Tables(Take(items, h, i), hashes - {k}, model - {k})
  {
    var k := At(items, h)[i].key;
    assert BucketHolds(At(items, h), hashes, model, h);
    forall x ensures BucketHolds(At(Take(items, h, i), x), hashes - {k}, model - {k}, x) {
      if x == h {
        BucketLoses(At(items, h), hashes, model, h, i);
      } else {
        BucketUntouched(At(items, x), hashes, model, x, k);
      }
    }
  }

  /** What a search for a key finds in the bucket of its hash. */
  datatype Found<V> =
    | NotFoundHash
    | NotFoundKeyOne(one: KeyValue<V>)
    | FoundOne(kv: KeyValue<V>)
    | NotFoundKeyList(others: seq<KeyValue<V>>)
    | FoundList(kv: KeyValue<V>, list: seq<KeyValue<V>>, i: nat)
  {
    predicate IsFound() {
      FoundOne? || FoundList?
    }

    function Index(): nat
      requires IsFound()
    {
      if FoundOne? then 0 else i
    }
  }

  class RehashableDictionary<V(==)> {
    var items: map<int, Bucket<V>>
    var hashes: map<Key, int>
    /** The keys whose changes the dictionary is told of. */
    var observed: set<Key>
    /** The association list that the two tables stand for. */
    ghost var model: map<Key, V>

    constructor ()
      ensures Valid() && model == map[]
    {
      items, hashes, observed, model := map[], map[], {}, map[];
    }

    /** The tables agree, but the content of `changed` may have changed since its hash was recorded. */
    ghost predicate ValidBut(changed: set<Key>)
      reads this, model.Keys
    {
      && Tables(items, hashes, model) && observed == model.Keys
      && (forall k | k in model && k !in changed :: hashes[k] == k.content.hash)
      && (forall k, l | k in model && l in model && k.content == l.content :: k == l)
    }

    ghost predicate Valid()
      reads this, model.Keys
    {
      ValidBut({})
    }

    /** A stored key equal to the given one. */
    ghost predicate Holds(k: Key, key: Key)
      reads this, k, key
    {
      k in model && k.Equals(key)
    }

    /** What the search promises: an entry of the bucket whose key is equal, or that there is none in the bucket. */
    ghost predicate FoundRight(key: Key, wanted: Option<V>, hash: int, f: Found<V>)
      reads this, key, set kv | kv in At(items, hash) :: kv.key
    {
      && hash == key.content.hash
      && match f
         case NotFoundHash => hash !in items
         case NotFoundKeyOne(one) =>
           hash in items && items[hash] == One(one)
              && (one.key.Equals(key) ==> wanted.Some? && one.value != wanted.value)
         case FoundOne(kv) =>
           hash in items && items[hash] == One(kv) && kv.key.Equals(key) && (wanted.Some? ==> kv.value == wanted.value)
         case NotFoundKeyList(others) =>
           hash in items && items[hash] == Several(others)
           && ((forall j | 0 <= j < |others| :: !others[j].key.Equals(key))
               || (wanted.Some? && exists j ::
                     0 <= j < |others| && others[j].key.Equals(key) && others[j].value != wanted.value))
         case FoundList(kv, list, i) =>
           hash in items && items[hash] == Several(list) && i < |list| && list[i] == kv && kv.key.Equals(key)
           && (wanted.Some? ==> kv.value == wanted.value)
    }

    method FindItem(key: Key, wanted: Option<V>) returns (hash: int, f: Found<V>)
      ensures FoundRight(key, wanted, hash, f)
    {
      hash := key.content.hash;
      if hash !in items {
        return hash, NotFoundHash;
      }
      match items[hash]
      case One(kv) =>
        if !kv.key.Equals(key) || (wanted.Some? && kv.value != wanted.value) {
          return hash, NotFoundKeyOne(kv);
        }
        return hash, FoundOne(kv);
      case Several(list) =>
        var i := 0;
        while i < |list| && !list[i].key.Equals(key)
          invariant i <= |list| && forall j | 0 <= j < i :: !list[j].key.Equals(key)
        {
          i := i + 1;
        }
        if i == |list| || (wanted.Some? && list[i].value != wanted.value) {
          return hash, NotFoundKeyList(list);
        }
        return hash, FoundList(list[i], list, i);
    }

    /** A search finds the stored key equal to the given one; if it finds nothing, there is none (with that value). */
    lemma SearchIsRight(key: Key, wanted: Option<V>, hash: int, f: Found<V>)
      requires Valid() && FoundRight(key, wanted, hash, f)
      ensures f.IsFound() ==> Holds(f.kv.key, key) && model[f.kv.key] == f.kv.value && hashes[f.kv.key] == hash
                              && At(items, hash)[f.Index()] == f.kv
      ensures !f.IsFound() ==> forall k | k in model && k.Equals(key) :: wanted.Some? && model[k] != wanted.value
    {
      var entries := At(items, hash);
      assert BucketHolds(entries, hashes, model, hash);
      if f.IsFound() {
        assert Recorded(entries[f.Index()], hashes, model, hash);
      } else {
        forall k | k in model && k.Equals(key) ensures wanted.Some? && model[k] != wanted.value {
          assert HasKey(entries, k);
          var j :| 0 <= j < |entries| && entries[j].key == k;
          assert Recorded(entries[j], hashes, model, hash);
          if f.NotFoundKeyList? && wanted.Some? && exists l ::
               0 <= l < |entries| && entries[l].key.Equals(key) && entries[l].value != wanted.value
          {
            var l :| 0 <= l < |entries| && entries[l].key.Equals(key) && entries[l].value != wanted.value;
            assert Recorded(entries[l], hashes, model, hash);
          }
        }
      }
    }

    method TryGetValue(key: Key) returns (value: Option<V>)
      requires Valid()
      ensures value == None <==> forall k | k in model :: !k.Equals(key)
      ensures forall k | Holds(k, key) :: value == Some(model[k])
    {
      var hash, f := FindItem(key, None);
      SearchIsRight(key, None, hash, f);
      return if f.IsFound() then Some(f.kv.value) else None;
    }

    method Count() returns (n: nat)
      requires Valid()
      ensures n == |model|
    {
      assert hashes.Keys == model.Keys;
      n := |hashes|;
      assert |hashes| == |hashes.Keys| && |model| == |model.Keys|;
    }

    /** Adds an entry, unless an equal key is stored: that is an error, and nothing changes. */
    method Add(key: Key, value: V) returns (ok: bool)
      requires Valid()
      modifies this
      ensures Valid()
      ensures ok <==> forall k | k in old(model) :: !k.Equals(key)
      ensures model == if ok then old(model)[key := value] else old(model)
    {
      ok := AddCore(key, value, true);
    }

    /** Adds an entry to the bucket of a hash, which becomes a list when it holds one entry already. */
    method AddEntry(hash: int, newkv: KeyValue<V>)
      requires Shaped(items)
      modifies this`items
      ensures items == Put(old(items), hash, newkv)
    {
      if hash in items {
        match items[hash] {
          case One(oldkv) =>
            items := items[hash := Several([oldkv, newkv])];
            assert [oldkv, newkv] == [oldkv] + [newkv];
          case Several(list) =>
            items := items[hash := Several(list + [newkv])];
        }
      } else {
        items := items[hash := One(newkv)];
      }
    }

    /** Removes the i-th entry of the bucket of a hash, which stops being a list when one entry is left. */
    method RemoveEntry(hash: int, i: nat)
      requires Shaped(items) && i < |At(items, hash)|
      modifies this`items
      ensures items == Take(old(items), hash, i)
    {
      match items[hash] {
        case One(_) => items := items - {hash};
        case Several(list) =>
          var rest := list[..i] + list[i + 1..];
          items := items[hash := if |rest| == 1 then One(rest[0]) else Several(rest)];
      }
    }

    /** The code shared by adding and setting; `exclusive` rules out overwriting. */
    method AddCore(key: Key, value: V, exclusive: bool) returns (ok: bool)
      requires Valid()
      modifies this
      ensures (forall k | k in old(model) :: !k.Equals(key)) ==> ok && Valid() && model == old(model)[key := value]
      ensures !(forall k | k in old(model) :: !k.Equals(key)) && exclusive ==> !ok && Valid() && model == old(model)
      ensures !(forall k | k in old(model) :: !k.Equals(key)) && !exclusive ==>
          ok && exists k ::
            k in old(model) && k.Equals(key) && Overwritten(old(items), old(hashes), k, KeyValue(key, value))
    {
      var newkv := KeyValue(key, value);
      var hash, f := FindItem(key, None);
      SearchIsRight(key, None, hash, f);
      if f.IsFound() {
        if exclusive {
          return false;
        }
        ReplaceKeyValue(hash, f, newkv);
        return true;
      }
      AddNew(hash, newkv);
      return true;
    }

    /** Adds and records an entry whose key equals no stored one. */
    method AddNew(hash: int, newkv: KeyValue<V>)
      requires Valid() && hash == newkv.key.content.hash
      requires forall k | k in model :: !k.Equals(newkv.key)
      modifies this
      ensures Valid() && model == old(model)[newkv.key := newkv.value]
    {
      PutKeepsTables(items, hashes, model, hash, newkv);
      AddEntry(hash, newkv);
      hashes := hashes[newkv.key := hash];
      observed := observed + {newkv.key};
      model := model[newkv.key := newkv.value];
    }

    /** An entry of the bucket of a hash has been replaced; its key is no longer recorded, and the new one is not. */
    ghost predicate Overwritten(oldItems: map<int, Bucket<V>>, oldHashes: map<Key, int>, k: Key, newkv: KeyValue<V>)
      reads this, newkv.key
    {
      var h := newkv.key.content.hash;
      && hashes == oldHashes - {k} && newkv.key !in hashes
      && exists i :: 0 <= i < |At(oldItems, h)| && At(oldItems, h)[i].key == k
                     && h in items && EntriesOf(items[h]) == At(oldItems, h)[i := newkv]
    }

    method ReplaceKeyValue(hash: int, f: Found<V>, newkv: KeyValue<V>)
      requires Valid() && f.IsFound() && FoundRight(newkv.key, None, hash, f)
      modifies this
      ensures Overwritten(old(items), old(hashes), f.kv.key, newkv)
    {
      if f.FoundOne? {
        items := items[hash := One(newkv)];
      } else {
        items := items[hash := Several(f.list[f.i := newkv])];
      }
      assert EntriesOf(items[hash]) == At(old(items), hash)[f.Index() := newkv];
      assert At(old(items), hash)[f.Index()].key == f.kv.key;
      hashes := hashes - {f.kv.key};
      observed := observed - {f.kv.key};
      observed := observed + {newkv.key};
    }

    /** Sets the value of a key. */
    method Set(key: Key, value: V)
      requires Valid()
      modifies this
      ensures (forall k | k in old(model) :: !k.Equals(key)) ==> Valid() && model == old(model)[key := value]
      ensures (exists k :: k in old(model) && k.Equals(key)) <==> forall m :: !Tables(items, hashes, m)
    {
      var ok := AddCore(key, value, false);
      if exists k :: k in old(model) && k.Equals(key) {
        var k :| k in old(model) && k.Equals(key) && Overwritten(old(items), old(hashes), k, KeyValue(key, value));
        NoModelFits(old(items), old(hashes), k, KeyValue(key, value));
      }
    }

    /** The tables after overwriting stand for no association list: an entry is left that is not recorded. */
    lemma NoModelFits(oldItems: map<int, Bucket<V>>, oldHashes: map<Key, int>, k: Key, newkv: KeyValue<V>)
      requires Overwritten(oldItems, oldHashes, k, newkv) && newkv.key !in hashes
      ensures forall m :: !Tables(items, hashes, m)
    {
      var h := newkv.key.content.hash;
      var i :| 0 <= i < |At(oldItems, h)| && At(oldItems, h)[i].key == k
               && h in items && EntriesOf(items[h]) == At(oldItems, h)[i := newkv];
      forall m ensures !BucketHolds(At(items, h), hashes, m, h) {
        assert !Recorded(At(items, h)[i], hashes, m, h);
      }
      assert forall m :: Tables(items, hashes, m) ==> BucketHolds(At(items, h), hashes, m, h);
    }

    /** Removes the entry of a key equal to the given one, if there is one. */
    method Remove(key: Key) returns (found: bool)
      requires Valid()
      modifies this
      ensures Valid()
      ensures if found then exists k :: k in old(model) && k.Equals(key) && model == old(model) - {k}
              else model == old(model) && forall k | k in old(model) :: !k.Equals(key)
    {
      found := RemoveCore(key, None);
    }

    /** Removes an entry with an equal key and, if given, the wanted value. */
    method RemoveCore(key: Key, wanted: Option<V>) returns (found: bool)
      requires Valid()
      modifies this
      ensures Valid()
      ensures if found
              then exists k :: k in old(model) && k.Equals(key) && model == old(model) - {k}
                               && (wanted.Some? ==> old(model)[k] == wanted.value)
              else model == old(model) && forall k | k in old(model) && k.Equals(key) ::
                     wanted.Some? && old(model)[k] != wanted.value
    {
      var hash, f := FindItem(key, wanted);
      SearchIsRight(key, wanted, hash, f);
      if !f.IsFound() {
        return false;
      }
      TakeKeepsTables(items, hashes, model, hash, f.Index());
      RemoveEntry(hash, f.Index());
      hashes := hashes - {f.kv.key};
      observed := observed - {f.kv.key};
      model := model - {f.kv.key};
      return true;
    }

    method Clear()
      requires Valid()
      modifies this
      ensures Valid() && model == map[]
    {
      items, hashes, observed, model := map[], map[], {}, map[];
    }

    /** Told that the content of a stored key has changed, moves its entry to the bucket of the new hash. */
    method Rehash(key: Key)
      requires ValidBut({key}) && key in model
      modifies this
      ensures Valid() && model == old(model)
    {
      var oldHash, newHash := hashes[key], key.content.hash;
      var kv, i := EntryOf(key, oldHash);
      TakeKeepsTables(items, hashes, model, oldHash, i);
      PutKeepsTables(Take(items, oldHash, i), hashes - {key}, model - {key}, newHash, kv);
      hashes := hashes[key := newHash];
      RemoveEntry(oldHash, i);
      AddEntry(newHash, kv);
      assert hashes == (old(hashes) - {key})[key := newHash];
      assert model == (model - {key})[key := kv.value];
    }

    /** Searches the bucket of the recorded hash for the key object itself; it must be there. */
    method EntryOf(key: Key, oldHash: int) returns (kv: KeyValue<V>, i: nat)
      requires Tables(items, hashes, model) && key in hashes && oldHash == hashes[key]
      ensures i < |At(items, oldHash)| && At(items, oldHash)[i] == kv && kv.key == key && kv.value == model[key]
    {
      assert BucketHolds(At(items, oldHash), hashes, model, oldHash) && HasKey(At(items, oldHash), key);
      var entries := EntriesOf(items[oldHash]);
      i := 0;
      while entries[i].key != key
        invariant i < |entries| && exists j :: i <= j < |entries| && entries[j].key == key
        decreases |entries| - i
      {
        i := i + 1;
      }
      kv := entries[i];
      assert Recorded(entries[i], hashes, model, oldHash);
    }

    /** Lists the entries, bucket by bucket in the order of the hashes. */
    method Enumerate() returns (s: seq<KeyValue<V>>)
      requires Valid()
      ensures Enumerates(s, hashes, model, {})
    {
      s := [];
      var todo := items.Keys;
      assert forall k | k in hashes :: hashes[k] in todo by {
        forall k | k in hashes ensures hashes[k] in todo {
          assert BucketHolds(At(items, hashes[k]), hashes, model, hashes[k]);
        }
      }
      while todo != {}
        invariant todo <= items.Keys && Enumerates(s, hashes, model, todo)
        decreases |todo|
      {
        LeastExists(todo);
        var h :| h in todo && forall x | x in todo :: h <= x;
        assert BucketHolds(At(items, h), hashes, model, h);
        EnumeratesMore(s, At(items, h), hashes, model, todo, h);
        s := s + EntriesOf(items[h]);
        todo := todo - {h};
      }
    }
  }

  /** `s` lists the entries of all keys whose hash is not in `todo`, each once, in the order of the hashes. */
  ghost predicate Enumerates<V>(s: seq<KeyValue<V>>, hashes: map<Key, int>, model: map<Key, V>, todo: set<int>) {
    && (forall i | 0 <= i < |s| :: Listed(s[i], hashes, model, todo))
    && (forall i, j | 0 <= i < j < |s| :: s[i].key != s[j].key && hashes[s[i].key] <= hashes[s[j].key])
    && (forall k | k in hashes && hashes[k] !in todo :: HasKey(s, k))
  }

  ghost predicate Listed<V>(kv: KeyValue<V>, hashes: map<Key, int>, model: map<Key, V>, todo: set<int>) {
    && kv.key in hashes && Recorded(kv, hashes, model, hashes[kv.key])
    && hashes[kv.key] !in todo && forall x | x in todo :: hashes[kv.key] < x
  }

  lemma EnumeratesMore<V>(s: seq<KeyValue<V>>, entries: seq<KeyValue<V>>, hashes: map<Key, int>, model: map<Key, V>,
      todo: set<int>, h: int)
    requires Enumerates(s, hashes, model, todo) && BucketHolds(entries, hashes, model, h)
    requires h in todo && forall x | x in todo :: h <= x
    ensures Enumerates(s + entries, hashes, model, todo - {h})
  {
    var all := s + entries;
    forall i | 0 <= i < |all| ensures Listed(all[i], hashes, model, todo - {h}) {
      if i < |s| {
        assert Listed(s[i], hashes, model, todo);
      } else {
        assert Recorded(entries[i - |s|], hashes, model, h);
      }
    }
    forall i, j | 0 <= i < j < |all| ensures all[i].key != all[j].key && hashes[all[i].key] <= hashes[all[j].key] {
      if i < |s| { assert Listed(s[i], hashes, model, todo); }
      if j >= |s| { assert Recorded(entries[j - |s|], hashes, model, h); }
      if i >= |s| { assert Recorded(entries[i - |s|], hashes, model, h); }
    }
    forall k | k in hashes && hashes[k] !in todo - {h} ensures HasKey(all, k) {
      if hashes[k] == h {
        assert HasKey(entries, k);
        var i :| 0 <= i < |entries| && entries[i].key == k;
        assert all[|s| + i].key == k;
      } else {
        var i :| 0 <= i < |s| && s[i].key == k;
        assert all[i].key == k;
      }
    }
  }

  lemma {:induction false} LeastExists(s: set<int>)
    requires s != {}
    ensures exists h :: h in s && forall x | x in s :: h <= x
  {
    assert exists y :: y in s by {
      if forall y :: y !in s {
        assert false;
      }
    }
    var y :| y in s;
    var m := y;
    if s - {y} != {} {
      LeastExists(s - {y});
      var h :| h in s - {y} && forall x | x in s - {y} :: h <= x;
      m := if y < h then y else h;
    }
    forall x | x in s ensures m <= x {
      if x != y { assert x in s - {y}; }
    }
  }

  /** One use of the dictionary, or a change of a key's content. */
  datatype Op<V> =
    | AddOp(key: Key, value: V)
    | SetOp(key: Key, value: V)
    | RemoveOp(key: Key)
    | LookupOp(key: Key)
    | ChangeOp(key: Key, content: Content)
    | CountOp
    | EnumerateOp
    | ClearOp

  datatype Answer<V> =
    | Silence
    | Flag(ok: bool)
    | Looked(value: Option<V>)
    | Number(n: nat)
    | Listing(entries: seq<KeyValue<V>>)

  /** A plain association list searched by the content of its keys. */
  datatype Assoc<V> = Assoc(entries: map<Key, V>, content: map<Key, Content>)

  /** Every key is known, and no two stored keys are equal. */
  ghost predicate Sound<V>(a: Assoc<V>) {
    && a.entries.Keys <= a.content.Keys
    && forall k, l | k in a.entries && l in a.entries && a.content[k] == a.content[l] :: k == l
  }

  ghost predicate Matches<V>(a: Assoc<V>, older k: Key, key: Key) {
    k in a.entries && k in a.content && key in a.content && a.content[k] == a.content[key]
  }

  ghost predicate Has<V>(a: Assoc<V>, key: Key) {
    exists k :: Matches(a, k, key)
  }

  /** Ruled out: setting the value of a stored key, and a change that makes two stored keys equal. */
  ghost predicate Allowed<V>(a: Assoc<V>, op: Op<V>) {
    && (op.CountOp? || op.EnumerateOp? || op.ClearOp? || op.key in a.content)
    && (op.SetOp? ==> !Has(a, op.key))
    && (op.ChangeOp? ==> Sound(After(a, op)))
  }

  ghost function After<V>(a: Assoc<V>, op: Op<V>): Assoc<V> {
    match op
    case AddOp(key, value) => if Has(a, key) then a else a.(entries := a.entries[key := value])
    case SetOp(key, value) => a.(entries := a.entries[key := value])
    case RemoveOp(key) => a.(entries := map k | k in a.entries && !Matches(a, k, key) :: a.entries[k])
    case ChangeOp(key, content) => a.(content := a.content[key := content])
    case ClearOp => a.(entries := map[])
    case _ => a
  }

  /** Every entry is listed, and none twice. */
  ghost predicate ListsAll<V>(s: seq<KeyValue<V>>, entries: map<Key, V>) {
    && (forall i | 0 <= i < |s| :: s[i].key in entries && s[i].value == entries[s[i].key])
    && (forall i, j | 0 <= i < j < |s| :: s[i].key != s[j].key)
    && forall k | k in entries :: HasKey(s, k)
  }

  ghost predicate ValueRight<V>(a: Assoc<V>, key: Key, value: Option<V>) {
    if Has(a, key) then exists k :: Matches(a, k, key) && value == Some(a.entries[k]) else value == None
  }

  ghost predicate AnswerRight<V>(a: Assoc<V>, op: Op<V>, answer: Answer<V>) {
    match op
    case AddOp(key, _) => answer == Flag(!Has(a, key))
    case RemoveOp(key) => answer == Flag(Has(a, key))
    case LookupOp(key) =>
      answer.Looked? && ValueRight(a, key, answer.value)
    case CountOp => answer == Number(|a.entries|)
    case EnumerateOp => answer.Listing? && ListsAll(answer.entries, a.entries)
    case _ => answer == Silence
  }

  ghost predicate AllAllowed<V>(a: Assoc<V>, ops: seq<Op<V>>)
    decreases |ops|
  {
    ops == [] || (Allowed(a, ops[0]) && AllAllowed(After(a, ops[0]), ops[1..]))
  }

  ghost predicate AnswersRight<V>(a: Assoc<V>, ops: seq<Op<V>>, answers: seq<Answer<V>>)
    decreases |ops|
  {
    if ops == [] then answers == []
    else answers != [] && AnswerRight(a, ops[0], answers[0]) && AnswersRight(After(a, ops[0]), ops[1..], answers[1..])
  }

  ghost function AfterAll<V>(a: Assoc<V>, ops: seq<Op<V>>): Assoc<V>
    decreases |ops|
  {
    if ops == [] then a else AfterAll(After(a, ops[0]), ops[1..])
  }

  /** The dictionary stands for the association list, whose contents are those of the keys. */
  ghost predicate Shows<V>(d: RehashableDictionary<V>, a: Assoc<V>)
    reads d, a.content.Keys, d.model.Keys
  {
    d.Valid() && d.model == a.entries && forall k | k in a.content :: a.content[k] == k.content
  }

  lemma AfterIsSound<V>(a: Assoc<V>, op: Op<V>)
    requires Sound(a) && Allowed(a, op)
    ensures Sound(After(a, op)) && After(a, op).content.Keys == a.content.Keys
  {
    if (op.AddOp? && !Has(a, op.key)) || op.SetOp? {
      forall k | k in a.entries ensures a.content[k] != a.content[op.key] {
        assert !Matches(a, k, op.key);
      }
    }
  }

  lemma EnumeratesAll<V>(s: seq<KeyValue<V>>, hashes: map<Key, int>, model: map<Key, V>)
    requires Enumerates(s, hashes, model, {}) && hashes.Keys == model.Keys
    ensures ListsAll(s, model)
  {}

  method UseAdd<V(==)>(d: RehashableDictionary<V>, key: Key, value: V, ghost a: Assoc<V>) returns (ok: bool)
    requires Shows(d, a) && Sound(a) && key in a.content
    modifies d
    ensures Shows(d, After(a, AddOp(key, value))) && ok == !Has(a, key)
  {
    ok := d.Add(key, value);
    assert ok <==> forall k | k in a.entries :: !Matches(a, k, key);
  }

  method UseRemove<V(==)>(d: RehashableDictionary<V>, key: Key, ghost a: Assoc<V>) returns (found: bool)
    requires Shows(d, a) && Sound(a) && key in a.content
    modifies d
    ensures Shows(d, After(a, RemoveOp(key))) && found == Has(a, key)
  {
    ghost var b := After(a, RemoveOp(key));
    found := d.Remove(key);
    if found {
      ghost var k :| k in a.entries && k.Equals(key) && d.model == a.entries - {k};
      assert Matches(a, k, key);
      assert forall l | Matches(a, l, key) :: l == k;
      assert d.model == b.entries;
    } else {
      assert forall k | k in a.entries :: !Matches(a, k, key);
      assert d.model == b.entries;
    }
  }

  method UseSet<V(==)>(d: RehashableDictionary<V>, key: Key, value: V, ghost a: Assoc<V>)
    requires Shows(d, a) && Sound(a) && key in a.content && !Has(a, key)
    modifies d
    ensures Shows(d, After(a, SetOp(key, value)))
  {
    assert forall k | k in d.model && k.Equals(key) :: Matches(a, k, key);
    d.Set(key, value);
  }

  method UseLookup<V(==)>(d: RehashableDictionary<V>, key: Key, ghost a: Assoc<V>) returns (value: Option<V>)
    requires Shows(d, a) && Sound(a) && key in a.content
    ensures ValueRight(a, key, value)
  {
    value := d.TryGetValue(key);
    assert forall k | k in d.model && k.Equals(key) :: Matches(a, k, key);
    assert forall k | Matches(a, k, key) :: d.Holds(k, key);
  }

  method UseEnumerate<V(==)>(d: RehashableDictionary<V>, ghost a: Assoc<V>) returns (entries: seq<KeyValue<V>>)
    requires Shows(d, a)
    ensures ListsAll(entries, a.entries)
  {
    entries := d.Enumerate();
    EnumeratesAll(entries, d.hashes, d.model);
  }

  method UseChange<V(==)>(d: RehashableDictionary<V>, key: Key, content: Content, ghost a: Assoc<V>)
    requires Shows(d, a) && Sound(a) && Allowed(a, ChangeOp(key, content))
    modifies d, key
    ensures Shows(d, After(a, ChangeOp(key, content)))
  {
    ghost var b := After(a, ChangeOp(key, content));
    key.content := content;
    assert forall k | k in b.content :: b.content[k] == k.content;
    assert forall k, l | k in d.model && l in d.model && k.content == l.content :: b.content[k] == b.content[l];
    if key in d.observed {
      d.Rehash(key);
    }
  }

  /** Does one operation. A change of a stored key's content is told to the dictionary. */
  method Use<V(==)>(d: RehashableDictionary<V>, op: Op<V>, ghost a: Assoc<V>) returns (answer: Answer<V>)
    requires Shows(d, a) && Sound(a) && Allowed(a, op)
    modifies d, a.content.Keys
    ensures Shows(d, After(a, op))
    ensures AnswerRight(a, op, answer)
  {
    answer := Silence;
    match op {
      case AddOp(key, value) =>
        var ok := UseAdd(d, key, value, a);
        answer := Flag(ok);
      case SetOp(key, value) =>
        UseSet(d, key, value, a);
      case RemoveOp(key) =>
        var found := UseRemove(d, key, a);
        answer := Flag(found);
      case LookupOp(key) =>
        var value := UseLookup(d, key, a);
        answer := Looked(value);
      case ChangeOp(key, content) =>
        UseChange(d, key, content, a);
      case CountOp =>
        var n := d.Count();
        answer := Number(n);
      case EnumerateOp =>
        var entries := UseEnumerate(d, a);
        answer := Listing(entries);
      case ClearOp =>
        d.Clear();
    }
  }

  /** Over any run the two tables answer as the plain association list does. */
  method Run<V(==)>(d: RehashableDictionary<V>, ops: seq<Op<V>>, ghost a: Assoc<V>) returns (answers: seq<Answer<V>>)
    requires Shows(d, a) && Sound(a) && AllAllowed(a, ops)
    modifies d, a.content.Keys
    ensures Shows(d, AfterAll(a, ops)) && AnswersRight(a, ops, answers)
    decreases |ops|
  {
    if ops == [] {
      return [];
    }
    var answer := Use(d, ops[0], a);
    AfterIsSound(a, ops[0]);
    var rest := Run(d, ops[1..], After(a, ops[0]));
    return [answer] + rest;
  }
}
