/**
 * ImmutableHashMap: the public map over the bucket trie.
 *
 * A map is its root bucket, or no root when it is empty. The key comparer
 * is the hash function `H` every operation takes (its equality is `==`),
 * and the value comparer is `==`. Every operation leaves the map it was
 * given alone and returns a map; `Wrap` returns the very map it was given
 * when the root did not change. The root of every map the operations build
 * is a valid bucket (`MapValid`), which the private constructor's callers
 * guarantee in the source; the operations ask for it as their invariant.
 */
module ImmutableMap {
  import opened Wrappers
  import opened Buckets
  import opened BucketContents
  import opened BucketEntries
  import opened BucketAdd
  import opened BucketRemove
  import opened BucketLookup

  datatype ImmutableHashMap<K, V> = ImmutableHashMap(root: Option<Bucket<K, V>>)

  /** The empty map: no root. */
  function Empty<K, V>(): ImmutableHashMap<K, V> {
    ImmutableHashMap(None)
  }

  /** The invariant of every map: its root, if any, is a valid bucket. */
  predicate MapValid<K(==), V>(m: ImmutableHashMap<K, V>, H: K -> bv32) {
    m.root.Some? ==> Valid(m.root.value, H)
  }

  /** The finite map a map denotes. */
  function MapContents<K(==), V>(m: ImmutableHashMap<K, V>): map<K, V> {
    if m.root.None? then map[] else Contents(m.root.value)
  }

  // ---------------------------------------------------------------------
  // The operations
  // ---------------------------------------------------------------------

  /** Count: the root's count, or 0 without a root. */
  function Count<K, V>(m: ImmutableHashMap<K, V>): int {
    if m.root.Some? then Buckets.Count(m.root.value) else 0
  }

  function IsEmpty<K, V>(m: ImmutableHashMap<K, V>): bool {
    Count(m) == 0
  }

  /** Clear: the map itself when it is empty, otherwise the empty map. */
  function Clear<K, V>(m: ImmutableHashMap<K, V>): ImmutableHashMap<K, V> {
    if IsEmpty(m) then m else Empty()
  }

  /**
   * Wrap: the map for a new root. No root, or a root counting nothing,
   * clears the map; the same root gives back the same map.
   */
  function Wrap<K(==), V(==)>(m: ImmutableHashMap<K, V>, root: Option<Bucket<K, V>>): ImmutableHashMap<K, V> {
    if root.None? then Clear(m)
    else if m.root != root then
      if Buckets.Count(root.value) == 0 then Clear(m) else ImmutableHashMap(root)
    else m
  }

  /** Add: fails with DuplicateKey when the key is there with another value. */
  function Add<K(==), V(==)>(m: ImmutableHashMap<K, V>, key: K, value: V, H: K -> bv32): Result<ImmutableHashMap<K, V>, Error>
    requires MapValid(m, H)
  {
    var vb := ValueBucket(key, value, H(key));
    if m.root.None? then Success(Wrap(m, Some(Leaf(vb))))
    else
      match Buckets.Add(m.root.value, 0, vb, false)
      case Failure(e) => Failure(e)
      case Success(root) => Success(Wrap(m, Some(root)))
  }

  /** SetItem: adds the key, or replaces its value. */
  function SetItem<K(==), V(==)>(m: ImmutableHashMap<K, V>, key: K, value: V, H: K -> bv32): ImmutableHashMap<K, V>
    requires MapValid(m, H)
  {
    var vb := ValueBucket(key, value, H(key));
    if m.root.None? then Wrap(m, Some(Leaf(vb)))
    else
      AddCorrect(m.root.value, 0, vb, true, H);
      Wrap(m, Some(Buckets.Add(m.root.value, 0, vb, true).value))
  }

  function Remove<K(==), V(==)>(m: ImmutableHashMap<K, V>, key: K, H: K -> bv32): ImmutableHashMap<K, V>
    requires MapValid(m, H)
  {
    if m.root.Some? then Wrap(m, Buckets.Remove(m.root.value, H(key), key)) else m
  }

  function ContainsKey<K(==), V>(m: ImmutableHashMap<K, V>, key: K, H: K -> bv32): bool
    requires MapValid(m, H)
  {
    m.root.Some? && Get(m.root.value, H(key), key).Some?
  }

  /** Contains: the key is there with this value. */
  function Contains<K(==), V(==)>(m: ImmutableHashMap<K, V>, key: K, value: V, H: K -> bv32): bool
    requires MapValid(m, H)
  {
    if m.root.Some? then
      var vb := Get(m.root.value, H(key), key);
      vb.Some? && vb.value.value == value
    else false
  }

  /** TryGetValue: the value of the key, if it is there. */
  function TryGetValue<K(==), V>(m: ImmutableHashMap<K, V>, key: K, H: K -> bv32): Option<V>
    requires MapValid(m, H)
  {
    if m.root.Some? then
      var vb := Get(m.root.value, H(key), key);
      if vb.Some? then Some(vb.value.value) else None
    else None
  }

  /** TryGetKey: whether the key is there, and the key the map holds (or the one given). */
  function TryGetKey<K(==), V>(m: ImmutableHashMap<K, V>, equalKey: K, H: K -> bv32): (bool, K)
    requires MapValid(m, H)
  {
    if m.root.Some? && Get(m.root.value, H(equalKey), equalKey).Some? then
      (true, Get(m.root.value, H(equalKey), equalKey).value.key)
    else (false, equalKey)
  }

  /** The indexer: the value of the key, or KeyNotFound. */
  function Item<K(==), V>(m: ImmutableHashMap<K, V>, key: K, H: K -> bv32): Result<V, Error>
    requires MapValid(m, H)
  {
    match TryGetValue(m, key, H)
    case Some(v) => Success(v)
    case None => Failure(KeyNotFound)
  }

  // ---------------------------------------------------------------------
  // What they promise
  // ---------------------------------------------------------------------

  /** A map counts its entries, and is empty exactly when it has no root. */
  lemma CountIsSize<K, V>(m: ImmutableHashMap<K, V>, H: K -> bv32)
    requires MapValid(m, H)
    ensures Count(m) == |MapContents(m)|
    ensures IsEmpty(m) <==> m.root.None?
    ensures IsEmpty(m) <==> MapContents(m) == map[]
  {
    if m.root.Some? {
      BucketEntries.CountIsSize(m.root.value, H);
    }
  }

  /** Clear gives a valid map with nothing in it. */
  lemma ClearIsEmpty<K, V>(m: ImmutableHashMap<K, V>, H: K -> bv32)
    requires MapValid(m, H)
    ensures var r := Clear(m); MapValid(r, H) && r.root.None? && MapContents(r) == map[]
    ensures IsEmpty(m) ==> Clear(m) == m
  {
    CountIsSize(m, H);
  }

  /** Wrap denotes its root, and gives back the same map for the same root. */
  lemma WrapDenotes<K, V>(m: ImmutableHashMap<K, V>, root: Option<Bucket<K, V>>, H: K -> bv32)
    requires MapValid(m, H)
    requires root.Some? ==> Valid(root.value, H)
    ensures var r := Wrap(m, root);
      && MapValid(r, H)
      && MapContents(r) == (if root.None? then map[] else Contents(root.value))
      && (root == m.root ==> r == m)
  {
    CountIsSize(m, H);
    if root.Some? {
      BucketEntries.CountIsSize(root.value, H);
    }
  }

  /**
   * Add fails exactly when the key is there with another value; otherwise
   * the map has the entry, counts one more exactly when the key is new, and
   * is the same map exactly when the entry was already there.
   */
  lemma AddSpec<K, V>(m: ImmutableHashMap<K, V>, key: K, value: V, H: K -> bv32)
    requires MapValid(m, H)
    ensures var c, r := MapContents(m), Add(m, key, value, H);
      && (r.Failure? <==> key in c && c[key] != value)
      && (r.Failure? ==> r.error == DuplicateKey)
      && (r.Success? ==>
            && MapValid(r.value, H)
            && MapContents(r.value) == c[key := value]
            && Count(r.value) == (if key in c then Count(m) else Count(m) + 1)
            && (r.value == m <==> key in c && c[key] == value))
  {
    CountIsSize(m, H);
    var vb := ValueBucket(key, value, H(key));
    if m.root.None? {
      WrapDenotes(m, Some(Leaf(vb)), H);
    } else {
      AddCorrect(m.root.value, 0, vb, false, H);
      var added := Buckets.Add(m.root.value, 0, vb, false);
      if added.Success? {
        WrapAdded(m, added.value, H);
      }
    }
  }

  /** Wrapping a valid new root of at least one entry: the same map exactly for the same root. */
  lemma WrapAdded<K, V>(m: ImmutableHashMap<K, V>, root: Bucket<K, V>, H: K -> bv32)
    requires MapValid(m, H) && Valid(root, H)
    ensures Wrap(m, Some(root)) == m <==> m.root == Some(root)
    ensures MapValid(Wrap(m, Some(root)), H) && MapContents(Wrap(m, Some(root))) == Contents(root)
    ensures Count(Wrap(m, Some(root))) == Buckets.Count(root)
  {
    BucketEntries.CountIsSize(root, H);
  }

  /**
   * SetItem: the map has the entry, counts one more exactly when the key is
   * new, and is the same map exactly when the entry was already there.
   */
  lemma SetItemSpec<K, V>(m: ImmutableHashMap<K, V>, key: K, value: V, H: K -> bv32)
    requires MapValid(m, H)
    ensures var c, r := MapContents(m), SetItem(m, key, value, H);
      && MapValid(r, H)
      && MapContents(r) == c[key := value]
      && Count(r) == (if key in c then Count(m) else Count(m) + 1)
      && (r == m <==> key in c && c[key] == value)
      && !IsEmpty(r)
  {
    CountIsSize(m, H);
    var vb := ValueBucket(key, value, H(key));
    if m.root.None? {
      WrapDenotes(m, Some(Leaf(vb)), H);
    } else {
      AddCorrect(m.root.value, 0, vb, true, H);
      WrapAdded(m, Buckets.Add(m.root.value, 0, vb, true).value, H);
    }
    CountIsSize(SetItem(m, key, value, H), H);
  }

  /**
   * Remove: the map lacks the key, counts one less exactly when the key was
   * there, and is the same map exactly when it was not.
   */
  lemma RemoveSpec<K, V>(m: ImmutableHashMap<K, V>, key: K, H: K -> bv32)
    requires MapValid(m, H)
    ensures var c, r := MapContents(m), Remove(m, key, H);
      && MapValid(r, H)
      && MapContents(r) == c - {key}
      && Count(r) == (if key in c then Count(m) - 1 else Count(m))
      && (r == m <==> key !in c)
  {
    CountIsSize(m, H);
    if m.root.Some? {
      var b := m.root.value;
      RemoveCorrect(b, key, H);
      var removed := Buckets.Remove(b, H(key), key);
      if removed.Some? {
        WrapAdded(m, removed.value, H);
      } else {
        ClearIsEmpty(m, H);
        assert MapContents(m).Keys == {key};
      }
    }
  }

  /** Looking the key up in the root finds it exactly when the map holds it. */
  lemma Lookup<K, V>(m: ImmutableHashMap<K, V>, key: K, H: K -> bv32)
    requires MapValid(m, H) && m.root.Some?
    ensures Found(m.root.value, key, Get(m.root.value, H(key), key), H)
  {
    GetCorrect(m.root.value, key, H);
  }

  /** ContainsKey holds exactly for the keys of the map. */
  lemma ContainsKeySpec<K, V>(m: ImmutableHashMap<K, V>, key: K, H: K -> bv32)
    requires MapValid(m, H)
    ensures ContainsKey(m, key, H) <==> key in MapContents(m)
  {
    if m.root.Some? {
      Lookup(m, key, H);
    }
  }

  /** Contains holds exactly for the entries of the map. */
  lemma ContainsSpec<K, V>(m: ImmutableHashMap<K, V>, key: K, value: V, H: K -> bv32)
    requires MapValid(m, H)
    ensures Contains(m, key, value, H) <==> key in MapContents(m) && MapContents(m)[key] == value
  {
    if m.root.Some? {
      Lookup(m, key, H);
    }
  }

  /** TryGetValue gives the key's value exactly when the map holds the key. */
  lemma TryGetValueSpec<K, V>(m: ImmutableHashMap<K, V>, key: K, H: K -> bv32)
    requires MapValid(m, H)
    ensures TryGetValue(m, key, H) == if key in MapContents(m) then Some(MapContents(m)[key]) else None
  {
    if m.root.Some? {
      Lookup(m, key, H);
    }
  }

  /** TryGetKey finds the key exactly when the map holds it, and gives back an equal key. */
  lemma TryGetKeySpec<K, V>(m: ImmutableHashMap<K, V>, key: K, H: K -> bv32)
    requires MapValid(m, H)
    ensures TryGetKey(m, key, H) == (key in MapContents(m), key)
  {
    if m.root.Some? {
      Lookup(m, key, H);
    }
  }

  /** The indexer gives the key's value, or KeyNotFound exactly when the key is missing. */
  lemma ItemSpec<K, V>(m: ImmutableHashMap<K, V>, key: K, H: K -> bv32)
    requires MapValid(m, H)
    ensures Item(m, key, H) == if key in MapContents(m) then Success(MapContents(m)[key]) else Failure(KeyNotFound)
  {
    TryGetValueSpec(m, key, H);
  }

  // ---------------------------------------------------------------------
  // Operations together
  // ---------------------------------------------------------------------

  /** After a successful Add, TryGetValue finds the value added. */
  lemma AddThenGet<K, V>(m: ImmutableHashMap<K, V>, key: K, value: V, H: K -> bv32)
    requires MapValid(m, H) && Add(m, key, value, H).Success?
    ensures MapValid(Add(m, key, value, H).value, H)
    ensures TryGetValue(Add(m, key, value, H).value, key, H) == Some(value)
  {
    AddSpec(m, key, value, H);
    TryGetValueSpec(Add(m, key, value, H).value, key, H);
  }

  /** After SetItem, TryGetValue finds the value set. */
  lemma SetItemThenGet<K, V>(m: ImmutableHashMap<K, V>, key: K, value: V, H: K -> bv32)
    requires MapValid(m, H)
    ensures MapValid(SetItem(m, key, value, H), H)
    ensures TryGetValue(SetItem(m, key, value, H), key, H) == Some(value)
  {
    SetItemSpec(m, key, value, H);
    TryGetValueSpec(SetItem(m, key, value, H), key, H);
  }

  /** After Remove, the key is gone. */
  lemma RemoveThenContainsKey<K, V>(m: ImmutableHashMap<K, V>, key: K, H: K -> bv32)
    requires MapValid(m, H)
    ensures MapValid(Remove(m, key, H), H)
    ensures !ContainsKey(Remove(m, key, H), key, H)
  {
    RemoveSpec(m, key, H);
    ContainsKeySpec(Remove(m, key, H), key, H);
  }

  /** Adding a new key and removing it again gives a map with the same entries. */
  lemma AddThenRemove<K, V>(m: ImmutableHashMap<K, V>, key: K, value: V, H: K -> bv32)
    requires MapValid(m, H) && key !in MapContents(m)
    ensures Add(m, key, value, H).Success?
    ensures MapValid(Add(m, key, value, H).value, H)
    ensures MapContents(Remove(Add(m, key, value, H).value, key, H)) == MapContents(m)
  {
    AddSpec(m, key, value, H);
    RemoveSpec(Add(m, key, value, H).value, key, H);
  }
}
