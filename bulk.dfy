/**
 * The bulk operations of the map: RemoveRange removes keys one by one from
 * the root, stopping once the root is gone; AddRange and SetItems add pairs
 * one by one with Add or SetItem, so AddRange fails at the first pair whose
 * key is already there with another value.
 */
module MapBulk {
  import opened Wrappers
  import Buckets
  import opened BucketRemove
  import opened ImmutableMap

  /** The set of keys in a sequence. */
  function KeySet<K>(keys: seq<K>): set<K> {
    set i | 0 <= i < |keys| :: keys[i]
  }

  /** RemoveRange: every key of the sequence removed; the same map when none was there. */
  method RemoveRange<K(==), V(==)>(m: ImmutableHashMap<K, V>, keys: seq<K>, H: K -> bv32) returns (r: ImmutableHashMap<K, V>)
    requires MapValid(m, H)
    ensures MapValid(r, H)
    ensures MapContents(r) == MapContents(m) - KeySet(keys)
    ensures KeySet(keys) !! MapContents(m).Keys ==> r == m
  {
    var root := m.root;
    if root.Some? {
      var i := 0;
      while i < |keys|
        invariant 0 <= i <= |keys| && root.Some?
        invariant Buckets.Valid(root.value, H) && Buckets.Contents(root.value) == MapContents(m) - KeySet(keys[..i])
        invariant KeySet(keys[..i]) !! MapContents(m).Keys ==> root == m.root
      {
        RemoveStep(MapContents(m), keys, i, root.value, H);
        root := Buckets.Remove(root.value, H(keys[i]), keys[i]);
        i := i + 1;
        if root.None? {
          break;
        }
      }
      assert root.Some? ==> keys[..i] == keys;
      KeySetPrefix(keys, i);
    }
    WrapDenotes(m, root, H);
    r := Wrap(m, root);
  }

  /** One step of RemoveRange: the next key removed from the root. */
  lemma RemoveStep<K, V>(c: map<K, V>, keys: seq<K>, i: int, b: Buckets.Bucket<K, V>, H: K -> bv32)
    requires 0 <= i < |keys| && Buckets.Valid(b, H) && Buckets.Contents(b) == c - KeySet(keys[..i])
    ensures var r := Buckets.Remove(b, H(keys[i]), keys[i]);
      && (r.Some? ==> Buckets.Valid(r.value, H) && Buckets.Contents(r.value) == c - KeySet(keys[..i + 1]))
      && (r.None? ==> c - KeySet(keys[..i + 1]) == map[])
      && (keys[i] !in c ==> r == Some(b))
  {
    var k := keys[i];
    RemoveCorrect(b, k, H);
    KeySetNext(keys, i);
    assert c - KeySet(keys[..i + 1]) == Buckets.Contents(b) - {k};
    if Buckets.Contents(b).Keys == {k} {
      assert Buckets.Contents(b) - {k} == map[];
    }
  }

  /** The keys of a prefix one longer: one more key. */
  lemma KeySetNext<K>(keys: seq<K>, i: int)
    requires 0 <= i < |keys|
    ensures KeySet(keys[..i + 1]) == KeySet(keys[..i]) + {keys[i]}
  {
    assert keys[..i + 1] == keys[..i] + [keys[i]];
  }

  /** The keys of a prefix are keys of the whole. */
  lemma KeySetPrefix<K>(keys: seq<K>, i: int)
    requires 0 <= i <= |keys|
    ensures KeySet(keys[..i]) <= KeySet(keys)
  {
    forall k | k in KeySet(keys[..i]) ensures k in KeySet(keys) {
      var j :| 0 <= j < i && keys[..i][j] == k;
      assert keys[j] == k;
    }
  }

  // ---------------------------------------------------------------------
  // Adding pairs
  // ---------------------------------------------------------------------

  /** The finite map after setting the pairs in order: a later pair wins. */
  function SetPairs<K, V>(c: map<K, V>, pairs: seq<(K, V)>): map<K, V>
    decreases |pairs|
  {
    if pairs == [] then c
    else
      var last := pairs[|pairs| - 1];
      SetPairs(c, pairs[..|pairs| - 1])[last.0 := last.1]
  }

  /** Some pair meets its key already there, from `c` or an earlier pair, with another value. */
  predicate Collides<K, V(==)>(c: map<K, V>, pairs: seq<(K, V)>) {
    exists i :: 0 <= i < |pairs| && Clash(SetPairs(c, pairs[..i]), pairs[i])
  }

  predicate Clash<K, V(==)>(c: map<K, V>, pair: (K, V)) {
    pair.0 in c && c[pair.0] != pair.1
  }

  /**
   * AddRange (with the flag for collisions): Add or SetItem for each pair.
   * With overwriting it always succeeds; without, it fails with DuplicateKey
   * exactly when some pair collides; otherwise the map holds the pairs set
   * in order over its entries.
   */
  method AddPairs<K(==), V(==)>(m: ImmutableHashMap<K, V>, pairs: seq<(K, V)>, overwriteOnCollision: bool, H: K -> bv32)
    returns (r: Result<ImmutableHashMap<K, V>, Error>)
    requires MapValid(m, H)
    ensures r.Failure? <==> !overwriteOnCollision && Collides(MapContents(m), pairs)
    ensures r.Failure? ==> r.error == DuplicateKey
    ensures r.Success? ==> MapValid(r.value, H) && MapContents(r.value) == SetPairs(MapContents(m), pairs)
  {
    var current := m;
    for i := 0 to |pairs|
      invariant MapValid(current, H)
      invariant MapContents(current) == SetPairs(MapContents(m), pairs[..i])
      invariant overwriteOnCollision || !Collides(MapContents(m), pairs[..i])
    {
      var pair := pairs[i];
      assert pairs[..i + 1][..i] == pairs[..i];
      if overwriteOnCollision {
        SetItemSpec(current, pair.0, pair.1, H);
        current := SetItem(current, pair.0, pair.1, H);
      } else {
        AddSpec(current, pair.0, pair.1, H);
        var added := Add(current, pair.0, pair.1, H);
        if added.Failure? {
          assert Clash(SetPairs(MapContents(m), pairs[..i]), pairs[i]);
          return Failure(added.error);
        }
        current := added.value;
        PrefixNoClash(MapContents(m), pairs, i);
      }
    }
    assert pairs[..|pairs|] == pairs;
    return Success(current);
  }

  /** A prefix without collisions, extended by a pair that does not clash, has none. */
  lemma PrefixNoClash<K, V>(c: map<K, V>, pairs: seq<(K, V)>, i: int)
    requires 0 <= i < |pairs|
    requires !Collides(c, pairs[..i]) && !Clash(SetPairs(c, pairs[..i]), pairs[i])
    ensures !Collides(c, pairs[..i + 1])
  {
    var extended := pairs[..i + 1];
    forall j | 0 <= j < |extended| ensures !Clash(SetPairs(c, extended[..j]), extended[j]) {
      if j < i {
        assert extended[..j] == pairs[..i][..j];
        assert extended[j] == pairs[..i][j];
      } else {
        assert extended[..j] == pairs[..i];
      }
    }
  }

  /** AddRange: the pairs added with Add; a collision fails with DuplicateKey. */
  method AddRange<K(==), V(==)>(m: ImmutableHashMap<K, V>, pairs: seq<(K, V)>, H: K -> bv32)
    returns (r: Result<ImmutableHashMap<K, V>, Error>)
    requires MapValid(m, H)
    ensures r.Failure? <==> Collides(MapContents(m), pairs)
    ensures r.Failure? ==> r.error == DuplicateKey
    ensures r.Success? ==> MapValid(r.value, H) && MapContents(r.value) == SetPairs(MapContents(m), pairs)
  {
    r := AddPairs(m, pairs, false, H);
  }

  /** SetItems: the pairs set with SetItem, a later pair winning. */
  method SetItems<K(==), V(==)>(m: ImmutableHashMap<K, V>, items: seq<(K, V)>, H: K -> bv32)
    returns (r: ImmutableHashMap<K, V>)
    requires MapValid(m, H)
    ensures MapValid(r, H) && MapContents(r) == SetPairs(MapContents(m), items)
  {
    var added := AddPairs(m, items, true, H);
    r := added.value;
  }

  // ---------------------------------------------------------------------
  // What setting pairs gives
  // ---------------------------------------------------------------------

  /** Setting pairs keeps the keys there and adds the pairs' keys, and no others. */
  lemma {:induction false} SetPairsKeys<K, V>(c: map<K, V>, pairs: seq<(K, V)>)
    ensures SetPairs(c, pairs).Keys == c.Keys + set i | 0 <= i < |pairs| :: pairs[i].0
    decreases |pairs|
  {
    if pairs != [] {
      var init := pairs[..|pairs| - 1];
      SetPairsKeys(c, init);
      assert (set i | 0 <= i < |pairs| :: pairs[i].0)
          == (set i | 0 <= i < |init| :: init[i].0) + {pairs[|pairs| - 1].0};
    }
  }

  /** A key that no pair names keeps its value. */
  lemma {:induction false} SetPairsOther<K, V>(c: map<K, V>, pairs: seq<(K, V)>, k: K)
    requires k in c && forall i :: 0 <= i < |pairs| ==> pairs[i].0 != k
    ensures k in SetPairs(c, pairs) && SetPairs(c, pairs)[k] == c[k]
    decreases |pairs|
  {
    if pairs != [] {
      SetPairsOther(c, pairs[..|pairs| - 1], k);
    }
  }

  /** A key named by a pair takes the value of the last pair that names it. */
  lemma {:induction false} SetPairsLast<K, V>(c: map<K, V>, pairs: seq<(K, V)>, i: int)
    requires 0 <= i < |pairs|
    requires forall j :: i < j < |pairs| ==> pairs[j].0 != pairs[i].0
    ensures pairs[i].0 in SetPairs(c, pairs) && SetPairs(c, pairs)[pairs[i].0] == pairs[i].1
    decreases |pairs|
  {
    if i < |pairs| - 1 {
      SetPairsLast(c, pairs[..|pairs| - 1], i);
    }
  }

  /** Pairs of new, different keys never collide, so AddRange adds them all. */
  lemma {:induction false} FreshPairsDoNotCollide<K, V>(c: map<K, V>, pairs: seq<(K, V)>)
    requires forall i :: 0 <= i < |pairs| ==> pairs[i].0 !in c
    requires forall i, j :: 0 <= i < j < |pairs| ==> pairs[i].0 != pairs[j].0
    ensures !Collides(c, pairs)
  {
    forall i | 0 <= i < |pairs| ensures !Clash(SetPairs(c, pairs[..i]), pairs[i]) {
      SetPairsKeys(c, pairs[..i]);
    }
  }
}
