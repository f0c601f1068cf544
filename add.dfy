/**
 * Bucket.Add is correct: on a valid bucket it fails exactly when the key is
 * there with another value and overwriting is off, and otherwise returns a
 * valid bucket that maps the key to the new value and keeps every other
 * entry, counts one more exactly when the key was absent, and is the same
 * bucket exactly when the key was already there with that value.
 */
module BucketAdd {
  import opened Wrappers
  import opened Bits
  import opened Buckets
  import opened BucketContents
  import opened TwoBucketNode

  /** What Add promises for adding `vb` to `b`. */
  predicate Added<K(==), V(==)>(b: Bucket<K, V>, vb: ValueBucket<K, V>, overwrite: bool, r: Result<Bucket<K, V>, Error>, H: K -> bv32) {
    var k, v := vb.key, vb.value;
    && (r.Failure? <==> k in Contents(b) && Contents(b)[k] != v && !overwrite)
    && (r.Failure? ==> r.error == DuplicateKey)
    && (r.Success? ==>
          && Valid(r.value, H)
          && Contents(r.value) == Contents(b)[k := v]
          && Count(r.value) == (if k in Contents(b) then Count(b) else Count(b) + 1)
          && (r.value == b <==> k in Contents(b) && Contents(b)[k] == v))
  }

  lemma {:induction false} AddCorrect<K, V>(b: Bucket<K, V>, suggested: bv5, vb: ValueBucket<K, V>, overwrite: bool, H: K -> bv32)
    requires Valid(b, H) && vb.hash == H(vb.key)
    ensures Added(b, vb, overwrite, Add(b, suggested, vb, overwrite), H)
    decreases b, 1
  {
    match b
    case Leaf(_) =>
      AddLeaf(b, suggested, vb, overwrite, H);
    case ListBucket(_, _) =>
      AddList(b, suggested, vb, overwrite, H);
    case HashBucket(_, _, _, _) =>
      AddHash(b, vb, overwrite, H);
  }

  /** HashBucket.Add is correct, given that Add is correct on the children. */
  lemma {:induction false} AddHash<K, V>(b: Bucket<K, V>, vb: ValueBucket<K, V>, overwrite: bool, H: K -> bv32)
    requires b.HashBucket? && Valid(b, H) && vb.hash == H(vb.key)
    ensures Added(b, vb, overwrite, HashAdd(b, vb, overwrite), H)
    decreases b, 0
  {
    var roll, used, cs := b.hashRoll, b.used, b.buckets;
    var s := LogicalSlot(vb.hash, roll);
    IsInUseIsSet(used, s);
    if IsInUse(used, s) {
      HashAddAt(b, vb, overwrite);
      var p := PhysicalSlot(used, |cs|, s);
      SlotRank(used, |cs|, roll, H(vb.key));
      ValidChild(b, H, p);
      AddCorrect(cs[p], roll + 5, vb, overwrite, H);
      AddOccupied(b, p, vb, overwrite, Add(cs[p], roll + 5, vb, overwrite), H);
    } else {
      AddFree(b, vb, overwrite, H);
    }
  }

  // ---------------------------------------------------------------------
  // Value buckets
  // ---------------------------------------------------------------------

  lemma AddLeaf<K, V>(b: Bucket<K, V>, suggested: bv5, vb: ValueBucket<K, V>, overwrite: bool, H: K -> bv32)
    requires b.Leaf? && Valid(b, H) && vb.hash == H(vb.key)
    ensures Added(b, vb, overwrite, LeafAdd(b.vb, suggested, vb, overwrite), H)
  {
    var v := b.vb;
    if v.hash != vb.hash {
      AddLeafOther(b, suggested, vb, overwrite, H);
    } else if v.key != vb.key {
      AddLeafPair(b, suggested, vb, overwrite, H);
    }
  }

  /** A new key of the same hash makes a list bucket of the two. */
  lemma AddLeafPair<K, V>(b: Bucket<K, V>, suggested: bv5, vb: ValueBucket<K, V>, overwrite: bool, H: K -> bv32)
    requires b.Leaf? && Valid(b, H) && vb.hash == H(vb.key)
    requires b.vb.hash == vb.hash && b.vb.key != vb.key
    ensures Added(b, vb, overwrite, LeafAdd(b.vb, suggested, vb, overwrite), H)
  {
    var values := [b.vb, vb];
    assert LeafAdd(b.vb, suggested, vb, overwrite) == Success(ListBucket(vb.hash, values));
    assert values[1..] == [vb] && values[1..][1..] == [];
    assert ListContents(values[1..]) == map[vb.key := vb.value];
  }

  /** A key of another hash makes a hash bucket of the two value buckets. */
  lemma AddLeafOther<K, V>(b: Bucket<K, V>, suggested: bv5, vb: ValueBucket<K, V>, overwrite: bool, H: K -> bv32)
    requires b.Leaf? && Valid(b, H) && vb.hash == H(vb.key)
    requires b.vb.hash != vb.hash
    ensures Added(b, vb, overwrite, LeafAdd(b.vb, suggested, vb, overwrite), H)
  {
    assert LeafAdd(b.vb, suggested, vb, overwrite) == HashBucketOf(suggested, b, Leaf(vb));
    HashBucketOfValid(suggested, b, Leaf(vb), H);
  }

  // ---------------------------------------------------------------------
  // List buckets
  // ---------------------------------------------------------------------

  /** Replacing the entry of key `k` in a list of distinct keys updates the contents at `k`. */
  lemma {:induction false} ListContentsReplace<K, V>(values: seq<ValueBucket<K, V>>, pos: int, vb: ValueBucket<K, V>)
    requires DistinctKeys(values) && 0 <= pos < |values| && values[pos].key == vb.key
    ensures DistinctKeys(values[pos := vb])
    ensures ListContents(values[pos := vb]) == ListContents(values)[vb.key := vb.value]
    decreases pos
  {
    var values' := values[pos := vb];
    assert forall i :: 0 <= i < |values'| ==> values'[i].key == values[i].key;
    if pos == 0 {
      assert values'[1..] == values[1..];
    } else {
      assert values'[1..] == values[1..][pos - 1 := vb];
      ListContentsReplace(values[1..], pos - 1, vb);
      assert values[0].key != vb.key;
    }
  }

  /** A key missing from a list is different from every key in it. */
  lemma AppendDistinct<K, V>(values: seq<ValueBucket<K, V>>, vb: ValueBucket<K, V>)
    requires DistinctKeys(values) && IndexOf(values, vb.key) < 0
    ensures DistinctKeys(values + [vb])
    ensures ListContents(values + [vb]) == ListContents(values)[vb.key := vb.value]
  {
    ListContentsAppend(values, [vb]);
    ListContentsIndex(values, vb.key);
    assert [vb][1..] == [];
  }

  lemma AddList<K, V>(b: Bucket<K, V>, suggested: bv5, vb: ValueBucket<K, V>, overwrite: bool, H: K -> bv32)
    requires b.ListBucket? && Valid(b, H) && vb.hash == H(vb.key)
    ensures Added(b, vb, overwrite, ListAdd(b.hash, b.values, suggested, vb, overwrite), H)
  {
    if b.hash == vb.hash {
      var pos := IndexOf(b.values, vb.key);
      ListContentsIndex(b.values, vb.key);
      if pos < 0 {
        AddListNew(b, suggested, vb, overwrite, H);
      } else if vb.value != b.values[pos].value && overwrite {
        AddListReplace(b, suggested, vb, overwrite, H);
      }
    } else {
      AddListOther(b, suggested, vb, overwrite, H);
    }
  }

  /** A new key of the list's hash is appended. */
  lemma AddListNew<K, V>(b: Bucket<K, V>, suggested: bv5, vb: ValueBucket<K, V>, overwrite: bool, H: K -> bv32)
    requires b.ListBucket? && Valid(b, H) && vb.hash == H(vb.key)
    requires b.hash == vb.hash && IndexOf(b.values, vb.key) < 0
    ensures Added(b, vb, overwrite, ListAdd(b.hash, b.values, suggested, vb, overwrite), H)
  {
    var values := b.values;
    assert InsertAt(values, |values|, vb) == values + [vb];
    var r := ListBucket(b.hash, values + [vb]);
    assert ListAdd(b.hash, b.values, suggested, vb, overwrite) == Success(r);
    ListContentsIndex(values, vb.key);
    AppendDistinct(values, vb);
    assert Valid(r, H);
  }

  /** The key is in the list with another value, and overwriting is on. */
  lemma AddListReplace<K, V>(b: Bucket<K, V>, suggested: bv5, vb: ValueBucket<K, V>, overwrite: bool, H: K -> bv32)
    requires b.ListBucket? && Valid(b, H) && vb.hash == H(vb.key)
    requires b.hash == vb.hash && IndexOf(b.values, vb.key) >= 0
    requires vb.value != b.values[IndexOf(b.values, vb.key)].value && overwrite
    ensures Added(b, vb, overwrite, ListAdd(b.hash, b.values, suggested, vb, overwrite), H)
  {
    var values := b.values;
    var pos := IndexOf(values, vb.key);
    var r := ListBucket(b.hash, values[pos := vb]);
    assert ListAdd(b.hash, b.values, suggested, vb, overwrite) == Success(r);
    ListContentsIndex(values, vb.key);
    ListContentsReplace(values, pos, vb);
    assert Valid(r, H);
  }

  /** A key of another hash makes a hash bucket of the list and a value bucket. */
  lemma AddListOther<K, V>(b: Bucket<K, V>, suggested: bv5, vb: ValueBucket<K, V>, overwrite: bool, H: K -> bv32)
    requires b.ListBucket? && Valid(b, H) && vb.hash == H(vb.key)
    requires b.hash != vb.hash
    ensures Added(b, vb, overwrite, ListAdd(b.hash, b.values, suggested, vb, overwrite), H)
  {
    assert ListAdd(b.hash, b.values, suggested, vb, overwrite) == HashBucketOf(suggested, b, Leaf(vb));
    if vb.key in Contents(b) {
      KeysHaveBucketHash(b, H, vb.key);
    }
    HashBucketOfValid(suggested, b, Leaf(vb), H);
  }

  // ---------------------------------------------------------------------
  // Hash buckets
  // ---------------------------------------------------------------------

  /** HashBucket.Add on a used slot, unfolded. */
  lemma HashAddAt<K, V>(b: Bucket<K, V>, vb: ValueBucket<K, V>, overwrite: bool)
    requires b.HashBucket? && WellFormed(b)
    requires IsInUse(b.used, LogicalSlot(vb.hash, b.hashRoll))
    ensures PhysicalSlot(b.used, |b.buckets|, LogicalSlot(vb.hash, b.hashRoll)) < |b.buckets|
    ensures var p := PhysicalSlot(b.used, |b.buckets|, LogicalSlot(vb.hash, b.hashRoll));
      HashAdd(b, vb, overwrite) == ReplaceChild(b, p, Add(b.buckets[p], b.hashRoll + 5, vb, overwrite))
  {
    PhysicalSlotInRange(b.used, |b.buckets|, LogicalSlot(vb.hash, b.hashRoll));
  }

  /**
   * The slot of the new key is used: Add went down into that slot's child,
   * at rank `p`, with result `res`, and the node takes what came back.
   */
  lemma AddOccupied<K, V>(b: Bucket<K, V>, p: int, vb: ValueBucket<K, V>, overwrite: bool, res: Result<Bucket<K, V>, Error>, H: K -> bv32)
    requires b.HashBucket? && Valid(b, H) && vb.hash == H(vb.key)
    requires IsSet(b.used, LogicalSlot(vb.hash, b.hashRoll))
    requires p == Rank(b.used, b.hashRoll, vb.hash) < |b.buckets|
    requires Added(b.buckets[p], vb, overwrite, res, H)
    ensures Added(b, vb, overwrite, ReplaceChild(b, p, res), H)
  {
    var cs := b.buckets;
    KeyInChild(b, p, vb.key, H);
    if res.Success? && res.value != cs[p] {
      OccupiedChanged(b, p, vb, overwrite, res, H);
    } else {
      OccupiedSame(b, p, vb, overwrite, res, H);
    }
  }

  /** Add failed in the child, or left it unchanged: the node fails alike, or comes back unchanged. */
  lemma OccupiedSame<K, V>(b: Bucket<K, V>, p: int, vb: ValueBucket<K, V>, overwrite: bool, res: Result<Bucket<K, V>, Error>, H: K -> bv32)
    requires b.HashBucket? && Valid(b, H) && 0 <= p < |b.buckets|
    requires Added(b.buckets[p], vb, overwrite, res, H)
    requires res.Failure? || res.value == b.buckets[p]
    requires vb.key in Contents(b) <==> vb.key in Contents(b.buckets[p])
    requires vb.key in Contents(b) ==> Contents(b)[vb.key] == Contents(b.buckets[p])[vb.key]
    ensures Added(b, vb, overwrite, ReplaceChild(b, p, res), H)
  {
    if res.Success? {
      assert Contents(b)[vb.key := vb.value] == Contents(b);
    }
  }

  /** The key of slot rank `p` is in the node exactly when it is in child `p`, with the same value. */
  lemma KeyInChild<K, V>(b: Bucket<K, V>, p: int, k: K, H: K -> bv32)
    requires b.HashBucket? && Routed(b.hashRoll, b.used, b.buckets, H)
    requires IsSet(b.used, LogicalSlot(H(k), b.hashRoll))
    requires p == Rank(b.used, b.hashRoll, H(k)) < |b.buckets|
    ensures k in Contents(b) <==> k in Contents(b.buckets[p])
    ensures k in Contents(b) ==> Contents(b)[k] == Contents(b.buckets[p])[k]
  {
    HashLookup(b.hashRoll, b.used, b.buckets, H, k);
  }

  /** The child changed: the node takes the new child in its place. */
  lemma OccupiedChanged<K, V>(b: Bucket<K, V>, p: int, vb: ValueBucket<K, V>, overwrite: bool, res: Result<Bucket<K, V>, Error>, H: K -> bv32)
    requires b.HashBucket? && Valid(b, H) && vb.hash == H(vb.key)
    requires IsSet(b.used, LogicalSlot(vb.hash, b.hashRoll))
    requires p == Rank(b.used, b.hashRoll, vb.hash) < |b.buckets|
    requires Added(b.buckets[p], vb, overwrite, res, H)
    requires res.Success? && res.value != b.buckets[p]
    requires vb.key in Contents(b) <==> vb.key in Contents(b.buckets[p])
    requires vb.key in Contents(b) ==> Contents(b)[vb.key] == Contents(b.buckets[p])[vb.key]
    ensures Added(b, vb, overwrite, ReplaceChild(b, p, res), H)
  {
    var added := res.value;
    var r := HashBucket(b.hashRoll, b.used, b.buckets[p := added], b.count - Count(b.buckets[p]) + Count(added));
    ChildReplaced(b, p, res);
    OccupiedNode(b, p, vb, added, H);
    AddedChanged(b, vb, overwrite, r, H);
  }

  /** ReplaceChild with a changed child, unfolded: a node that is not `b`, counting the difference. */
  lemma ChildReplaced<K, V>(b: Bucket<K, V>, p: int, res: Result<Bucket<K, V>, Error>)
    requires b.HashBucket? && 0 <= p < |b.buckets| && res.Success? && res.value != b.buckets[p]
    ensures var r := HashBucket(b.hashRoll, b.used, b.buckets[p := res.value], b.count - Count(b.buckets[p]) + Count(res.value));
      && ReplaceChild(b, p, res) == Success(r)
      && r != b
      && Count(r) == Count(b) - Count(b.buckets[p]) + Count(res.value)
  {
    var r := HashBucket(b.hashRoll, b.used, b.buckets[p := res.value], b.count - Count(b.buckets[p]) + Count(res.value));
    assert r.buckets[p] != b.buckets[p];
  }

  /** A new valid bucket holding the new entry over the old ones, counting the key once, is what Add promises. */
  lemma AddedChanged<K, V>(b: Bucket<K, V>, vb: ValueBucket<K, V>, overwrite: bool, r: Bucket<K, V>, H: K -> bv32)
    requires Valid(r, H) && Contents(r) == Contents(b)[vb.key := vb.value] && r != b
    requires vb.key in Contents(b) ==> Contents(b)[vb.key] != vb.value && overwrite
    requires Count(r) == if vb.key in Contents(b) then Count(b) else Count(b) + 1
    ensures Added(b, vb, overwrite, Success(r), H)
  {
  }

  /** The node with child `p`, the child of the new key's slot, replaced by the child after Add. */
  lemma OccupiedNode<K, V>(b: Bucket<K, V>, p: int, vb: ValueBucket<K, V>, added: Bucket<K, V>, H: K -> bv32)
    requires b.HashBucket? && Valid(b, H) && vb.hash == H(vb.key)
    requires IsSet(b.used, LogicalSlot(vb.hash, b.hashRoll))
    requires p == Rank(b.used, b.hashRoll, vb.hash) < |b.buckets|
    requires Valid(added, H) && Contents(added) == Contents(b.buckets[p])[vb.key := vb.value]
    ensures var cs' := b.buckets[p := added];
      var r := HashBucket(b.hashRoll, b.used, cs', b.count - Count(b.buckets[p]) + Count(added));
      && Valid(r, H)
      && Contents(r) == Contents(b)[vb.key := vb.value]
  {
    var roll, used, cs := b.hashRoll, b.used, b.buckets;
    var k, v := vb.key, vb.value;
    var existing := cs[p];
    forall x | x in Contents(added)
      ensures IsSet(used, LogicalSlot(H(x), roll)) && Rank(used, roll, H(x)) == p
    {
      if x != k {
        assert x in Contents(existing);
      }
    }
    RoutedReplace(roll, used, cs, H, p, added);
    SumCountsReplace(cs, p, added);
    UnionSplit(cs, p);
    UnionReplace(cs, p, added);
    OnlyInChild(roll, used, cs, H, p, k);
    MergeUpdate(UnionOf(cs[..p]), Contents(existing), UnionOf(cs[p + 1..]), k, v);
    ValidReplace(b, p, added, H);
  }

  /** HashBucket.Add on a free slot, unfolded. */
  lemma HashAddFree<K, V>(b: Bucket<K, V>, vb: ValueBucket<K, V>, overwrite: bool)
    requires b.HashBucket? && WellFormed(b)
    requires !IsSet(b.used, LogicalSlot(vb.hash, b.hashRoll))
    ensures Rank(b.used, b.hashRoll, vb.hash) <= |b.buckets|
    ensures var s, p := LogicalSlot(vb.hash, b.hashRoll), Rank(b.used, b.hashRoll, vb.hash);
      HashAdd(b, vb, overwrite) ==
        Success(HashBucket(b.hashRoll, InsertBit(s, b.used), InsertAt(b.buckets, p, Leaf(vb)), b.count + 1))
  {
    var s := LogicalSlot(vb.hash, b.hashRoll);
    var p := PhysicalSlot(b.used, |b.buckets|, s);
    PhysicalSlotInRange(b.used, |b.buckets|, s);
    assert p == Rank(b.used, b.hashRoll, vb.hash) && p <= |b.buckets|;
    IsInUseIsSet(b.used, s);
    assert HashAdd(b, vb, overwrite) == Success(HashBucket(b.hashRoll, InsertBit(s, b.used), InsertAt(b.buckets, p, Leaf(vb)), b.count + 1));
  }

  /** The slot of the new key is free: Add puts a value bucket there. */
  lemma AddFree<K, V>(b: Bucket<K, V>, vb: ValueBucket<K, V>, overwrite: bool, H: K -> bv32)
    requires b.HashBucket? && Valid(b, H) && vb.hash == H(vb.key)
    requires !IsInUse(b.used, LogicalSlot(vb.hash, b.hashRoll))
    ensures Added(b, vb, overwrite, HashAdd(b, vb, overwrite), H)
  {
    var roll, used, cs := b.hashRoll, b.used, b.buckets;
    var s := LogicalSlot(vb.hash, roll);
    IsInUseIsSet(used, s);
    HashAddFree(b, vb, overwrite);
    FreeNode(b, vb, H);
  }

  /** The node with a value bucket in the free slot of its key. */
  lemma FreeNode<K, V>(b: Bucket<K, V>, vb: ValueBucket<K, V>, H: K -> bv32)
    requires b.HashBucket? && Valid(b, H) && vb.hash == H(vb.key)
    requires !IsSet(b.used, LogicalSlot(vb.hash, b.hashRoll))
    requires Rank(b.used, b.hashRoll, vb.hash) <= |b.buckets|
    ensures var s, p := LogicalSlot(vb.hash, b.hashRoll), Rank(b.used, b.hashRoll, vb.hash);
      var r := HashBucket(b.hashRoll, InsertBit(s, b.used), InsertAt(b.buckets, p, Leaf(vb)), b.count + 1);
      && vb.key !in Contents(b)
      && Valid(r, H)
      && Contents(r) == Contents(b)[vb.key := vb.value]
  {
    FreeNodeValid(b, vb, H);
    FreeNodeContents(b.hashRoll, b.used, b.buckets, vb, H);
  }

  /** The node with the new value bucket in its free slot is valid. */
  lemma FreeNodeValid<K, V>(b: Bucket<K, V>, vb: ValueBucket<K, V>, H: K -> bv32)
    requires b.HashBucket? && Valid(b, H) && vb.hash == H(vb.key)
    requires !IsSet(b.used, LogicalSlot(vb.hash, b.hashRoll))
    requires Rank(b.used, b.hashRoll, vb.hash) <= |b.buckets|
    ensures var s, p := LogicalSlot(vb.hash, b.hashRoll), Rank(b.used, b.hashRoll, vb.hash);
      Valid(HashBucket(b.hashRoll, InsertBit(s, b.used), InsertAt(b.buckets, p, Leaf(vb)), b.count + 1), H)
  {
    var roll, used, cs := b.hashRoll, b.used, b.buckets;
    var s := LogicalSlot(vb.hash, roll);
    var p := Rank(used, roll, vb.hash);
    RoutedInsert(roll, used, cs, H, vb);
    SumCountsInsert(cs, p, Leaf(vb));
    PopcountInsertRemove(used, s);
    InsertValid(roll, InsertBit(s, used), cs, p, Leaf(vb), H);
  }

  /** The children with the new value bucket at the rank of its free slot hold one more entry, the new one. */
  lemma FreeNodeContents<K, V>(roll: bv5, used: bv32, cs: seq<Bucket<K, V>>, vb: ValueBucket<K, V>, H: K -> bv32)
    requires Routed(roll, used, cs, H)
    requires !IsSet(used, LogicalSlot(H(vb.key), roll))
    requires Rank(used, roll, H(vb.key)) <= |cs|
    ensures vb.key !in UnionOf(cs)
    ensures UnionOf(InsertAt(cs, Rank(used, roll, H(vb.key)), Leaf(vb))) == UnionOf(cs)[vb.key := vb.value]
  {
    var p := Rank(used, roll, H(vb.key));
    HashLookup(roll, used, cs, H, vb.key);
    UnionInsert(cs, p, Leaf(vb));
    MergeInsert(UnionOf(cs[..p]), UnionOf(cs[p..]), vb.key, vb.value);
  }
}
