/**
 * Bucket.Remove is correct: on a valid bucket it gives the empty bucket
 * exactly when the key was the only one, and otherwise a valid bucket that
 * holds every other entry, counts one less exactly when the key was there,
 * and is the same bucket exactly when the key was not there.
 */
module BucketRemove {
  import opened Wrappers
  import opened Bits
  import opened Buckets
  import opened BucketContents
  import opened BucketEntries

  /** What Remove promises for removing `k` from `b`. */
  predicate Removed<K(==), V(==)>(b: Bucket<K, V>, k: K, r: Option<Bucket<K, V>>, H: K -> bv32) {
    && (r.None? <==> Contents(b).Keys == {k})
    && (r.Some? ==>
          && Valid(r.value, H)
          && Contents(r.value) == Contents(b) - {k}
          && Count(r.value) == (if k in Contents(b) then Count(b) - 1 else Count(b))
          && (r.value == b <==> k !in Contents(b)))
  }

  lemma {:induction false} RemoveCorrect<K, V>(b: Bucket<K, V>, k: K, H: K -> bv32)
    requires Valid(b, H)
    ensures Removed(b, k, Remove(b, H(k), k), H)
    decreases b, 1
  {
    match b
    case Leaf(_) =>
    case ListBucket(_, _) =>
      RemoveList(b, k, H);
    case HashBucket(_, _, _, _) =>
      RemoveHash(b, k, H);
  }

  /** HashBucket.Remove is correct, given that Remove is correct on the children. */
  lemma {:induction false} RemoveHash<K, V>(b: Bucket<K, V>, k: K, H: K -> bv32)
    requires b.HashBucket? && Valid(b, H)
    ensures Removed(b, k, HashRemove(b, H(k), k), H)
    decreases b, 0
  {
    var roll, used, cs := b.hashRoll, b.used, b.buckets;
    var s := LogicalSlot(H(k), roll);
    IsInUseIsSet(used, s);
    CountIsSize(b, H);
    if IsInUse(used, s) {
      PhysicalSlotInRange(used, |cs|, s);
      var p := PhysicalSlot(used, |cs|, s);
      ValidChild(b, H, p);
      RemoveCorrect(cs[p], k, H);
      RemoveUsed(b, k, H);
    } else {
      HashLookup(roll, used, cs, H, k);
    }
  }

  // ---------------------------------------------------------------------
  // List buckets
  // ---------------------------------------------------------------------

  /** Removing an entry keeps the keys distinct. */
  lemma RemoveAtDistinct<K, V>(values: seq<ValueBucket<K, V>>, pos: int)
    requires DistinctKeys(values) && 0 <= pos < |values|
    ensures DistinctKeys(RemoveAt(values, pos))
  {
    var r := RemoveAt(values, pos);
    forall i, j | 0 <= i < j < |r| ensures r[i].key != r[j].key {
      var i', j' := if i < pos then i else i + 1, if j < pos then j else j + 1;
      assert r[i] == values[i'] && r[j] == values[j'];
    }
  }

  /** Removing the entry at `pos` from a list of distinct keys removes its key from the contents. */
  lemma {:induction false} ListContentsRemove<K, V>(values: seq<ValueBucket<K, V>>, pos: int)
    requires DistinctKeys(values) && 0 <= pos < |values|
    ensures ListContents(RemoveAt(values, pos)) == ListContents(values) - {values[pos].key}
    decreases pos
  {
    var rest := values[1..];
    ListContentsIndex(rest, values[0].key);
    if pos == 0 {
      assert RemoveAt(values, pos) == rest;
    } else {
      ListContentsRemove(rest, pos - 1);
      ListContentsRemoveStep(values, pos);
    }
  }

  /** One step of the induction: the first entry stays in front. */
  lemma ListContentsRemoveStep<K, V>(values: seq<ValueBucket<K, V>>, pos: int)
    requires 0 < pos < |values| && values[0].key != values[pos].key
    requires values[0].key !in ListContents(values[1..])
    requires ListContents(RemoveAt(values[1..], pos - 1)) == ListContents(values[1..]) - {values[pos].key}
    ensures ListContents(RemoveAt(values, pos)) == ListContents(values) - {values[pos].key}
  {
    var r := RemoveAt(values, pos);
    assert r[0] == values[0] && r[1..] == RemoveAt(values[1..], pos - 1);
  }

  /** The two entries of a two-entry list are its contents. */
  lemma ListContentsTwo<K, V>(values: seq<ValueBucket<K, V>>)
    requires |values| == 2
    ensures ListContents(values) == map[values[1].key := values[1].value][values[0].key := values[0].value]
  {
    var rest := values[1..];
    assert rest[1..] == [];
    assert ListContents(rest) == map[][values[1].key := values[1].value];
  }

  lemma RemoveList<K, V>(b: Bucket<K, V>, k: K, H: K -> bv32)
    requires b.ListBucket? && Valid(b, H)
    ensures Removed(b, k, ListRemove(b.hash, b.values, H(k), k), H)
  {
    var values := b.values;
    ListContentsIndex(values, k);
    ListContentsSize(values);
    if b.hash == H(k) {
      var pos := IndexOf(values, k);
      if pos >= 0 {
        if |values| == 2 {
          ListContentsTwo(values);
        } else {
          ListContentsRemove(values, pos);
          RemoveAtDistinct(values, pos);
          var r := ListBucket(b.hash, RemoveAt(values, pos));
          assert ListRemove(b.hash, values, H(k), k) == Some(r);
          assert Valid(r, H);
        }
      }
    } else if k in Contents(b) {
      KeysHaveBucketHash(b, H, k);
    }
  }

  // ---------------------------------------------------------------------
  // Hash buckets
  // ---------------------------------------------------------------------

  /** HashBucket.Remove on a used slot, unfolded. */
  lemma HashRemoveAt<K, V>(b: Bucket<K, V>, k: K, H: K -> bv32)
    requires b.HashBucket? && WellFormed(b)
    requires IsInUse(b.used, LogicalSlot(H(k), b.hashRoll))
    ensures IsSet(b.used, LogicalSlot(H(k), b.hashRoll))
    ensures PhysicalSlot(b.used, |b.buckets|, LogicalSlot(H(k), b.hashRoll)) < |b.buckets|
    ensures var s := LogicalSlot(H(k), b.hashRoll);
      var p := PhysicalSlot(b.used, |b.buckets|, s);
      HashRemove(b, H(k), k) == RemoveFromChild(b, s, p, Remove(b.buckets[p], H(k), k))
  {
    PhysicalSlotInRange(b.used, |b.buckets|, LogicalSlot(H(k), b.hashRoll));
    IsInUseIsSet(b.used, LogicalSlot(H(k), b.hashRoll));
  }

  /** The slot of the key is used: Remove goes down into that slot's child. */
  lemma RemoveUsed<K, V>(b: Bucket<K, V>, k: K, H: K -> bv32)
    requires b.HashBucket? && Valid(b, H)
    requires IsInUse(b.used, LogicalSlot(H(k), b.hashRoll))
    requires PhysicalSlot(b.used, |b.buckets|, LogicalSlot(H(k), b.hashRoll)) < |b.buckets|
    requires var p := PhysicalSlot(b.used, |b.buckets|, LogicalSlot(H(k), b.hashRoll));
      Removed(b.buckets[p], k, Remove(b.buckets[p], H(k), k), H)
    ensures Removed(b, k, HashRemove(b, H(k), k), H)
  {
    var roll, used, cs := b.hashRoll, b.used, b.buckets;
    var s := LogicalSlot(H(k), roll);
    HashRemoveAt(b, k, H);
    var p := PhysicalSlot(used, |cs|, s);
    SlotRank(used, |cs|, roll, H(k));
    KeyOfChild(b, p, k, H);
    var res := Remove(cs[p], H(k), k);
    if res.None? {
      ChildEmptied(b, s, p, k, H);
    } else if res.value != cs[p] {
      ChildChanged(b, s, p, k, res.value, H);
    }
  }

  /** The key of slot rank `p` is in the node exactly when it is in child `p`. */
  lemma KeyOfChild<K, V>(b: Bucket<K, V>, p: int, k: K, H: K -> bv32)
    requires b.HashBucket? && Routed(b.hashRoll, b.used, b.buckets, H)
    requires IsSet(b.used, LogicalSlot(H(k), b.hashRoll))
    requires p == Rank(b.used, b.hashRoll, H(k)) < |b.buckets|
    ensures k in Contents(b) <==> k in Contents(b.buckets[p])
  {
    HashLookup(b.hashRoll, b.used, b.buckets, H, k);
  }

  /** The child held only the key: the node drops it, or gives way to the other child. */
  lemma ChildEmptied<K, V>(b: Bucket<K, V>, s: bv5, p: int, k: K, H: K -> bv32)
    requires b.HashBucket? && Valid(b, H)
    requires s == LogicalSlot(H(k), b.hashRoll) && IsSet(b.used, s)
    requires p == Rank(b.used, b.hashRoll, H(k)) < |b.buckets|
    requires Contents(b.buckets[p]).Keys == {k}
    ensures Removed(b, k, RemoveFromChild(b, s, p, None), H)
  {
    EmptiedFacts(b, p, k, H);
    if |b.buckets| == 2 {
      EmptiedTwo(b, s, p, k, H);
    } else {
      EmptiedMore(b, s, p, k, H);
    }
  }

  /** Of two children, the node gives way to the one left. */
  lemma EmptiedTwo<K, V>(b: Bucket<K, V>, s: bv5, p: int, k: K, H: K -> bv32)
    requires b.HashBucket? && Valid(b, H) && |b.buckets| == 2 && 0 <= p < 2 && IsSet(b.used, s)
    requires k in Contents(b) && Count(b.buckets[p]) == 1
    requires UnionOf(b.buckets[..p]) + UnionOf(b.buckets[p + 1..]) == Contents(b) - {k}
    ensures Removed(b, k, RemoveFromChild(b, s, p, None), H)
  {
    var cs := b.buckets;
    var other := if p == 0 then cs[1] else cs[0];
    assert RemoveFromChild(b, s, p, None) == Some(other);
    RestOfTwo(cs, p);
    EmptiedOfTwo(b, p, k, H);
  }

  /** Of more than two children, the node drops the child and its slot. */
  lemma EmptiedMore<K, V>(b: Bucket<K, V>, s: bv5, p: int, k: K, H: K -> bv32)
    requires b.HashBucket? && Valid(b, H) && |b.buckets| > 2
    requires IsSet(b.used, s) && p == PopBelow(b.used, s as bv6) < |b.buckets|
    requires k in Contents(b) && Count(b.buckets[p]) == 1 && Count(b) == |Contents(b)|
    requires UnionOf(b.buckets[..p]) + UnionOf(b.buckets[p + 1..]) == Contents(b) - {k}
    ensures Removed(b, k, RemoveFromChild(b, s, p, None), H)
  {
    var roll, used, cs := b.hashRoll, b.used, b.buckets;
    var r := HashBucket(roll, RemoveBit(s, used), RemoveAt(cs, p), b.count - Count(cs[p]));
    assert RemoveFromChild(b, s, p, None) == Some(r);
    UnionRemove(cs, p);
    EmptiedOfMore(b, s, p, H);
    CountIsSize(r, H);
  }

  /** The child of rank `p` holds just `k`, once, and the other children hold the rest. */
  lemma EmptiedFacts<K, V>(b: Bucket<K, V>, p: int, k: K, H: K -> bv32)
    requires b.HashBucket? && Valid(b, H)
    requires p == Rank(b.used, b.hashRoll, H(k)) < |b.buckets|
    requires Contents(b.buckets[p]).Keys == {k}
    ensures k in Contents(b) && Count(b.buckets[p]) == 1 && |b.buckets| >= 2
    ensures Count(b) == |Contents(b)|
    ensures UnionOf(b.buckets[..p]) + UnionOf(b.buckets[p + 1..]) == Contents(b) - {k}
  {
    var roll, used, cs := b.hashRoll, b.used, b.buckets;
    ValidChild(b, H, p);
    SingleCount(cs[p], k, H);
    CountIsSize(b, H);
    EmptiedUnion(roll, used, cs, H, p, k);
  }

  /** A valid bucket holding one key counts one. */
  lemma SingleCount<K, V>(c: Bucket<K, V>, k: K, H: K -> bv32)
    requires Valid(c, H) && Contents(c).Keys == {k}
    ensures Count(c) == 1
  {
    CountIsSize(c, H);
    assert |Contents(c)| == |Contents(c).Keys|;
  }

  /** Child `p` holds only `k`: the others hold the union without `k`. */
  lemma EmptiedUnion<K, V>(roll: bv5, used: bv32, cs: seq<Bucket<K, V>>, H: K -> bv32, p: int, k: K)
    requires Routed(roll, used, cs, H) && 0 <= p < |cs|
    requires Rank(used, roll, H(k)) == p && Contents(cs[p]).Keys == {k}
    ensures k in UnionOf(cs)
    ensures UnionOf(cs[..p]) + UnionOf(cs[p + 1..]) == UnionOf(cs) - {k}
  {
    UnionSplit(cs, p);
    OnlyInChild(roll, used, cs, H, p, k);
    MergeRemove(UnionOf(cs[..p]), Contents(cs[p]), UnionOf(cs[p + 1..]), k);
  }

  /** Of two children, the rest around child `p` is the other child. */
  lemma RestOfTwo<K, V>(cs: seq<Bucket<K, V>>, p: int)
    requires |cs| == 2 && 0 <= p < 2
    ensures UnionOf(cs[..p]) + UnionOf(cs[p + 1..]) == Contents(if p == 0 then cs[1] else cs[0])
  {
    if p == 0 {
      assert cs[..p] == [] && cs[p + 1..] == [cs[1]];
      UnionSingle(cs[1]);
    } else {
      assert cs[..p] == [cs[0]] && cs[p + 1..] == [];
      UnionSingle(cs[0]);
    }
  }

  /** Of two children, the one left is what remains. */
  lemma EmptiedOfTwo<K, V>(b: Bucket<K, V>, p: int, k: K, H: K -> bv32)
    requires b.HashBucket? && Valid(b, H) && |b.buckets| == 2 && 0 <= p < 2
    requires k in Contents(b) && Count(b.buckets[p]) == 1
    requires Contents(b) - {k} == Contents(if p == 0 then b.buckets[1] else b.buckets[0])
    ensures Removed(b, k, Some(if p == 0 then b.buckets[1] else b.buckets[0]), H)
  {
    var other := if p == 0 then b.buckets[1] else b.buckets[0];
    Pair(b.buckets);
    ValidChild(b, H, 1 - p);
    CountIsSize(other, H);
    assert other in b.buckets;
  }

  /** Of more than two children, the node drops the child and its slot. */
  lemma EmptiedOfMore<K, V>(b: Bucket<K, V>, s: bv5, p: int, H: K -> bv32)
    requires b.HashBucket? && Valid(b, H) && |b.buckets| > 2
    requires IsSet(b.used, s) && p == PopBelow(b.used, s as bv6) < |b.buckets|
    ensures var cs' := RemoveAt(b.buckets, p);
      && Valid(HashBucket(b.hashRoll, RemoveBit(s, b.used), cs', SumCounts(cs')), H)
      && SumCounts(cs') == b.count - Count(b.buckets[p])
  {
    var roll, used, cs := b.hashRoll, b.used, b.buckets;
    var cs' := RemoveAt(cs, p);
    PopcountInsertRemove(used, s);
    RoutedRemove(roll, used, cs, H, s);
    SumCountsRemove(cs, p);
    DropValid(roll, RemoveBit(s, used), cs, p, H);
  }

  /** Dropping `k` from the middle map of a merge drops it from the merge, when the others lack it. */
  lemma MergeDelete<K, V>(a: map<K, V>, c: map<K, V>, d: map<K, V>, k: K)
    requires k !in a && k !in d
    ensures a + (c - {k}) + d == (a + c + d) - {k}
  {
  }

  /** The child changed: the node takes the new child in its place. */
  lemma ChildChanged<K, V>(b: Bucket<K, V>, s: bv5, p: int, k: K, result: Bucket<K, V>, H: K -> bv32)
    requires b.HashBucket? && Valid(b, H)
    requires s == LogicalSlot(H(k), b.hashRoll) && IsSet(b.used, s)
    requires p == Rank(b.used, b.hashRoll, H(k)) < |b.buckets|
    requires Removed(b.buckets[p], k, Some(result), H) && result != b.buckets[p]
    requires k in Contents(b) <==> k in Contents(b.buckets[p])
    ensures Removed(b, k, RemoveFromChild(b, s, p, Some(result)), H)
  {
    var cs := b.buckets;
    var r := HashBucket(b.hashRoll, b.used, cs[p := result], b.count - Count(cs[p]) + Count(result));
    ChangedResult(b, s, p, result);
    ChangedNode(b, p, k, result, H);
    assert k in Contents(cs[p]);
    RemovedPresent(b, k, r, H);
  }

  /** A changed child takes the old one's place, and the node changes with it. */
  lemma ChangedResult<K, V>(b: Bucket<K, V>, s: bv5, p: int, result: Bucket<K, V>)
    requires b.HashBucket? && IsSet(b.used, s) && 0 <= p < |b.buckets| && result != b.buckets[p]
    ensures var r := HashBucket(b.hashRoll, b.used, b.buckets[p := result], b.count - Count(b.buckets[p]) + Count(result));
      RemoveFromChild(b, s, p, Some(result)) == Some(r) && r != b
  {
    var r := HashBucket(b.hashRoll, b.used, b.buckets[p := result], b.count - Count(b.buckets[p]) + Count(result));
    assert r.buckets[p] != b.buckets[p];
  }

  /** A valid bucket holding all but the key, present before, counting one less, meets the Remove contract. */
  lemma RemovedPresent<K, V>(b: Bucket<K, V>, k: K, r: Bucket<K, V>, H: K -> bv32)
    requires Valid(r, H) && k in Contents(b) && Contents(r) == Contents(b) - {k}
    requires Count(r) == Count(b) - 1 && r != b
    ensures Removed(b, k, Some(r), H)
  {
    CountIsSize(r, H);
    var x :| x in Contents(r);
    assert x in Contents(b) && x != k;
  }

  /** The node with child `p`, the child of the key's slot, replaced by the child after Remove. */
  lemma ChangedNode<K, V>(b: Bucket<K, V>, p: int, k: K, result: Bucket<K, V>, H: K -> bv32)
    requires b.HashBucket? && Valid(b, H)
    requires p == Rank(b.used, b.hashRoll, H(k)) < |b.buckets|
    requires Valid(result, H) && Contents(result) == Contents(b.buckets[p]) - {k}
    ensures var r := HashBucket(b.hashRoll, b.used, b.buckets[p := result], b.count - Count(b.buckets[p]) + Count(result));
      && Valid(r, H)
      && Contents(r) == Contents(b) - {k}
  {
    var roll, used, cs := b.hashRoll, b.used, b.buckets;
    ShrunkRouted(roll, used, cs, H, p, result);
    SumCountsReplace(cs, p, result);
    assert SumCounts(cs[p := result]) == b.count - Count(cs[p]) + Count(result);
    ValidReplace(b, p, result, H);
    ChangedUnion(roll, used, cs, H, p, k, result);
  }

  /** A child with fewer keys in place of child `p` keeps the children routed. */
  lemma ShrunkRouted<K, V>(roll: bv5, used: bv32, cs: seq<Bucket<K, V>>, H: K -> bv32, p: int, c: Bucket<K, V>)
    requires Routed(roll, used, cs, H) && 0 <= p < |cs|
    requires Contents(c).Keys <= Contents(cs[p]).Keys
    ensures Routed(roll, used, cs[p := c], H)
  {
    forall x | x in Contents(c)
      ensures IsSet(used, LogicalSlot(H(x), roll)) && Rank(used, roll, H(x)) == p
    {
      assert x in Contents(cs[p]);
    }
    RoutedReplace(roll, used, cs, H, p, c);
  }

  /** Child `p` of routed children loses `k`: the union loses `k`. */
  lemma ChangedUnion<K, V>(roll: bv5, used: bv32, cs: seq<Bucket<K, V>>, H: K -> bv32, p: int, k: K, c: Bucket<K, V>)
    requires Routed(roll, used, cs, H) && 0 <= p < |cs|
    requires Rank(used, roll, H(k)) == p && Contents(c) == Contents(cs[p]) - {k}
    ensures UnionOf(cs[p := c]) == UnionOf(cs) - {k}
  {
    UnionSplit(cs, p);
    UnionReplace(cs, p, c);
    OnlyInChild(roll, used, cs, H, p, k);
    MergeDelete(UnionOf(cs[..p]), Contents(cs[p]), UnionOf(cs[p + 1..]), k);
  }
}
