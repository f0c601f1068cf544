/**
 * Bucket.Get is correct: on a valid bucket, looking a key up with its own
 * hash finds a value bucket exactly when the key is in the bucket, and that
 * value bucket holds the key, its hash and the value the bucket maps it to.
 */
module BucketLookup {
  import opened Wrappers
  import opened Bits
  import opened Buckets
  import opened BucketContents

  /** What Get promises for looking `k` up in `b`. */
  predicate Found<K(==), V(==)>(b: Bucket<K, V>, k: K, r: Option<ValueBucket<K, V>>, H: K -> bv32) {
    && (r.Some? <==> k in Contents(b))
    && (r.Some? ==> r.value == ValueBucket(k, Contents(b)[k], H(k)))
  }

  lemma {:induction false} GetCorrect<K, V>(b: Bucket<K, V>, k: K, H: K -> bv32)
    requires Valid(b, H)
    ensures Found(b, k, Get(b, H(k), k), H)
    decreases b
  {
    match b
    case Leaf(_) =>
    case ListBucket(_, _) =>
      GetList(b, k, H);
    case HashBucket(roll, used, cs, _) =>
      var s := LogicalSlot(H(k), roll);
      IsInUseIsSet(used, s);
      HashLookup(roll, used, cs, H, k);
      if IsInUse(used, s) {
        PhysicalSlotInRange(used, |cs|, s);
        var p := PhysicalSlot(used, |cs|, s);
        SlotRank(used, |cs|, roll, H(k));
        ValidChild(b, H, p);
        GetCorrect(cs[p], k, H);
        GetChild(b, p, k, H);
      }
  }

  /** A list bucket finds a key of its hash at the key's position, and nothing else. */
  lemma GetList<K, V>(b: Bucket<K, V>, k: K, H: K -> bv32)
    requires b.ListBucket? && Valid(b, H)
    ensures Found(b, k, Get(b, H(k), k), H)
  {
    var values := b.values;
    var pos := IndexOf(values, k);
    if pos >= 0 {
      ListContentsAt(values, pos);
    } else if k in ListContents(values) {
      var i := ListContentsHas(values, k);
    }
  }

  /** The hash bucket looks the key up in the child of the key's slot. */
  lemma GetChild<K, V>(b: Bucket<K, V>, p: int, k: K, H: K -> bv32)
    requires b.HashBucket? && Valid(b, H)
    requires IsInUse(b.used, LogicalSlot(H(k), b.hashRoll))
    requires p == PhysicalSlot(b.used, |b.buckets|, LogicalSlot(H(k), b.hashRoll)) < |b.buckets|
    requires p == Rank(b.used, b.hashRoll, H(k))
    requires k in Contents(b) <==> k in Contents(b.buckets[p])
    requires k in Contents(b) ==> Contents(b)[k] == Contents(b.buckets[p])[k]
    requires Found(b.buckets[p], k, Get(b.buckets[p], H(k), k), H)
    ensures Found(b, k, Get(b, H(k), k), H)
  {
  }
}
