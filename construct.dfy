/**
 * The two-bucket HashBucket constructor: its search for a hash roll always
 * succeeds on two different hashes, and the node it builds is a valid hash
 * bucket holding both buckets' entries. As the source writes it, the node's
 * count is 2 even when one of the buckets is a list bucket.
 */
module TwoBucketNode {
  import opened Wrappers
  import opened Bits
  import opened Buckets
  import opened BucketContents

  lemma {:induction false} FindRollReaches(h1: bv32, h2: bv32, suggested: bv5, i: bv6, j: bv6)
    requires i <= j < 32
    requires LogicalSlot(h1, RollAt(suggested, j)) != LogicalSlot(h2, RollAt(suggested, j))
    ensures FindRoll(h1, h2, suggested, i).Some?
    decreases j - i
  {
    if i < j && LogicalSlot(h1, RollAt(suggested, i)) == LogicalSlot(h2, RollAt(suggested, i)) {
      FindRollReaches(h1, h2, suggested, i + 1, j);
    }
  }

  /**
   * The search over the 32 rolls from any suggested one always finds a roll
   * that separates two different hashes, so the constructor's
   * InvalidOperationException cannot be thrown.
   */
  lemma FindRollSucceeds(h1: bv32, h2: bv32, suggested: bv5)
    requires h1 != h2
    ensures FindRoll(h1, h2, suggested, 0).Some?
  {
    var p := SeparatingRoll(h1, h2);
    var j := (p - suggested) as bv6;
    assert RollAt(suggested, j) == p;
    FindRollReaches(h1, h2, suggested, 0, j);
  }

  /**
   * Two value or list buckets of different hashes make a valid hash bucket
   * with two used slots, each bucket in the child its hash selects, holding
   * the entries of both, and counting them all.
   */
  lemma HashBucketOfValid<K, V>(suggested: bv5, b1: Bucket<K, V>, b2: Bucket<K, V>, H: K -> bv32)
    requires b1.Leaf? || b1.ListBucket?
    requires b2.Leaf? || b2.ListBucket?
    requires Valid(b1, H) && Valid(b2, H)
    requires BucketHash(b1) != BucketHash(b2)
    ensures HashBucketOf(suggested, b1, b2).Success?
    ensures var r := HashBucketOf(suggested, b1, b2).value;
      && Valid(r, H)
      && Popcount(r.used) == 2
      && Contents(r) == Contents(b1) + Contents(b2)
      && Count(r) == Count(b1) + Count(b2)
  {
    var h1, h2 := BucketHash(b1), BucketHash(b2);
    FindRollSucceeds(h1, h2, suggested);
    var roll := FindRoll(h1, h2, suggested, 0).value;
    HashBucketOfRoll(suggested, b1, b2, roll);
    TwoNode(roll, b1, b2, H);
  }

  /** The node the constructor returns for the roll its search finds. */
  lemma HashBucketOfRoll<K, V>(suggested: bv5, b1: Bucket<K, V>, b2: Bucket<K, V>, roll: bv5)
    requires b1.Leaf? || b1.ListBucket?
    requires b2.Leaf? || b2.ListBucket?
    requires FindRoll(BucketHash(b1), BucketHash(b2), suggested, 0) == Some(roll)
    ensures var s1, s2 := LogicalSlot(BucketHash(b1), roll), LogicalSlot(BucketHash(b2), roll);
      HashBucketOf(suggested, b1, b2)
        == Success(HashBucket(roll, TwoSlots(s1, s2), if s1 < s2 then [b1, b2] else [b2, b1], Count(b1) + Count(b2)))
  {
  }

  /** The node the constructor builds once it has found a separating roll. */
  lemma TwoNode<K, V>(roll: bv5, b1: Bucket<K, V>, b2: Bucket<K, V>, H: K -> bv32)
    requires b1.Leaf? || b1.ListBucket?
    requires b2.Leaf? || b2.ListBucket?
    requires Valid(b1, H) && Valid(b2, H)
    requires LogicalSlot(BucketHash(b1), roll) != LogicalSlot(BucketHash(b2), roll)
    ensures var s1, s2 := LogicalSlot(BucketHash(b1), roll), LogicalSlot(BucketHash(b2), roll);
      var r := HashBucket(roll, TwoSlots(s1, s2), if s1 < s2 then [b1, b2] else [b2, b1], Count(b1) + Count(b2));
      && Valid(r, H)
      && Popcount(r.used) == 2
      && Contents(r) == Contents(b1) + Contents(b2)
  {
    var s1, s2 := LogicalSlot(BucketHash(b1), roll), LogicalSlot(BucketHash(b2), roll);
    forall x | x in Contents(b1) ensures LogicalSlot(H(x), roll) == s1 {
      KeysHaveBucketHash(b1, H, x);
    }
    forall x | x in Contents(b2) ensures LogicalSlot(H(x), roll) == s2 {
      KeysHaveBucketHash(b2, H, x);
    }
    TwoNodeAt(roll, b1, b2, s1, s2, H);
  }

  lemma TwoNodeAt<K, V>(roll: bv5, b1: Bucket<K, V>, b2: Bucket<K, V>, s1: bv5, s2: bv5, H: K -> bv32)
    requires Valid(b1, H) && Valid(b2, H)
    requires s1 != s2
    requires forall x :: x in Contents(b1) ==> LogicalSlot(H(x), roll) == s1
    requires forall x :: x in Contents(b2) ==> LogicalSlot(H(x), roll) == s2
    ensures var r := HashBucket(roll, TwoSlots(s1, s2), if s1 < s2 then [b1, b2] else [b2, b1], Count(b1) + Count(b2));
      && Valid(r, H)
      && Popcount(r.used) == 2
      && Contents(r) == Contents(b1) + Contents(b2)
  {
    var cs := if s1 < s2 then [b1, b2] else [b2, b1];
    RoutedTwo(roll, b1, b2, s1, s2, H);
    TwoBits(s1, s2);
    assert Valid(cs[0], H) && Valid(cs[1], H) && Count(cs[0]) + Count(cs[1]) == Count(b1) + Count(b2);
    TwoNodeValid(roll, TwoSlots(s1, s2), cs, H);
    TwoNodeContents(roll, b1, b2, s1, s2, H);
  }

  /** Two valid children, routed to the two used slots, make a valid node. */
  lemma TwoNodeValid<K, V>(roll: bv5, used: bv32, cs: seq<Bucket<K, V>>, H: K -> bv32)
    requires |cs| == 2 && Popcount(used) == 2
    requires Valid(cs[0], H) && Valid(cs[1], H)
    requires Routed(roll, used, cs, H)
    ensures Valid(HashBucket(roll, used, cs, Count(cs[0]) + Count(cs[1])), H)
  {
    Pair(cs);
    NodeValid(roll, used, cs, H);
  }

  /** The node of two children routed to different slots holds the entries of both. */
  lemma TwoNodeContents<K, V>(roll: bv5, b1: Bucket<K, V>, b2: Bucket<K, V>, s1: bv5, s2: bv5, H: K -> bv32)
    requires Routed(roll, TwoSlots(s1, s2), if s1 < s2 then [b1, b2] else [b2, b1], H)
    ensures var r := HashBucket(roll, TwoSlots(s1, s2), if s1 < s2 then [b1, b2] else [b2, b1], Count(b1) + Count(b2));
      Contents(r) == Contents(b1) + Contents(b2)
  {
    var cs := if s1 < s2 then [b1, b2] else [b2, b1];
    Pair(cs);
    RoutedDisjoint(roll, TwoSlots(s1, s2), cs, H);
    if !(s1 < s2) {
      assert Contents(b2).Keys !! Contents(b1).Keys by {
        forall x | x in Contents(b2) ensures x !in Contents(b1) {
          assert x in Contents(cs[0]);
        }
      }
      assert Contents(b2) + Contents(b1) == Contents(b1) + Contents(b2);
    }
  }

  /** Each of the two children holds only keys whose slot has its rank. */
  lemma RoutedTwo<K, V>(roll: bv5, b1: Bucket<K, V>, b2: Bucket<K, V>, s1: bv5, s2: bv5, H: K -> bv32)
    requires s1 != s2
    requires forall x :: x in Contents(b1) ==> LogicalSlot(H(x), roll) == s1
    requires forall x :: x in Contents(b2) ==> LogicalSlot(H(x), roll) == s2
    ensures Routed(roll, TwoSlots(s1, s2), if s1 < s2 then [b1, b2] else [b2, b1], H)
  {
    var used := TwoSlots(s1, s2);
    var cs := if s1 < s2 then [b1, b2] else [b2, b1];
    TwoBits(s1, s2);
    forall i, k | 0 <= i < |cs| && k in Contents(cs[i])
      ensures IsSet(used, LogicalSlot(H(k), roll)) && Rank(used, roll, H(k)) == i
    {
      var s := LogicalSlot(H(k), roll);
      assert s == if (i == 0) == (s1 < s2) then s1 else s2;
    }
  }

  // ---------------------------------------------------------------------
  // The count as the source writes it
  // ---------------------------------------------------------------------

  /** A key hash with a collision: keys 0 and 1 share hash 0, key 2 has hash 1. */
  function CollidingHash(x: int): bv32 {
    if x == 2 then 1 else 0
  }

  /**
   * ListBucket.Add passes itself to the constructor when the new key's hash
   * differs. With the list {0, 1} (both hash 0) and key 2 (hash 1), the node
   * built as written counts 2 but holds 3 entries, so it breaks the count
   * invariant; the corrected constructor counts 3.
   */
  lemma AsWrittenCountIsWrong()
    ensures var list := ListBucket(0, [ValueBucket(0, 10, 0), ValueBucket(1, 11, 0)]);
      var leaf := Leaf(ValueBucket(2, 12, 1));
      && Valid(list, CollidingHash) && Valid(leaf, CollidingHash)
      && HashBucketOfAsWritten(0, list, leaf).Success?
      && Count(HashBucketOfAsWritten(0, list, leaf).value) == 2
      && |Entries(HashBucketOfAsWritten(0, list, leaf).value)| == 3
      && !Valid(HashBucketOfAsWritten(0, list, leaf).value, CollidingHash)
      && Count(HashBucketOf(0, list, leaf).value) == 3
  {
    var list := ListBucket(0, [ValueBucket(0, 10, 0), ValueBucket(1, 11, 0)]);
    var leaf := Leaf(ValueBucket(2, 12, 1));
    assert LogicalSlot(0, 0) == 0 && LogicalSlot(1, 0) == 1;
    assert FindRoll(0, 1, 0, 0) == Some(0);
    TwoBits(0, 1);
    var r := HashBucketOfAsWritten(0, list, leaf).value;
    assert r.buckets == [list, leaf];
    Pair(r.buckets);
  }
}
