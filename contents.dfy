/**
 * What the buckets hold, in terms of maps: the contents of a list of value
 * buckets, the union of a hash bucket's children, the sum of their counts,
 * and how the `used` bitmap routes each key to exactly one child.
 */
module BucketContents {
  import opened Bits
  import opened Buckets

  // ---------------------------------------------------------------------
  // Lists of value buckets
  // ---------------------------------------------------------------------

  /** A key is in a list's contents exactly when Find locates it, with that entry's value. */
  lemma {:induction false} ListContentsIndex<K, V>(vbs: seq<ValueBucket<K, V>>, x: K)
    ensures x in ListContents(vbs) <==> IndexOf(vbs, x) >= 0
    ensures x in ListContents(vbs) ==> ListContents(vbs)[x] == vbs[IndexOf(vbs, x)].value
    decreases |vbs|
  {
    if vbs != [] && vbs[0].key != x {
      ListContentsIndex(vbs[1..], x);
    }
  }

  /** With distinct keys, Find locates each entry at its own index. */
  lemma DistinctIndex<K, V>(vbs: seq<ValueBucket<K, V>>, i: int)
    requires DistinctKeys(vbs) && 0 <= i < |vbs|
    ensures IndexOf(vbs, vbs[i].key) == i
  {
  }

  /** With distinct keys, every entry is in the contents with its own value. */
  lemma ListContentsAt<K, V>(vbs: seq<ValueBucket<K, V>>, i: int)
    requires DistinctKeys(vbs) && 0 <= i < |vbs|
    ensures vbs[i].key in ListContents(vbs)
    ensures ListContents(vbs)[vbs[i].key] == vbs[i].value
  {
    DistinctIndex(vbs, i);
    ListContentsIndex(vbs, vbs[i].key);
  }

  /** A key of the contents is the key of some entry. */
  lemma ListContentsHas<K, V>(vbs: seq<ValueBucket<K, V>>, x: K) returns (i: int)
    requires x in ListContents(vbs)
    ensures 0 <= i < |vbs| && vbs[i].key == x
    ensures ListContents(vbs)[x] == vbs[i].value
  {
    ListContentsIndex(vbs, x);
    i := IndexOf(vbs, x);
  }

  /** Distinct keys make as many entries in the map as in the list. */
  lemma {:induction false} ListContentsSize<K, V>(vbs: seq<ValueBucket<K, V>>)
    requires DistinctKeys(vbs)
    ensures |ListContents(vbs)| == |vbs|
    decreases |vbs|
  {
    if vbs != [] {
      ListContentsSize(vbs[1..]);
      ListContentsIndex(vbs[1..], vbs[0].key);
    }
  }

  /** The contents of a concatenation: the first list's entries win. */
  lemma {:induction false} ListContentsAppend<K, V>(a: seq<ValueBucket<K, V>>, b: seq<ValueBucket<K, V>>)
    ensures ListContents(a + b) == ListContents(b) + ListContents(a)
    decreases |a|
  {
    if a == [] {
      assert a + b == b;
    } else {
      assert (a + b)[1..] == a[1..] + b;
      ListContentsAppend(a[1..], b);
    }
  }

  // ---------------------------------------------------------------------
  // The union of a hash bucket's children
  // ---------------------------------------------------------------------

  /** A key is in the union exactly when it is in some child. */
  lemma {:induction false} UnionHas<K, V>(cs: seq<Bucket<K, V>>, x: K)
    ensures x in UnionOf(cs) <==> exists i :: 0 <= i < |cs| && x in Contents(cs[i])
    decreases |cs|
  {
    if cs != [] {
      UnionHas(cs[1..], x);
      if x in UnionOf(cs[1..]) {
        var i :| 0 <= i < |cs[1..]| && x in Contents(cs[1..][i]);
        assert x in Contents(cs[i + 1]);
      }
      if exists i :: 0 <= i < |cs| && x in Contents(cs[i]) {
        var i :| 0 <= i < |cs| && x in Contents(cs[i]);
        if i > 0 {
          assert x in Contents(cs[1..][i - 1]);
        }
      }
    }
  }

  /** A key in only one child has that child's value in the union. */
  lemma {:induction false} UnionValue<K, V>(cs: seq<Bucket<K, V>>, i: int, x: K)
    requires 0 <= i < |cs| && x in Contents(cs[i])
    requires forall j :: 0 <= j < |cs| && j != i ==> x !in Contents(cs[j])
    ensures x in UnionOf(cs) && UnionOf(cs)[x] == Contents(cs[i])[x]
    decreases |cs|
  {
    if i == 0 {
      UnionHas(cs[1..], x);
    } else {
      forall j | 0 <= j < |cs[1..]| && j != i - 1 ensures x !in Contents(cs[1..][j]) {
        assert cs[1..][j] == cs[j + 1];
      }
      UnionValue(cs[1..], i - 1, x);
    }
  }

  /**
   * In a routed hash bucket a key is found in the union exactly when its
   * slot is used and the child of that slot holds it, with that child's
   * value.
   */
  lemma HashLookup<K, V>(roll: bv5, used: bv32, cs: seq<Bucket<K, V>>, H: K -> bv32, x: K)
    requires Routed(roll, used, cs, H)
    ensures x in UnionOf(cs) <==>
      IsSet(used, LogicalSlot(H(x), roll)) && Rank(used, roll, H(x)) < |cs| && x in Contents(cs[Rank(used, roll, H(x))])
    ensures x in UnionOf(cs) ==> UnionOf(cs)[x] == Contents(cs[Rank(used, roll, H(x))])[x]
  {
    UnionHas(cs, x);
    var r := Rank(used, roll, H(x));
    if r < |cs| && x in Contents(cs[r]) {
      UnionValue(cs, r, x);
    }
  }

  /** The union of a concatenation: later children win, as in a map merge. */
  lemma {:induction false} UnionAppend<K, V>(a: seq<Bucket<K, V>>, b: seq<Bucket<K, V>>)
    ensures UnionOf(a + b) == UnionOf(a) + UnionOf(b)
    decreases |a|
  {
    if a == [] {
      assert a + b == b;
    } else {
      assert (a + b)[0] == a[0] && (a + b)[1..] == a[1..] + b;
      UnionAppend(a[1..], b);
      MergeAssoc(Contents(a[0]), UnionOf(a[1..]), UnionOf(b));
    }
  }

  /** The union split around child `p`. */
  lemma UnionSplit<K, V>(cs: seq<Bucket<K, V>>, p: int)
    requires 0 <= p < |cs|
    ensures UnionOf(cs) == UnionOf(cs[..p]) + Contents(cs[p]) + UnionOf(cs[p + 1..])
  {
    var before, after := cs[..p], cs[p + 1..];
    assert cs == before + ([cs[p]] + after);
    UnionAppend(before, [cs[p]] + after);
    UnionAppend([cs[p]], after);
    UnionSingle(cs[p]);
    MergeAssoc(UnionOf(before), Contents(cs[p]), UnionOf(after));
  }

  /** The union after child `p` is replaced. */
  lemma UnionReplace<K, V>(cs: seq<Bucket<K, V>>, p: int, c: Bucket<K, V>)
    requires 0 <= p < |cs|
    ensures UnionOf(cs[p := c]) == UnionOf(cs[..p]) + Contents(c) + UnionOf(cs[p + 1..])
  {
    UnionSplit(cs[p := c], p);
    assert cs[p := c][..p] == cs[..p];
    assert cs[p := c][p + 1..] == cs[p + 1..];
  }

  /** The union after a child is inserted at `p`. */
  lemma UnionInsert<K, V>(cs: seq<Bucket<K, V>>, p: int, c: Bucket<K, V>)
    requires 0 <= p <= |cs|
    ensures UnionOf(InsertAt(cs, p, c)) == UnionOf(cs[..p]) + Contents(c) + UnionOf(cs[p..])
    ensures UnionOf(cs) == UnionOf(cs[..p]) + UnionOf(cs[p..])
  {
    var cs' := InsertAt(cs, p, c);
    UnionSplit(cs', p);
    assert cs'[..p] == cs[..p];
    assert cs'[p + 1..] == cs[p..];
    assert cs == cs[..p] + cs[p..];
    UnionAppend(cs[..p], cs[p..]);
  }

  /** The union after child `p` is removed. */
  lemma UnionRemove<K, V>(cs: seq<Bucket<K, V>>, p: int)
    requires 0 <= p < |cs|
    ensures UnionOf(RemoveAt(cs, p)) == UnionOf(cs[..p]) + UnionOf(cs[p + 1..])
  {
    assert RemoveAt(cs, p) == cs[..p] + cs[p + 1..];
    UnionAppend(cs[..p], cs[p + 1..]);
  }

  /** Updating the middle map of a merge updates the merge, when the last map lacks the key. */
  lemma MergeUpdate<K, V>(a: map<K, V>, c: map<K, V>, d: map<K, V>, k: K, v: V)
    requires k !in d
    ensures a + c[k := v] + d == (a + c + d)[k := v]
  {
  }

  /** Merging a new entry in the middle adds it to the merge, when the last map lacks the key. */
  lemma MergeInsert<K, V>(a: map<K, V>, d: map<K, V>, k: K, v: V)
    requires k !in d
    ensures a + map[k := v] + d == (a + d)[k := v]
  {
  }

  /** Dropping the middle map of a merge that only holds `k` removes `k`, when the others lack it. */
  lemma MergeRemove<K, V>(a: map<K, V>, c: map<K, V>, d: map<K, V>, k: K)
    requires k !in a && k !in d && c.Keys <= {k}
    ensures a + d == (a + c + d) - {k}
  {
  }

  lemma UnionSingle<K, V>(c: Bucket<K, V>)
    ensures UnionOf([c]) == Contents(c)
  {
    assert [c][1..] == [];
  }

  lemma MergeAssoc<K, V>(a: map<K, V>, b: map<K, V>, c: map<K, V>)
    ensures a + b + c == a + (b + c)
  {
  }

  /** A key whose slot is used and has rank `p` is in no child but child `p`. */
  lemma OnlyInChild<K, V>(roll: bv5, used: bv32, cs: seq<Bucket<K, V>>, H: K -> bv32, p: int, x: K)
    requires Routed(roll, used, cs, H) && 0 <= p < |cs|
    requires Rank(used, roll, H(x)) == p
    ensures x !in UnionOf(cs[..p]) && x !in UnionOf(cs[p + 1..])
  {
    var before, after := cs[..p], cs[p + 1..];
    forall i | 0 <= i < |before| ensures x !in Contents(before[i]) {
      assert before[i] == cs[i];
    }
    forall i | 0 <= i < |after| ensures x !in Contents(after[i]) {
      assert after[i] == cs[p + 1 + i];
    }
    UnionHas(cs[..p], x);
    UnionHas(cs[p + 1..], x);
  }

  /** The physical slot of a hash is the rank of its logical slot. */
  lemma SlotRank(used: bv32, n: nat, roll: bv5, h: bv32)
    requires n == Popcount(used)
    ensures PhysicalSlot(used, n, LogicalSlot(h, roll)) == Rank(used, roll, h)
  {
    PhysicalSlotInRange(used, n, LogicalSlot(h, roll));
  }

  /** Children of a routed node hold pairwise different keys. */
  predicate Disjoint<K(==), V>(cs: seq<Bucket<K, V>>) {
    forall i, j, x :: 0 <= i < |cs| && 0 <= j < |cs| && i != j && x in Contents(cs[i]) ==> x !in Contents(cs[j])
  }

  lemma RoutedDisjoint<K, V>(roll: bv5, used: bv32, cs: seq<Bucket<K, V>>, H: K -> bv32)
    requires Routed(roll, used, cs, H)
    ensures Disjoint(cs)
  {
    forall i, j, x | 0 <= i < |cs| && 0 <= j < |cs| && i != j && x in Contents(cs[i])
      ensures x !in Contents(cs[j])
    {
      assert Rank(used, roll, H(x)) == i;
    }
  }

  // ---------------------------------------------------------------------
  // Counts
  // ---------------------------------------------------------------------

  lemma {:induction false} SumCountsAppend<K, V>(a: seq<Bucket<K, V>>, b: seq<Bucket<K, V>>)
    ensures SumCounts(a + b) == SumCounts(a) + SumCounts(b)
    decreases |a|
  {
    if a == [] {
      assert a + b == b;
    } else {
      assert (a + b)[1..] == a[1..] + b;
      SumCountsAppend(a[1..], b);
    }
  }

  lemma SumCountsSplit<K, V>(cs: seq<Bucket<K, V>>, p: int)
    requires 0 <= p < |cs|
    ensures SumCounts(cs) == SumCounts(cs[..p]) + Count(cs[p]) + SumCounts(cs[p + 1..])
  {
    assert cs == cs[..p] + ([cs[p]] + cs[p + 1..]);
    SumCountsAppend(cs[..p], [cs[p]] + cs[p + 1..]);
    SumCountsAppend([cs[p]], cs[p + 1..]);
  }

  /** Replacing a child changes the sum by the difference of the two counts. */
  lemma SumCountsReplace<K, V>(cs: seq<Bucket<K, V>>, p: int, c: Bucket<K, V>)
    requires 0 <= p < |cs|
    ensures SumCounts(cs[p := c]) == SumCounts(cs) - Count(cs[p]) + Count(c)
  {
    SumCountsSplit(cs, p);
    SumCountsSplit(cs[p := c], p);
    assert cs[p := c][..p] == cs[..p];
    assert cs[p := c][p + 1..] == cs[p + 1..];
  }

  /** Inserting a child adds its count. */
  lemma SumCountsInsert<K, V>(cs: seq<Bucket<K, V>>, p: int, c: Bucket<K, V>)
    requires 0 <= p <= |cs|
    ensures SumCounts(InsertAt(cs, p, c)) == SumCounts(cs) + Count(c)
  {
    assert InsertAt(cs, p, c) == cs[..p] + ([c] + cs[p..]);
    SumCountsAppend(cs[..p], [c] + cs[p..]);
    SumCountsAppend([c], cs[p..]);
    assert cs == cs[..p] + cs[p..];
    SumCountsAppend(cs[..p], cs[p..]);
  }

  /** Removing a child takes its count away. */
  lemma SumCountsRemove<K, V>(cs: seq<Bucket<K, V>>, p: int)
    requires 0 <= p < |cs|
    ensures SumCounts(RemoveAt(cs, p)) == SumCounts(cs) - Count(cs[p])
  {
    SumCountsSplit(cs, p);
    assert RemoveAt(cs, p) == cs[..p] + cs[p + 1..];
    SumCountsAppend(cs[..p], cs[p + 1..]);
  }

  /** A node of two children holds, counts and lists what the two do. */
  lemma Pair<K, V>(cs: seq<Bucket<K, V>>)
    requires |cs| == 2
    ensures SumCounts(cs) == Count(cs[0]) + Count(cs[1])
    ensures UnionOf(cs) == Contents(cs[0]) + Contents(cs[1])
    ensures EntriesOf(cs) == Entries(cs[0]) + Entries(cs[1])
  {
    var t := cs[1..];
    assert t[1..] == [];
    assert SumCounts(t) == Count(cs[1]) + SumCounts(t[1..]);
    assert UnionOf(t) == Contents(cs[1]) + UnionOf(t[1..]);
    assert EntriesOf(t) == Entries(cs[1]) + EntriesOf(t[1..]);
  }

  // ---------------------------------------------------------------------
  // Validity of parts
  // ---------------------------------------------------------------------

  lemma ValidChild<K, V>(b: Bucket<K, V>, H: K -> bv32, i: int)
    requires Valid(b, H) && b.HashBucket? && 0 <= i < |b.buckets|
    ensures Valid(b.buckets[i], H)
  {
  }

  /** A hash bucket of two or more valid children, each routed to its slot, counting their sum, is valid. */
  lemma NodeValid<K, V>(roll: bv5, used: bv32, cs: seq<Bucket<K, V>>, H: K -> bv32)
    requires |cs| == Popcount(used) && |cs| >= 2
    requires forall i :: 0 <= i < |cs| ==> Valid(cs[i], H)
    requires Routed(roll, used, cs, H)
    ensures Valid(HashBucket(roll, used, cs, SumCounts(cs)), H)
  {
  }

  /** A valid child in place of child `p`, routed to its slot, keeps the node valid. */
  lemma ValidReplace<K, V>(b: Bucket<K, V>, p: int, c: Bucket<K, V>, H: K -> bv32)
    requires b.HashBucket? && Valid(b, H) && 0 <= p < |b.buckets| && Valid(c, H)
    requires Routed(b.hashRoll, b.used, b.buckets[p := c], H)
    ensures Valid(HashBucket(b.hashRoll, b.used, b.buckets[p := c], SumCounts(b.buckets[p := c])), H)
  {
    var cs' := b.buckets[p := c];
    forall i | 0 <= i < |cs'| ensures Valid(cs'[i], H) {
      if i != p {
        ValidChild(b, H, i);
      }
    }
    NodeValid(b.hashRoll, b.used, cs', H);
  }

  /** Valid children with a valid child inserted at `p`, routed to their slots, make a valid node. */
  lemma InsertValid<K, V>(roll: bv5, used: bv32, cs: seq<Bucket<K, V>>, p: int, c: Bucket<K, V>, H: K -> bv32)
    requires 0 <= p <= |cs| && |cs| >= 1 && Popcount(used) == |cs| + 1
    requires forall i :: 0 <= i < |cs| ==> Valid(cs[i], H)
    requires Valid(c, H)
    requires Routed(roll, used, InsertAt(cs, p, c), H)
    ensures Valid(HashBucket(roll, used, InsertAt(cs, p, c), SumCounts(InsertAt(cs, p, c))), H)
  {
    var cs' := InsertAt(cs, p, c);
    forall i | 0 <= i < |cs'| ensures Valid(cs'[i], H) {
      if i > p {
        assert cs'[i] == cs[i - 1];
      }
    }
    NodeValid(roll, used, cs', H);
  }

  /** Valid children less the one at `p`, two or more of them left, routed to their slots, make a valid node. */
  lemma DropValid<K, V>(roll: bv5, used: bv32, cs: seq<Bucket<K, V>>, p: int, H: K -> bv32)
    requires 0 <= p < |cs| && |cs| > 2 && Popcount(used) == |cs| - 1
    requires forall i :: 0 <= i < |cs| ==> Valid(cs[i], H)
    requires Routed(roll, used, RemoveAt(cs, p), H)
    ensures Valid(HashBucket(roll, used, RemoveAt(cs, p), SumCounts(RemoveAt(cs, p))), H)
  {
    var cs' := RemoveAt(cs, p);
    forall i | 0 <= i < |cs'| ensures Valid(cs'[i], H) {
      if i >= p {
        assert cs'[i] == cs[i + 1];
      }
    }
    NodeValid(roll, used, cs', H);
  }

  /** Every key of a value or list bucket has the bucket's hash. */
  lemma KeysHaveBucketHash<K, V>(b: Bucket<K, V>, H: K -> bv32, x: K)
    requires Valid(b, H) && (b.Leaf? || b.ListBucket?) && x in Contents(b)
    ensures H(x) == BucketHash(b)
  {
    if b.ListBucket? {
      var i := ListContentsHas(b.values, x);
    }
  }

  // ---------------------------------------------------------------------
  // Routing after the three changes a hash bucket makes to its children
  // ---------------------------------------------------------------------

  /** A child replaced by one whose keys all select its slot keeps the node routed. */
  lemma RoutedReplace<K, V>(roll: bv5, used: bv32, cs: seq<Bucket<K, V>>, H: K -> bv32, p: int, c: Bucket<K, V>)
    requires Routed(roll, used, cs, H) && 0 <= p < |cs|
    requires forall x :: x in Contents(c) ==> IsSet(used, LogicalSlot(H(x), roll)) && Rank(used, roll, H(x)) == p
    ensures Routed(roll, used, cs[p := c], H)
  {
  }

  /** A leaf inserted at the rank of its free slot, with the slot's bit set, keeps the node routed. */
  lemma RoutedInsert<K, V>(roll: bv5, used: bv32, cs: seq<Bucket<K, V>>, H: K -> bv32, vb: ValueBucket<K, V>)
    requires Routed(roll, used, cs, H)
    requires !IsSet(used, LogicalSlot(H(vb.key), roll))
    requires Rank(used, roll, H(vb.key)) <= |cs|
    ensures Routed(roll, InsertBit(LogicalSlot(H(vb.key), roll), used), InsertAt(cs, Rank(used, roll, H(vb.key)), Leaf(vb)), H)
  {
    var s := LogicalSlot(H(vb.key), roll);
    var p := Rank(used, roll, H(vb.key));
    var used' := InsertBit(s, used);
    var cs' := InsertAt(cs, p, Leaf(vb));
    forall i, x | 0 <= i < |cs'| && x in Contents(cs'[i])
      ensures IsSet(used', LogicalSlot(H(x), roll)) && Rank(used', roll, H(x)) == i
    {
      if i == p {
        assert x == vb.key;
        RankOfInserted(used, s);
      } else {
        var j := if i < p then i else i - 1;
        assert cs'[i] == cs[j];
        RankAfterAdd(roll, used, s, H(x), j, i);
      }
    }
  }

  /** A child dropped together with its slot's bit keeps the node routed. */
  lemma RoutedRemove<K, V>(roll: bv5, used: bv32, cs: seq<Bucket<K, V>>, H: K -> bv32, s: bv5)
    requires Routed(roll, used, cs, H)
    requires IsSet(used, s) && PopBelow(used, s as bv6) < |cs|
    ensures Routed(roll, RemoveBit(s, used), RemoveAt(cs, PopBelow(used, s as bv6)), H)
  {
    var p := PopBelow(used, s as bv6);
    var cs' := RemoveAt(cs, p);
    forall i, x | 0 <= i < |cs'| && x in Contents(cs'[i])
      ensures IsSet(RemoveBit(s, used), LogicalSlot(H(x), roll)) && Rank(RemoveBit(s, used), roll, H(x)) == i
    {
      var j := if i < p then i else i + 1;
      assert cs'[i] == cs[j];
      RankAfterDrop(roll, used, s, H(x), j, i);
    }
  }

  /** A key's child index after its node gains a child at slot `s`: one more at or above it. */
  lemma RankAfterAdd(roll: bv5, used: bv32, s: bv5, h: bv32, j: nat, i: nat)
    requires !IsSet(used, s) && IsSet(used, LogicalSlot(h, roll)) && Rank(used, roll, h) == j
    requires i == (if j < PopBelow(used, s as bv6) then j else j + 1)
    ensures IsSet(InsertBit(s, used), LogicalSlot(h, roll)) && Rank(InsertBit(s, used), roll, h) == i
  {
    RankShiftedUp(used, s, LogicalSlot(h, roll), j, i);
  }

  /** A key's child index after its node drops the child of slot `s`: one less above it. */
  lemma RankAfterDrop(roll: bv5, used: bv32, s: bv5, h: bv32, j: nat, i: nat)
    requires IsSet(used, s) && IsSet(used, LogicalSlot(h, roll)) && Rank(used, roll, h) == j
    requires j != PopBelow(used, s as bv6)
    requires i == (if j < PopBelow(used, s as bv6) then j else j - 1)
    ensures IsSet(RemoveBit(s, used), LogicalSlot(h, roll)) && Rank(RemoveBit(s, used), roll, h) == i
  {
    RankShiftedDown(used, s, LogicalSlot(h, roll), j, i);
  }
}
