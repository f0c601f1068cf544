/**
 * The value buckets of a bucket in enumeration order (what GetValueBuckets
 * yields): there are Count of them, at least one, their keys are distinct,
 * and read as a list they are the bucket's contents.
 */
module BucketEntries {
  import opened Bits
  import opened Buckets
  import opened BucketContents

  /** The position of an entry's key in a list is found, so the key is in the list's contents. */
  lemma EntryInContents<K, V>(vbs: seq<ValueBucket<K, V>>, i: int)
    requires 0 <= i < |vbs|
    ensures vbs[i].key in ListContents(vbs)
  {
    ListContentsIndex(vbs, vbs[i].key);
  }

  /** Merging maps with disjoint keys does not depend on the order. */
  lemma MergeCommute<K, V>(a: map<K, V>, b: map<K, V>)
    requires a.Keys !! b.Keys
    ensures a + b == b + a
  {
  }

  /** Two lists of distinct keys with disjoint contents make one list of distinct keys. */
  lemma DistinctAppend<K, V>(a: seq<ValueBucket<K, V>>, c: seq<ValueBucket<K, V>>)
    requires DistinctKeys(a) && DistinctKeys(c)
    requires ListContents(a).Keys !! ListContents(c).Keys
    ensures DistinctKeys(a + c)
    ensures ListContents(a + c) == ListContents(a) + ListContents(c)
  {
    forall i, j | 0 <= i < j < |a + c| ensures (a + c)[i].key != (a + c)[j].key {
      if j < |a| {
        assert (a + c)[i] == a[i] && (a + c)[j] == a[j];
      } else if |a| <= i {
        assert (a + c)[i] == c[i - |a|] && (a + c)[j] == c[j - |a|];
      } else {
        EntryInContents(a, i);
        EntryInContents(c, j - |a|);
        assert (a + c)[i] == a[i] && (a + c)[j] == c[j - |a|];
      }
    }
    assert ListContents(a + c) == ListContents(a) + ListContents(c) by {
      ListContentsAppend(a, c);
      MergeCommute(ListContents(a), ListContents(c));
    }
  }

  /** The first child of disjoint children shares no key with the rest. */
  lemma DisjointFirst<K, V>(cs: seq<Bucket<K, V>>)
    requires |cs| >= 1 && Disjoint(cs)
    ensures Disjoint(cs[1..])
    ensures Contents(cs[0]).Keys !! UnionOf(cs[1..]).Keys
  {
    var rest := cs[1..];
    forall x | x in Contents(cs[0]) ensures x !in UnionOf(rest) {
      forall j | 0 <= j < |rest| ensures x !in Contents(rest[j]) {
        assert rest[j] == cs[j + 1];
      }
      UnionHas(rest, x);
    }
    forall i, j, x | 0 <= i < |rest| && 0 <= j < |rest| && i != j && x in Contents(rest[i])
      ensures x !in Contents(rest[j])
    {
      assert rest[i] == cs[i + 1] && rest[j] == cs[j + 1];
    }
  }

  /** The entries of a valid bucket: Count of them, at least one, distinct keys, and the contents. */
  lemma {:induction false} EntriesValid<K, V>(b: Bucket<K, V>, H: K -> bv32)
    requires Valid(b, H)
    ensures |Entries(b)| == Count(b) >= 1
    ensures DistinctKeys(Entries(b))
    ensures ListContents(Entries(b)) == Contents(b)
    decreases b, 1
  {
    match b
    case Leaf(v) =>
      assert [v][1..] == [];
    case ListBucket(_, _) =>
    case HashBucket(roll, used, cs, _) =>
      RoutedDisjoint(roll, used, cs, H);
      EntriesOfValid(cs, H);
  }

  lemma {:induction false} EntriesOfValid<K, V>(cs: seq<Bucket<K, V>>, H: K -> bv32)
    requires forall i :: 0 <= i < |cs| ==> Valid(cs[i], H)
    requires Disjoint(cs)
    ensures |EntriesOf(cs)| == SumCounts(cs) >= |cs|
    ensures DistinctKeys(EntriesOf(cs))
    ensures ListContents(EntriesOf(cs)) == UnionOf(cs)
    decreases cs, 0
  {
    if cs != [] {
      EntriesValid(cs[0], H);
      DisjointFirst(cs);
      EntriesOfValid(cs[1..], H);
      DistinctAppend(Entries(cs[0]), EntriesOf(cs[1..]));
    }
  }

  /** A valid bucket holds as many keys as it counts, and at least one. */
  lemma CountIsSize<K, V>(b: Bucket<K, V>, H: K -> bv32)
    requires Valid(b, H)
    ensures |Contents(b)| == Count(b) >= 1
  {
    EntriesValid(b, H);
    ListContentsSize(Entries(b));
  }

  /** GetAll presents the bucket's value buckets: flattening it gives the entries. */
  lemma GetAllEntries<K, V>(b: Bucket<K, V>)
    ensures EntriesOf(GetAll(b)) == Entries(b)
  {
    match b
    case Leaf(v) =>
      assert [b][1..] == [];
    case ListBucket(_, values) =>
      LeavesEntries(values);
    case HashBucket(_, _, _, _) =>
  }

  lemma {:induction false} LeavesEntries<K, V>(values: seq<ValueBucket<K, V>>)
    ensures EntriesOf(seq(|values|, i requires 0 <= i < |values| => Leaf(values[i]))) == values
    decreases |values|
  {
    var leaves := seq(|values|, i requires 0 <= i < |values| => Leaf(values[i]));
    if values != [] {
      LeavesEntries(values[1..]);
      assert leaves[1..] == seq(|values[1..]|, i requires 0 <= i < |values[1..]| => Leaf(values[1..][i]));
      assert values == [values[0]] + values[1..];
    }
  }
}
