/**
 * Enumerating a map: GetValueBuckets walks the trie with an explicit stack
 * of enumerators, each over the buckets GetAll presents for one bucket. A
 * value bucket met on top is yielded; any other bucket gets an enumerator
 * of its own pushed. The walk yields the entries depth first, each once.
 * Keys (which repeats the same walk in the source) and Values read off the
 * keys and values of the value buckets the walk yields.
 */
module MapEnumeration {
  import opened Wrappers
  import opened Buckets
  import opened BucketContents
  import opened BucketEntries
  import opened ImmutableMap

  // ---------------------------------------------------------------------
  // The stack of enumerators
  // ---------------------------------------------------------------------

  /**
   * An enumerator is the rest of the buckets it has not yet moved past; the
   * stack keeps its top at the end. Pending: the entries still to come, the
   * top enumerator's first.
   */
  function Pending<K, V>(stack: seq<seq<Bucket<K, V>>>): seq<ValueBucket<K, V>>
    decreases |stack|
  {
    if stack == [] then [] else EntriesOf(stack[|stack| - 1]) + Pending(stack[..|stack| - 1])
  }

  /** How much walking a bucket still needs: one step per bucket met, and one per enumerator. */
  function Size<K, V>(b: Bucket<K, V>): nat
    decreases b, 1
  {
    match b
    case Leaf(_) => 1
    case ListBucket(_, values) => 2 + |values|
    case HashBucket(_, _, cs, _) => 2 + SizeOf(cs)
  }

  function SizeOf<K, V>(cs: seq<Bucket<K, V>>): nat
    decreases cs, 0
  {
    if cs == [] then 0 else Size(cs[0]) + SizeOf(cs[1..])
  }

  function Weight<K, V>(stack: seq<seq<Bucket<K, V>>>): nat
    decreases |stack|
  {
    if stack == [] then 0 else 1 + SizeOf(stack[|stack| - 1]) + Weight(stack[..|stack| - 1])
  }

  /** Pushing an enumerator puts its entries first. */
  lemma PushPending<K, V>(stack: seq<seq<Bucket<K, V>>>, top: seq<Bucket<K, V>>)
    ensures Pending(stack + [top]) == EntriesOf(top) + Pending(stack)
  {
    assert (stack + [top])[..|stack|] == stack;
  }

  /** Pushing an enumerator adds its weight. */
  lemma PushWeight<K, V>(stack: seq<seq<Bucket<K, V>>>, top: seq<Bucket<K, V>>)
    ensures Weight(stack + [top]) == 1 + SizeOf(top) + Weight(stack)
  {
    assert (stack + [top])[..|stack|] == stack;
  }

  /** The leaves GetAll gives for a list each count one step. */
  lemma {:induction false} SizeOfLeaves<K, V>(values: seq<ValueBucket<K, V>>)
    ensures SizeOf(seq(|values|, i requires 0 <= i < |values| => Leaf(values[i]))) == |values|
    decreases |values|
  {
    var leaves := seq(|values|, i requires 0 <= i < |values| => Leaf(values[i]));
    if values != [] {
      SizeOfLeaves(values[1..]);
      assert leaves[1..] == seq(|values[1..]|, i requires 0 <= i < |values[1..]| => Leaf(values[1..][i]));
    }
  }

  /** A bucket that is not a value bucket weighs two more than what GetAll gives for it. */
  lemma SizeOfGetAll<K, V>(b: Bucket<K, V>)
    requires !b.Leaf?
    ensures Size(b) == 2 + SizeOf(GetAll(b))
  {
    if b.ListBucket? {
      SizeOfLeaves(b.values);
    }
  }

  // ---------------------------------------------------------------------
  // The walk
  // ---------------------------------------------------------------------

  /** GetValueBuckets: the value buckets of the map, depth first. */
  method GetValueBuckets<K, V>(m: ImmutableHashMap<K, V>) returns (vbs: seq<ValueBucket<K, V>>)
    ensures vbs == if m.root.None? then [] else Entries(m.root.value)
  {
    vbs := [];
    if m.root.None? {
      return;
    }
    var root := m.root.value;
    var stack := [GetAll(root)];
    Start(root);
    while |stack| > 0
      invariant vbs + Pending(stack) == Entries(root)
      decreases Weight(stack)
    {
      var top := stack[|stack| - 1];
      var rest := stack[..|stack| - 1];
      LastSplit(stack);
      if |top| > 0 {
        var current := top[0];
        if current.Leaf? {
          LeafPending(vbs, rest, top);
          LeafWeight(rest, top);
          vbs := vbs + [current.vb];
          stack := rest + [top[1..]];
        } else {
          NodePending(rest, top);
          NodeWeight(rest, top);
          stack := rest + [top[1..]] + [GetAll(current)];
        }
      } else {
        PushPending(rest, top);
        PushWeight(rest, top);
        stack := rest;
      }
    }
  }

  /** The walk starts with one enumerator, over what GetAll gives for the root. */
  lemma Start<K, V>(root: Bucket<K, V>)
    ensures Pending([GetAll(root)]) == Entries(root)
  {
    GetAllEntries(root);
    PushPending([], GetAll(root));
    assert [] + [GetAll(root)] == [GetAll(root)];
  }

  lemma LastSplit<T>(s: seq<T>)
    requires |s| > 0
    ensures s == s[..|s| - 1] + [s[|s| - 1]]
  {
  }

  /** The top enumerator moves past a value bucket, which is yielded: the entries to come are the rest. */
  lemma LeafPending<K, V>(vbs: seq<ValueBucket<K, V>>, rest: seq<seq<Bucket<K, V>>>, top: seq<Bucket<K, V>>)
    requires |top| > 0 && top[0].Leaf?
    ensures vbs + Pending(rest + [top]) == (vbs + [top[0].vb]) + Pending(rest + [top[1..]])
  {
    var tail := top[1..];
    PushPending(rest, top);
    PushPending(rest, tail);
    assert EntriesOf(top) == [top[0].vb] + EntriesOf(tail);
  }

  /** Moving past a value bucket leaves the walk less to do. */
  lemma LeafWeight<K, V>(rest: seq<seq<Bucket<K, V>>>, top: seq<Bucket<K, V>>)
    requires |top| > 0 && top[0].Leaf?
    ensures Weight(rest + [top[1..]]) < Weight(rest + [top])
  {
    PushWeight(rest, top);
    PushWeight(rest, top[1..]);
  }

  /**
   * The top enumerator moves past any other bucket, and an enumerator over
   * what GetAll gives for it is pushed: the entries still to come are the
   * same.
   */
  lemma NodePending<K, V>(rest: seq<seq<Bucket<K, V>>>, top: seq<Bucket<K, V>>)
    requires |top| > 0 && !top[0].Leaf?
    ensures Pending(rest + [top]) == Pending(rest + [top[1..]] + [GetAll(top[0])])
  {
    var current, tail := top[0], top[1..];
    PushPending(rest, top);
    PushPending(rest, tail);
    PushPending(rest + [tail], GetAll(current));
    assert EntriesOf(top) == Entries(current) + EntriesOf(tail);
    GetAllEntries(current);
  }

  /** Descending into a bucket leaves the walk less to do. */
  lemma NodeWeight<K, V>(rest: seq<seq<Bucket<K, V>>>, top: seq<Bucket<K, V>>)
    requires |top| > 0 && !top[0].Leaf?
    ensures Weight(rest + [top[1..]] + [GetAll(top[0])]) < Weight(rest + [top])
  {
    var current, tail := top[0], top[1..];
    PushWeight(rest, top);
    PushWeight(rest, tail);
    PushWeight(rest + [tail], GetAll(current));
    assert SizeOf(top) == Size(current) + SizeOf(tail);
    SizeOfGetAll(current);
  }

  /** The entries of a valid map: as many as it counts, one per key, with the map's values. */
  lemma EntriesOfMap<K, V>(m: ImmutableHashMap<K, V>, H: K -> bv32)
    requires MapValid(m, H)
    ensures var vbs := if m.root.None? then [] else Entries(m.root.value);
      && |vbs| == ImmutableMap.Count(m)
      && DistinctKeys(vbs)
      && ListContents(vbs) == MapContents(m)
  {
    if m.root.Some? {
      EntriesValid(m.root.value, H);
    }
  }

  /** Keys: the keys of the map, each once, as many as it counts. */
  method Keys<K, V>(m: ImmutableHashMap<K, V>, H: K -> bv32) returns (keys: seq<K>)
    requires MapValid(m, H)
    ensures var vbs := if m.root.None? then [] else Entries(m.root.value);
      keys == seq(|vbs|, i requires 0 <= i < |vbs| => vbs[i].key)
    ensures |keys| == ImmutableMap.Count(m)
    ensures forall i, j :: 0 <= i < j < |keys| ==> keys[i] != keys[j]
    ensures forall k :: k in keys <==> k in MapContents(m)
  {
    var vbs := GetValueBuckets(m);
    EntriesOfMap(m, H);
    keys := seq(|vbs|, i requires 0 <= i < |vbs| => vbs[i].key);
    forall k | k in MapContents(m) ensures k in keys {
      var i := ListContentsHas(vbs, k);
      assert keys[i] == k;
    }
    forall i | 0 <= i < |keys| ensures keys[i] in MapContents(m) {
      ListContentsAt(vbs, i);
    }
  }

  /**
   * Values: the value of every entry the walk yields, in the order of the
   * walk, so each key contributes its own value once.
   */
  method Values<K, V(==)>(m: ImmutableHashMap<K, V>, H: K -> bv32) returns (values: seq<V>)
    requires MapValid(m, H)
    ensures var vbs := if m.root.None? then [] else Entries(m.root.value);
      values == seq(|vbs|, i requires 0 <= i < |vbs| => vbs[i].value)
    ensures |values| == ImmutableMap.Count(m)
    ensures forall v :: v in values <==> v in MapContents(m).Values
  {
    var vbs := GetValueBuckets(m);
    EntriesOfMap(m, H);
    values := seq(|vbs|, i requires 0 <= i < |vbs| => vbs[i].value);
    forall v | v in MapContents(m).Values ensures v in values {
      var k :| k in MapContents(m) && MapContents(m)[k] == v;
      var i := ListContentsHas(vbs, k);
      assert values[i] == v;
    }
    forall i | 0 <= i < |values| ensures values[i] in MapContents(m).Values {
      ListContentsAt(vbs, i);
    }
  }

  /** ContainsValue: some key of the map has the value. */
  method ContainsValue<K, V(==)>(m: ImmutableHashMap<K, V>, value: V, H: K -> bv32) returns (found: bool)
    requires MapValid(m, H)
    ensures found <==> value in MapContents(m).Values
  {
    var values := Values(m, H);
    found := value in values;
  }
}
