/**
 * The buckets of ImmutableHashMap: an immutable hash array mapped trie.
 *
 * A bucket is one of
 *  - a value bucket (`Leaf`): one key, its value and the key's hash;
 *  - a list bucket: two or more value buckets whose keys share one hash;
 *  - a hash bucket: up to 32 children indexed by five bits of the hash. The
 *    bits are picked by rotating the hash right by the node's `hashRoll`.
 *    A `used` bitmap says which of the 32 logical slots hold a child. The
 *    children are stored densely in slot order, so the child of a used slot
 *    sits at the number of used slots below it.
 *
 * Buckets are never changed: every operation returns a new bucket, or the
 * same one when nothing changes. So they are modelled as values and their
 * operations as functions. Key equality is `==`; the key comparer's hash is
 * the `hash` stored in each value bucket (the map computes it).
 */
module Buckets {
  import opened Wrappers
  import opened Bits
  import opened HashBucketBits

  datatype ValueBucket<K, V> = ValueBucket(key: K, value: V, hash: bv32)

  datatype Bucket<K, V> =
    | Leaf(vb: ValueBucket<K, V>)
    | ListBucket(hash: bv32, values: seq<ValueBucket<K, V>>)
    | HashBucket(hashRoll: bv5, used: bv32, buckets: seq<Bucket<K, V>>, count: int)

  // ---------------------------------------------------------------------
  // The array helpers the buckets use (ReplaceAt is `s[i := x]`)
  // ---------------------------------------------------------------------

  function InsertAt<T>(s: seq<T>, i: nat, x: T): (r: seq<T>)
    requires i <= |s|
    ensures |r| == |s| + 1 && r[i] == x
    ensures forall j :: 0 <= j < i ==> r[j] == s[j]
    ensures forall j :: i < j < |r| ==> r[j] == s[j - 1]
  {
    s[..i] + [x] + s[i..]
  }

  function RemoveAt<T>(s: seq<T>, i: nat): (r: seq<T>)
    requires i < |s|
    ensures |r| == |s| - 1
    ensures forall j :: 0 <= j < i ==> r[j] == s[j]
    ensures forall j :: i <= j < |r| ==> r[j] == s[j + 1]
  {
    s[..i] + s[i + 1..]
  }

  // ---------------------------------------------------------------------
  // Shape: what the constructors demand
  // ---------------------------------------------------------------------

  /**
   * The shape the constructors check: a list bucket has at least two
   * values, and a hash bucket has one child per used slot.
   */
  predicate WellFormed<K, V>(b: Bucket<K, V>)
    decreases b
  {
    match b
    case Leaf(_) => true
    case ListBucket(_, values) => |values| >= 2
    case HashBucket(_, used, cs, _) =>
      |cs| == Popcount(used) && forall i :: 0 <= i < |cs| ==> WellFormed(cs[i])
  }

  /** Count: the number of value buckets (the stored count for a hash bucket). */
  function Count<K, V>(b: Bucket<K, V>): int {
    match b
    case Leaf(_) => 1
    case ListBucket(_, values) => |values|
    case HashBucket(_, _, _, count) => count
  }

  /** The ListBucket constructor: two or more values; the hash is the first value's. */
  function NewListBucket<K, V>(values: seq<ValueBucket<K, V>>): Bucket<K, V>
    requires |values| >= 2
  {
    ListBucket(values[0].hash, values)
  }

  /** The hash of a value or list bucket. */
  function BucketHash<K, V>(b: Bucket<K, V>): bv32
    requires b.Leaf? || b.ListBucket?
  {
    match b
    case Leaf(v) => v.hash
    case ListBucket(h, _) => h
  }

  // ---------------------------------------------------------------------
  // ListBucket.Find
  // ---------------------------------------------------------------------

  /** The first index holding `key`, or -1: what ListBucket.Find returns. */
  function IndexOf<K(==), V>(values: seq<ValueBucket<K, V>>, key: K): (r: int)
    ensures -1 <= r < |values|
    ensures 0 <= r ==> values[r].key == key
    ensures forall j :: 0 <= j < |values| && (r < 0 || j < r) ==> values[j].key != key
    decreases |values|
  {
    if values == [] then -1
    else if values[0].key == key then 0
    else
      var r := IndexOf(values[1..], key);
      if r < 0 then -1 else r + 1
  }

  /** ListBucket.Find: a linear scan for the key. */
  method Find<K(==), V>(values: seq<ValueBucket<K, V>>, key: K) returns (r: int)
    ensures r == IndexOf(values, key)
  {
    for i := 0 to |values|
      invariant forall j :: 0 <= j < i ==> values[j].key != key
    {
      if key == values[i].key {
        return i;
      }
    }
    return -1;
  }

  // ---------------------------------------------------------------------
  // The two-bucket HashBucket constructor
  // ---------------------------------------------------------------------

  /** The hash roll the constructor tries at step `i`: `(suggested + i) & 31`. */
  function RollAt(suggested: bv5, i: bv6): bv5
    requires i < 32
  {
    ((suggested as bv6 + i) & 31) as bv5
  }

  /**
   * The first roll, among the steps `i` to 31 of the constructor's search,
   * at which the two hashes fall into different logical slots.
   */
  function FindRoll(h1: bv32, h2: bv32, suggested: bv5, i: bv6): (r: Option<bv5>)
    requires i <= 32
    ensures r.Some? ==> LogicalSlot(h1, r.value) != LogicalSlot(h2, r.value)
    decreases 32 - i
  {
    if i == 32 then None
    else if LogicalSlot(h1, RollAt(suggested, i)) != LogicalSlot(h2, RollAt(suggested, i)) then Some(RollAt(suggested, i))
    else FindRoll(h1, h2, suggested, i + 1)
  }

  /**
   * The two-bucket HashBucket constructor: try the 32 rolls from the
   * suggested one and put both buckets into the first roll that separates
   * them, each at the physical slot of its logical slot. Without such a roll
   * it throws. The count is the two buckets' counts together (the source
   * writes 2; see HashBucketOfAsWritten).
   */
  function HashBucketOf<K, V>(suggested: bv5, b1: Bucket<K, V>, b2: Bucket<K, V>): Result<Bucket<K, V>, Error>
    requires b1.Leaf? || b1.ListBucket?
    requires b2.Leaf? || b2.ListBucket?
  {
    var h1, h2 := BucketHash(b1), BucketHash(b2);
    match FindRoll(h1, h2, suggested, 0)
    case None => Failure(InvalidOperation)
    case Some(roll) =>
      var s1, s2 := LogicalSlot(h1, roll), LogicalSlot(h2, roll);
      Success(HashBucket(roll, TwoSlots(s1, s2), if s1 < s2 then [b1, b2] else [b2, b1], Count(b1) + Count(b2)))
  }

  /** The constructor exactly as the source writes it: the count is always 2. */
  function HashBucketOfAsWritten<K, V>(suggested: bv5, b1: Bucket<K, V>, b2: Bucket<K, V>): Result<Bucket<K, V>, Error>
    requires b1.Leaf? || b1.ListBucket?
    requires b2.Leaf? || b2.ListBucket?
  {
    var h1, h2 := BucketHash(b1), BucketHash(b2);
    match FindRoll(h1, h2, suggested, 0)
    case None => Failure(InvalidOperation)
    case Some(roll) =>
      var s1, s2 := LogicalSlot(h1, roll), LogicalSlot(h2, roll);
      Success(HashBucket(roll, TwoSlots(s1, s2), if s1 < s2 then [b1, b2] else [b2, b1], 2))
  }

  /**
   * The constructor's search loop, step by step: it stops at the first roll
   * that separates the two hashes and places each bucket at the physical
   * slot of its logical slot.
   */
  method NewHashBucket<K, V>(suggested: bv5, b1: Bucket<K, V>, b2: Bucket<K, V>) returns (r: Result<Bucket<K, V>, Error>)
    requires b1.Leaf? || b1.ListBucket?
    requires b2.Leaf? || b2.ListBucket?
    ensures r == HashBucketOf(suggested, b1, b2)
  {
    var h1, h2 := BucketHash(b1), BucketHash(b2);
    var i: bv6 := 0;
    while i < 32
      invariant i <= 32
      invariant FindRoll(h1, h2, suggested, i) == FindRoll(h1, h2, suggested, 0)
      decreases 32 - i
    {
      var hashRoll := RollAt(suggested, i);
      var s1, s2 := LogicalSlot(h1, hashRoll), LogicalSlot(h2, hashRoll);
      if s1 != s2 {
        var buckets := PlaceTwo(s1, s2, b1, b2);
        return Success(HashBucket(hashRoll, TwoSlots(s1, s2), buckets, Count(b1) + Count(b2)));
      }
      i := i + 1;
    }
    return Failure(InvalidOperation);
  }

  /** The physical slots of the two used slots of a two-child node: the lower slot comes first. */
  lemma TwoPlaces(s1: bv5, s2: bv5)
    requires s1 != s2
    ensures PhysicalSlot(TwoSlots(s1, s2), 2, s1) == if s1 < s2 then 0 else 1
    ensures PhysicalSlot(TwoSlots(s1, s2), 2, s2) == if s1 < s2 then 1 else 0
  {
    TwoBits(s1, s2);
    PhysicalSlotInRange(TwoSlots(s1, s2), 2, s1);
    PhysicalSlotInRange(TwoSlots(s1, s2), 2, s2);
  }

  /** The constructor's placement of the two buckets in a fresh two-element array. */
  method PlaceTwo<K, V>(s1: bv5, s2: bv5, b1: Bucket<K, V>, b2: Bucket<K, V>) returns (cs: seq<Bucket<K, V>>)
    requires s1 != s2
    ensures cs == if s1 < s2 then [b1, b2] else [b2, b1]
  {
    var used := TwoSlots(s1, s2);
    TwoPlaces(s1, s2);
    var buckets := new Bucket<K, V>[2](_ => b1);
    var p1 := ComputePhysicalSlot(used, 2, s1);
    var p2 := ComputePhysicalSlot(used, 2, s2);
    assert p1 == 1 - p2 && p1 == if s1 < s2 then 0 else 1;
    buckets[p1] := b1;
    buckets[p2] := b2;
    cs := buckets[..];
  }

  // ---------------------------------------------------------------------
  // The bucket operations
  // ---------------------------------------------------------------------

  /**
   * Bucket.Add: add `vb` to the bucket, or replace the value of its key when
   * `overwrite` is set. The bucket comes back unchanged when the key is
   * there with the same value. Each kind of bucket has its own Add.
   */
  function Add<K(==), V(==)>(b: Bucket<K, V>, suggested: bv5, vb: ValueBucket<K, V>, overwrite: bool): Result<Bucket<K, V>, Error>
    requires WellFormed(b)
    decreases b, 1
  {
    match b
    case Leaf(v) => LeafAdd(v, suggested, vb, overwrite)
    case ListBucket(h, values) => ListAdd(h, values, suggested, vb, overwrite)
    case HashBucket(_, _, _, _) => HashAdd(b, vb, overwrite)
  }

  /** ValueBucket.Add. */
  function LeafAdd<K(==), V(==)>(v: ValueBucket<K, V>, suggested: bv5, vb: ValueBucket<K, V>, overwrite: bool): Result<Bucket<K, V>, Error> {
    if v.hash == vb.hash then
      if v.key == vb.key then
        if v.value == vb.value then Success(Leaf(v))
        else if overwrite then Success(Leaf(vb))
        else Failure(DuplicateKey)
      else Success(NewListBucket([v, vb]))
    else HashBucketOf(suggested, Leaf(v), Leaf(vb))
  }

  /** ListBucket.Add. */
  function ListAdd<K(==), V(==)>(h: bv32, values: seq<ValueBucket<K, V>>, suggested: bv5, vb: ValueBucket<K, V>, overwrite: bool): Result<Bucket<K, V>, Error>
    requires |values| >= 2
  {
    if h == vb.hash then
      var pos := IndexOf(values, vb.key);
      if pos >= 0 then
        if vb.value == values[pos].value then Success(ListBucket(h, values))
        else if overwrite then Success(NewListBucket(values[pos := vb]))
        else Failure(DuplicateKey)
      else Success(NewListBucket(InsertAt(values, |values|, vb)))
    else HashBucketOf(suggested, ListBucket(h, values), Leaf(vb))
  }

  /**
   * HashBucket.Add: into the child of the key's slot, suggesting the roll
   * five bits further on, or as a new value bucket into a free slot.
   */
  function HashAdd<K(==), V(==)>(b: Bucket<K, V>, vb: ValueBucket<K, V>, overwrite: bool): Result<Bucket<K, V>, Error>
    requires b.HashBucket? && WellFormed(b)
    decreases b, 0
  {
    var HashBucket(roll, used, cs, count) := b;
    var s := LogicalSlot(vb.hash, roll);
    PhysicalSlotInRange(used, |cs|, s);
    var p := PhysicalSlot(used, |cs|, s);
    if IsInUse(used, s) then
      ReplaceChild(b, p, Add(cs[p], roll + 5, vb, overwrite))
    else
      IsInUseIsSet(used, s);
      Success(HashBucket(roll, InsertBit(s, used), InsertAt(cs, p, Leaf(vb)), count + 1))
  }

  /**
   * The end of HashBucket.Add: the child at `p` became `added`. A failure
   * passes through; an unchanged child leaves the node unchanged.
   */
  function ReplaceChild<K(==), V(==)>(b: Bucket<K, V>, p: nat, added: Result<Bucket<K, V>, Error>): Result<Bucket<K, V>, Error>
    requires b.HashBucket? && p < |b.buckets|
  {
    match added
    case Failure(e) => Failure(e)
    case Success(c) =>
      var existing := b.buckets[p];
      if c != existing then
        Success(HashBucket(b.hashRoll, b.used, b.buckets[p := c], b.count - Count(existing) + Count(c)))
      else Success(b)
  }

  /** Bucket.Remove: `None` is the source's null, the empty bucket. Each kind of bucket has its own Remove. */
  function Remove<K(==), V(==)>(b: Bucket<K, V>, hash: bv32, key: K): Option<Bucket<K, V>>
    requires WellFormed(b)
    decreases b, 1
  {
    match b
    case Leaf(v) => LeafRemove(v, hash, key)
    case ListBucket(h, values) => ListRemove(h, values, hash, key)
    case HashBucket(_, _, _, _) => HashRemove(b, hash, key)
  }

  /** ValueBucket.Remove. */
  function LeafRemove<K(==), V>(v: ValueBucket<K, V>, hash: bv32, key: K): Option<Bucket<K, V>> {
    if v.hash == hash && v.key == key then None else Some(Leaf(v))
  }

  /** ListBucket.Remove: a list of two leaves its other value bucket behind. */
  function ListRemove<K(==), V>(h: bv32, values: seq<ValueBucket<K, V>>, hash: bv32, key: K): Option<Bucket<K, V>> {
    if h == hash then
      var pos := IndexOf(values, key);
      if pos >= 0 then
        if |values| == 1 then None
        else if |values| == 2 then Some(Leaf(if pos == 0 then values[1] else values[0]))
        else Some(NewListBucket(RemoveAt(values, pos)))
      else Some(ListBucket(h, values))
    else Some(ListBucket(h, values))
  }

  /**
   * HashBucket.Remove: from the child of the key's slot. A child that
   * empties loses its slot; a node left with one child is replaced by it.
   */
  function HashRemove<K(==), V(==)>(b: Bucket<K, V>, hash: bv32, key: K): Option<Bucket<K, V>>
    requires b.HashBucket? && WellFormed(b)
    decreases b, 0
  {
    var HashBucket(roll, used, cs, count) := b;
    var s := LogicalSlot(hash, roll);
    if IsInUse(used, s) then
      PhysicalSlotInRange(used, |cs|, s);
      IsInUseIsSet(used, s);
      var p := PhysicalSlot(used, |cs|, s);
      RemoveFromChild(b, s, p, Remove(cs[p], hash, key))
    else Some(b)
  }

  /**
   * The end of HashBucket.Remove: the child at `p`, of slot `s`, became
   * `result`. An emptied child gives up its slot; a node left with one
   * child is replaced by it; an unchanged child leaves the node unchanged.
   */
  function RemoveFromChild<K(==), V(==)>(b: Bucket<K, V>, s: bv5, p: nat, result: Option<Bucket<K, V>>): Option<Bucket<K, V>>
    requires b.HashBucket? && IsSet(b.used, s) && p < |b.buckets|
  {
    var HashBucket(roll, used, cs, count) := b;
    var existing := cs[p];
    match result
    case None =>
      if |cs| == 1 then None
      else if |cs| == 2 then Some(if p == 0 then cs[1] else cs[0])
      else Some(HashBucket(roll, RemoveBit(s, used), RemoveAt(cs, p), count - Count(existing)))
    case Some(r) =>
      if cs[p] != r then
        Some(HashBucket(roll, used, cs[p := r], count - Count(existing) + Count(r)))
      else Some(b)
  }

  /** Bucket.Get: the value bucket holding `key`, or `None`. */
  function Get<K(==), V>(b: Bucket<K, V>, hash: bv32, key: K): Option<ValueBucket<K, V>>
    requires WellFormed(b)
    decreases b
  {
    match b
    case Leaf(v) =>
      if v.hash == hash && v.key == key then Some(v) else None
    case ListBucket(h, values) =>
      if h == hash then
        var pos := IndexOf(values, key);
        if pos >= 0 then Some(values[pos]) else None
      else None
    case HashBucket(roll, used, cs, _) =>
      var s := LogicalSlot(hash, roll);
      if IsInUse(used, s) then
        PhysicalSlotInRange(used, |cs|, s);
        Get(cs[PhysicalSlot(used, |cs|, s)], hash, key)
      else None
  }

  /** Bucket.GetAll: the bucket itself, the values of a list, or the children. */
  function GetAll<K, V>(b: Bucket<K, V>): seq<Bucket<K, V>> {
    match b
    case Leaf(_) => [b]
    case ListBucket(_, values) => seq(|values|, i requires 0 <= i < |values| => Leaf(values[i]))
    case HashBucket(_, _, cs, _) => cs
  }

  // ---------------------------------------------------------------------
  // What a bucket holds
  // ---------------------------------------------------------------------

  /** The map a sequence of value buckets denotes; the first of equal keys wins, as in Find. */
  function ListContents<K(==), V>(vbs: seq<ValueBucket<K, V>>): map<K, V>
    decreases |vbs|
  {
    if vbs == [] then map[]
    else ListContents(vbs[1..])[vbs[0].key := vbs[0].value]
  }

  /** The map a bucket denotes. */
  function Contents<K(==), V>(b: Bucket<K, V>): map<K, V>
    decreases b
  {
    match b
    case Leaf(v) => map[v.key := v.value]
    case ListBucket(_, values) => ListContents(values)
    case HashBucket(_, _, cs, _) => UnionOf(cs)
  }

  function UnionOf<K(==), V>(cs: seq<Bucket<K, V>>): map<K, V>
    decreases cs
  {
    if cs == [] then map[] else Contents(cs[0]) + UnionOf(cs[1..])
  }

  /** The sum of the children's counts. */
  function SumCounts<K, V>(cs: seq<Bucket<K, V>>): int
    decreases |cs|
  {
    if cs == [] then 0 else Count(cs[0]) + SumCounts(cs[1..])
  }

  /** The value buckets, depth first, in the order GetAll presents them. */
  function Entries<K, V>(b: Bucket<K, V>): seq<ValueBucket<K, V>>
    decreases b
  {
    match b
    case Leaf(v) => [v]
    case ListBucket(_, values) => values
    case HashBucket(_, _, cs, _) => EntriesOf(cs)
  }

  function EntriesOf<K, V>(cs: seq<Bucket<K, V>>): seq<ValueBucket<K, V>>
    decreases cs
  {
    if cs == [] then [] else Entries(cs[0]) + EntriesOf(cs[1..])
  }

  predicate DistinctKeys<K(==), V>(vbs: seq<ValueBucket<K, V>>) {
    forall i, j :: 0 <= i < j < |vbs| ==> vbs[i].key != vbs[j].key
  }

  /** The index of the child that a hash selects: the rank of its logical slot. */
  function Rank(used: bv32, roll: bv5, h: bv32): nat {
    PopBelow(used, LogicalSlot(h, roll) as bv6)
  }

  /** Every key below child `i` selects a used slot, and that slot's rank is `i`. */
  predicate Routed<K(==), V>(roll: bv5, used: bv32, cs: seq<Bucket<K, V>>, H: K -> bv32) {
    forall i, k :: 0 <= i < |cs| && k in Contents(cs[i]) ==>
      IsSet(used, LogicalSlot(H(k), roll)) && Rank(used, roll, H(k)) == i
  }

  /**
   * The invariant every bucket the map builds keeps, for the key hash `H`,
   * beyond its shape: stored hashes are the keys' hashes; a list bucket
   * holds different keys of its one hash; a hash bucket has two or more
   * children, each keeping the invariant, each key in the child its slot
   * selects, and its count is the sum of its children's counts.
   */
  predicate Invariant<K(==), V>(b: Bucket<K, V>, H: K -> bv32)
    decreases b
  {
    match b
    case Leaf(v) => v.hash == H(v.key)
    case ListBucket(h, values) =>
      && (forall i :: 0 <= i < |values| ==> values[i].hash == h && H(values[i].key) == h)
      && DistinctKeys(values)
    case HashBucket(roll, used, cs, count) =>
      && |cs| >= 2
      && count == SumCounts(cs)
      && (forall i :: 0 <= i < |cs| ==> Invariant(cs[i], H))
      && Routed(roll, used, cs, H)
  }

  /** A bucket of the map: well formed and keeping the invariant. */
  predicate Valid<K(==), V>(b: Bucket<K, V>, H: K -> bv32) {
    WellFormed(b) && Invariant(b, H)
  }
}
