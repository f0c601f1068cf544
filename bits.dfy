/**
 * Bit-level helpers of the hash trie: the rotation that picks a node's slot
 * from a key's hash, the `used` bitmap of a node, and the rank that turns a
 * logical slot (0..31) into a physical index in the node's dense child array.
 *
 * Hashes and bitmaps are 32-bit words (`bv32`). A logical slot is a 5-bit
 * value (`bv5`), so it is in [0, 31] by its type. Bit counts below a position
 * use a 6-bit bound (`bv6`) so that "all 32 bits" can be written.
 */
module Bits {

  /** Bit `s` of `v` is set. */
  predicate IsSet(v: bv32, s: bv5) {
    (v >> s) & 1 == 1
  }

  function Bit(v: bv32, s: bv5): nat {
    if IsSet(v, s) then 1 else 0
  }

  /** The number of set bits of `v` at positions strictly below `n`. */
  function PopBelow(v: bv32, n: bv6): nat
    requires n <= 32
    decreases n
  {
    if n == 0 then 0 else PopBelow(v, n - 1) + Bit(v, (n - 1) as bv5)
  }

  /** The number of set bits of `v`: what CountBits computes. */
  function Popcount(v: bv32): nat {
    PopBelow(v, 32)
  }

  // ---------------------------------------------------------------------
  // The word operations of HashBucket
  // ---------------------------------------------------------------------

  /** RotateRight: a shift by 32 is not a rotation in C#, so 0 is special. */
  function RotateRight(v: bv32, n: bv5): bv32 {
    if n == 0 then v else (v >> n) | (v << (32 - n as bv32))
  }

  /** ComputeLogicalSlot: the low five bits of the rotated hash. */
  function LogicalSlot(hash: bv32, hashRoll: bv5): bv5 {
    (RotateRight(hash, hashRoll) & 31) as bv5
  }

  /** IsInUse: the slot's bit of the bitmap is set. */
  predicate IsInUse(used: bv32, s: bv5) {
    (1 << s) & used != 0
  }

  /** The mask of the bits strictly below slot `s` (only used for s != 0). */
  function Mask(s: bv5): bv32
    requires s != 0
  {
    0xFFFF_FFFF >> (32 - s as bv32)
  }

  /** InsertBit: the position must be clear. */
  function InsertBit(position: bv5, bits: bv32): bv32
    requires !IsSet(bits, position)
  {
    bits | (1 << position)
  }

  /** RemoveBit: the position must be set. */
  function RemoveBit(position: bv5, bits: bv32): bv32
    requires IsSet(bits, position)
  {
    bits & !(1 << position)
  }

  /**
   * ComputePhysicalSlot, with the bit count written as the function it
   * computes (HashBucketBits.CountBits is proved to compute it). `length` is the
   * length of the node's child array.
   */
  function PhysicalSlot(used: bv32, length: nat, s: bv5): nat {
    if length == 32 then s as nat
    else if s == 0 then 0
    else Popcount(used & Mask(s))
  }

  // ---------------------------------------------------------------------
  // The word operations, bit by bit
  // ---------------------------------------------------------------------

  lemma IsInUseIsSet(used: bv32, s: bv5)
    ensures IsInUse(used, s) <==> IsSet(used, s)
  {
  }

  lemma OrBitAt(position: bv5, bits: bv32, q: bv5)
    ensures IsSet(bits | (1 << position), q) == (q == position || IsSet(bits, q))
  {
    if q == position {
    } else {
    }
  }

  lemma AndNotBitAt(position: bv5, bits: bv32, q: bv5)
    ensures IsSet(bits & !(1 << position), q) == (q != position && IsSet(bits, q))
  {
    if q == position {
    } else {
    }
  }

  lemma InsertBitAt(position: bv5, bits: bv32, q: bv5)
    requires !IsSet(bits, position)
    ensures IsSet(InsertBit(position, bits), q) <==> q == position || IsSet(bits, q)
  {
    var w := bits | (1 << position);
    assert InsertBit(position, bits) == w;
    OrBitAt(position, bits, q);
  }

  lemma RemoveBitAt(position: bv5, bits: bv32, q: bv5)
    requires IsSet(bits, position)
    ensures IsSet(RemoveBit(position, bits), q) <==> q != position && IsSet(bits, q)
  {
    var w := bits & !(1 << position);
    assert RemoveBit(position, bits) == w;
    AndNotBitAt(position, bits, q);
  }

  lemma MaskAt(v: bv32, s: bv5, q: bv5)
    requires s != 0
    ensures IsSet(v & Mask(s), q) <==> q < s && IsSet(v, q)
  {
  }

  /** Bit 0 of the logical slot for roll `p` is bit `p` of the hash. */
  lemma SlotBit0(hash: bv32, p: bv5)
    ensures (LogicalSlot(hash, p) & 1 == 1) <==> IsSet(hash, p)
  {
  }

  lemma XorAt(a: bv32, b: bv32, p: bv5)
    ensures IsSet(a ^ b, p) <==> IsSet(a, p) != IsSet(b, p)
  {
  }

  lemma ZeroStep(d: bv32, k: bv5)
    requires k < 31 && d >> (k + 1) == 0 && !IsSet(d, k)
    ensures d >> k == 0
  {
  }

  lemma ZeroTop(d: bv32)
    requires !IsSet(d, 31)
    ensures d >> 31 == 0
  {
  }

  lemma {:induction false} ZeroFrom(d: bv32, k: bv5)
    requires forall p :: !IsSet(d, p)
    ensures d >> k == 0
    decreases 31 - k as int
  {
    if k == 31 {
      ZeroTop(d);
    } else {
      ZeroFrom(d, k + 1);
      ZeroStep(d, k);
    }
  }

  lemma XorZero(a: bv32, b: bv32, d: bv32)
    requires d == a ^ b && d >> 0 == 0
    ensures a == b
  {
  }

  /** Two words with the same bits are the same word. */
  lemma EqualBits(a: bv32, b: bv32)
    requires forall p :: IsSet(a, p) == IsSet(b, p)
    ensures a == b
  {
    var d := a ^ b;
    forall p ensures !IsSet(d, p) {
      XorAt(a, b, p);
    }
    ZeroFrom(d, 0);
    XorZero(a, b, d);
  }

  /**
   * Two different hashes land in different slots for some roll: the roll of
   * a bit where they differ. This is why the loop of the two-bucket
   * HashBucket constructor, which tries all 32 rolls, always succeeds.
   */
  lemma SeparatingRoll(h1: bv32, h2: bv32) returns (p: bv5)
    requires h1 != h2
    ensures LogicalSlot(h1, p) != LogicalSlot(h2, p)
  {
    if forall q :: IsSet(h1, q) == IsSet(h2, q) {
      EqualBits(h1, h2);
    }
    p :| IsSet(h1, p) != IsSet(h2, p);
    SlotBit0(h1, p);
    SlotBit0(h2, p);
  }

  // ---------------------------------------------------------------------
  // Counting bits below a position
  // ---------------------------------------------------------------------

  lemma {:induction false} PopBelowBound(v: bv32, n: bv6)
    requires n <= 32
    ensures PopBelow(v, n) <= n as nat
    decreases n
  {
    if n != 0 {
      PopBelowBound(v, n - 1);
    }
  }

  /** Counting below a higher position never counts fewer bits. */
  lemma {:induction false} PopBelowMonotone(v: bv32, m: bv6, n: bv6)
    requires m <= n <= 32
    ensures PopBelow(v, m) <= PopBelow(v, n)
    decreases n
  {
    if m < n {
      PopBelowMonotone(v, m, n - 1);
    }
  }

  /** If every bit below `n` is set, so is every bit below any `m <= n`. */
  lemma {:induction false} PopBelowFull(v: bv32, n: bv6, m: bv6)
    requires m <= n <= 32
    requires PopBelow(v, n) == n as nat
    ensures PopBelow(v, m) == m as nat
    decreases n
  {
    if m < n {
      PopBelowBound(v, n - 1);
      PopBelowFull(v, n - 1, m);
    }
  }

  /** A set bit at `p` makes the count below `q > p` exceed the count below `p`. */
  lemma {:induction false} PopBelowStrict(v: bv32, p: bv5, q: bv6)
    requires p as bv6 < q <= 32 && IsSet(v, p)
    ensures PopBelow(v, p as bv6) < PopBelow(v, q)
    decreases q
  {
    if q - 1 != p as bv6 {
      PopBelowStrict(v, p, q - 1);
    }
  }

  /** `w` is `v` with bit `p` added: counts at or below `p` do not change. */
  lemma {:induction false} PopBelowAddedAbove(v: bv32, w: bv32, p: bv5, n: bv6)
    requires n <= p as bv6
    requires forall q :: q != p ==> IsSet(w, q) == IsSet(v, q)
    ensures PopBelow(w, n) == PopBelow(v, n)
    decreases n
  {
    if n != 0 {
      PopBelowAddedAbove(v, w, p, n - 1);
    }
  }

  /** `w` is `v` with bit `p` added: counts above `p` grow by one. */
  lemma {:induction false} PopBelowAddedBelow(v: bv32, w: bv32, p: bv5, n: bv6)
    requires p as bv6 < n <= 32
    requires !IsSet(v, p) && IsSet(w, p)
    requires forall q :: q != p ==> IsSet(w, q) == IsSet(v, q)
    ensures PopBelow(w, n) == PopBelow(v, n) + 1
    decreases n
  {
    if n - 1 == p as bv6 {
      PopBelowAddedAbove(v, w, p, p as bv6);
    } else {
      PopBelowAddedBelow(v, w, p, n - 1);
    }
  }

  /** InsertBit keeps the ranks of lower slots and shifts the higher ones up. */
  lemma PopBelowInsertBit(position: bv5, bits: bv32, n: bv6)
    requires !IsSet(bits, position) && n <= 32
    ensures n <= position as bv6 ==> PopBelow(InsertBit(position, bits), n) == PopBelow(bits, n)
    ensures position as bv6 < n ==> PopBelow(InsertBit(position, bits), n) == PopBelow(bits, n) + 1
  {
    forall q ensures IsSet(InsertBit(position, bits), q) <==> q == position || IsSet(bits, q) {
      InsertBitAt(position, bits, q);
    }
    if n <= position as bv6 {
      PopBelowAddedAbove(bits, InsertBit(position, bits), position, n);
    } else {
      PopBelowAddedBelow(bits, InsertBit(position, bits), position, n);
    }
  }

  /** RemoveBit keeps the ranks of lower slots and shifts the higher ones down. */
  lemma PopBelowRemoveBit(position: bv5, bits: bv32, n: bv6)
    requires IsSet(bits, position) && n <= 32
    ensures n <= position as bv6 ==> PopBelow(RemoveBit(position, bits), n) == PopBelow(bits, n)
    ensures position as bv6 < n ==> PopBelow(RemoveBit(position, bits), n) + 1 == PopBelow(bits, n)
  {
    forall q ensures IsSet(RemoveBit(position, bits), q) <==> q != position && IsSet(bits, q) {
      RemoveBitAt(position, bits, q);
    }
    if n <= position as bv6 {
      PopBelowAddedAbove(RemoveBit(position, bits), bits, position, n);
    } else {
      PopBelowAddedBelow(RemoveBit(position, bits), bits, position, n);
    }
  }

  lemma {:induction false} PopBelowMask(v: bv32, s: bv5, n: bv6)
    requires s != 0 && n <= 32
    ensures PopBelow(v & Mask(s), n) == PopBelow(v, if n < s as bv6 then n else s as bv6)
    decreases n
  {
    if n != 0 {
      PopBelowMask(v, s, n - 1);
      MaskAt(v, s, (n - 1) as bv5);
    }
  }

  lemma {:induction false} PopBelowZero(n: bv6)
    requires n <= 32
    ensures PopBelow(0, n) == 0
    decreases n
  {
    if n != 0 {
      PopBelowZero(n - 1);
    }
  }

  /** The bitmap of a node with two children, at slots `s1` and `s2`. */
  function TwoSlots(s1: bv5, s2: bv5): bv32 {
    (1 << s1) | (1 << s2)
  }

  lemma TwoSlotsInsert(s1: bv5, s2: bv5)
    requires s1 != s2
    ensures !IsSet(InsertBit(s1, 0), s2)
    ensures TwoSlots(s1, s2) == InsertBit(s2, InsertBit(s1, 0))
  {
    InsertBitAt(s1, 0, s2);
  }

  lemma TwoSlotsAt(s1: bv5, s2: bv5, q: bv5)
    requires s1 != s2
    ensures IsSet(TwoSlots(s1, s2), q) <==> q == s1 || q == s2
  {
    OrBitAt(s2, InsertBit(s1, 0), q);
    OrBitAt(s1, 0, q);
    TwoSlotsInsert(s1, s2);
  }

  lemma TwoSlotsCount(s1: bv5, s2: bv5, w1: bv32)
    requires s1 != s2 && w1 == InsertBit(s1, 0)
    requires TwoSlots(s1, s2) == InsertBit(s2, w1)
    ensures Popcount(TwoSlots(s1, s2)) == 2
  {
    PopBelowZero(32);
    PopBelowInsertBit(s1, 0, 32);
    InsertBitAt(s1, 0, s2);
    PopBelowInsertBit(s2, w1, 32);
  }

  lemma TwoSlotsRank(s1: bv5, s2: bv5, w1: bv32, s: bv5)
    requires s1 != s2 && w1 == InsertBit(s1, 0)
    requires TwoSlots(s1, s2) == InsertBit(s2, w1)
    requires s == s1 || s == s2
    ensures PopBelow(TwoSlots(s1, s2), s as bv6) == if s == s1 then (if s1 < s2 then 0 else 1) else (if s2 < s1 then 0 else 1)
  {
    PopBelowZero(s as bv6);
    PopBelowInsertBit(s1, 0, s as bv6);
    InsertBitAt(s1, 0, s2);
    PopBelowInsertBit(s2, w1, s as bv6);
  }

  /**
   * The bitmap of a two-child node has exactly its two bits, two in all,
   * and each slot's rank is its place in slot order.
   */
  lemma TwoBits(s1: bv5, s2: bv5)
    requires s1 != s2
    ensures forall q :: IsSet(TwoSlots(s1, s2), q) <==> q == s1 || q == s2
    ensures Popcount(TwoSlots(s1, s2)) == 2
    ensures PopBelow(TwoSlots(s1, s2), s1 as bv6) == if s1 < s2 then 0 else 1
    ensures PopBelow(TwoSlots(s1, s2), s2 as bv6) == if s2 < s1 then 0 else 1
  {
    forall q ensures IsSet(TwoSlots(s1, s2), q) <==> q == s1 || q == s2 {
      TwoSlotsAt(s1, s2, q);
    }
    TwoSlotsInsert(s1, s2);
    var w1 := InsertBit(s1, 0);
    TwoSlotsCount(s1, s2, w1);
    TwoSlotsRank(s1, s2, w1, s1);
    TwoSlotsRank(s1, s2, w1, s2);
  }

  /**
   * ComputePhysicalSlot is the rank of the slot in the bitmap: the number of
   * used slots below it. For a full node (32 children) the source skips the
   * count; that shortcut gives the same rank.
   */
  lemma PhysicalSlotIsRank(used: bv32, s: bv5)
    ensures PhysicalSlot(used, Popcount(used), s) == PopBelow(used, s as bv6)
  {
    if Popcount(used) == 32 {
      PopBelowFull(used, 32, s as bv6);
    } else if s != 0 {
      PopBelowMask(used, s, 32);
    }
  }

  /**
   * For a node whose child array has one entry per used slot, the physical
   * slot is the rank; it is an index of the array when the slot is used,
   * and an insertion point otherwise.
   */
  lemma PhysicalSlotInRange(used: bv32, length: nat, s: bv5)
    requires length == Popcount(used)
    ensures PhysicalSlot(used, length, s) == PopBelow(used, s as bv6)
    ensures PhysicalSlot(used, length, s) <= length
    ensures IsInUse(used, s) ==> PhysicalSlot(used, length, s) < length
  {
    PhysicalSlotIsRank(used, s);
    PopBelowMonotone(used, s as bv6, 32);
    IsInUseIsSet(used, s);
    if IsSet(used, s) {
      RankInRange(used, s);
    }
  }

  /** A used slot's rank is a valid index into the child array. */
  lemma RankInRange(used: bv32, s: bv5)
    requires IsSet(used, s)
    ensures PopBelow(used, s as bv6) < Popcount(used)
  {
    PopBelowStrict(used, s, 32);
  }

  /** Different used slots have different ranks, ordered like the slots. */
  lemma RankOrdered(used: bv32, p: bv5, q: bv5)
    requires p < q && IsSet(used, p)
    ensures PopBelow(used, p as bv6) < PopBelow(used, q as bv6)
  {
    PopBelowStrict(used, p, q as bv6);
  }

  /**
   * After InsertBit at a free slot `s`, a used slot `t` keeps its rank when
   * it is below `s` and moves up by one above it; ranks below `s` stay
   * below the new slot's rank.
   */
  lemma RankAfterInsert(used: bv32, s: bv5, t: bv5)
    requires !IsSet(used, s) && IsSet(used, t)
    ensures IsSet(InsertBit(s, used), t)
    ensures PopBelow(InsertBit(s, used), t as bv6) == PopBelow(used, t as bv6) + (if s < t then 1 else 0)
    ensures t < s ==> PopBelow(used, t as bv6) < PopBelow(used, s as bv6)
    ensures s < t ==> PopBelow(used, s as bv6) <= PopBelow(used, t as bv6)
  {
    InsertBitAt(s, used, t);
    PopBelowInsertBit(s, used, t as bv6);
    if t < s {
      RankOrdered(used, t, s);
    } else {
      PopBelowMonotone(used, s as bv6, t as bv6);
    }
  }

  /**
   * After RemoveBit at a used slot `s`, another used slot `t` keeps its rank
   * when it is below `s` and moves down by one above it.
   */
  lemma RankAfterRemove(used: bv32, s: bv5, t: bv5)
    requires IsSet(used, s) && IsSet(used, t) && s != t
    ensures IsSet(RemoveBit(s, used), t)
    ensures PopBelow(RemoveBit(s, used), t as bv6) + (if s < t then 1 else 0) == PopBelow(used, t as bv6)
    ensures t < s ==> PopBelow(used, t as bv6) < PopBelow(used, s as bv6)
    ensures s < t ==> PopBelow(used, s as bv6) < PopBelow(used, t as bv6)
  {
    RemoveBitAt(s, used, t);
    if t < s {
      RankBelowRemoved(used, s, t);
    } else {
      RankAboveRemoved(used, s, t);
    }
  }

  /** A used slot below the removed one keeps its rank. */
  lemma RankBelowRemoved(used: bv32, s: bv5, t: bv5)
    requires IsSet(used, s) && IsSet(used, t) && t < s
    ensures PopBelow(RemoveBit(s, used), t as bv6) == PopBelow(used, t as bv6) < PopBelow(used, s as bv6)
  {
    PopBelowRemoveBit(s, used, t as bv6);
    RankOrdered(used, t, s);
  }

  /** A used slot above the removed one moves down by one. */
  lemma RankAboveRemoved(used: bv32, s: bv5, t: bv5)
    requires IsSet(used, s) && IsSet(used, t) && s < t
    ensures PopBelow(RemoveBit(s, used), t as bv6) + 1 == PopBelow(used, t as bv6)
    ensures PopBelow(used, s as bv6) < PopBelow(used, t as bv6)
  {
    PopBelowRemoveBit(s, used, t as bv6);
    RankOrdered(used, s, t);
  }

  /** InsertBit adds one used slot, RemoveBit takes one away. */
  lemma PopcountInsertRemove(used: bv32, s: bv5)
    ensures !IsSet(used, s) ==> Popcount(InsertBit(s, used)) == Popcount(used) + 1
    ensures IsSet(used, s) ==> Popcount(RemoveBit(s, used)) + 1 == Popcount(used)
  {
    if IsSet(used, s) {
      PopBelowRemoveBit(s, used, 32);
    } else {
      PopBelowInsertBit(s, used, 32);
    }
  }

  /** The rank of a used slot `t` after InsertBit at `s`, given its old rank `j`. */
  lemma RankShiftedUp(used: bv32, s: bv5, t: bv5, j: nat, i: nat)
    requires !IsSet(used, s) && IsSet(used, t) && PopBelow(used, t as bv6) == j
    requires i == (if j < PopBelow(used, s as bv6) then j else j + 1)
    ensures IsSet(InsertBit(s, used), t) && PopBelow(InsertBit(s, used), t as bv6) == i
  {
    RankAfterInsert(used, s, t);
  }

  /** The rank of the new slot `s` after InsertBit is its rank before. */
  lemma RankOfInserted(used: bv32, s: bv5)
    requires !IsSet(used, s)
    ensures IsSet(InsertBit(s, used), s) && PopBelow(InsertBit(s, used), s as bv6) == PopBelow(used, s as bv6)
  {
    InsertBitAt(s, used, s);
    PopBelowInsertBit(s, used, s as bv6);
  }

  /** The rank of a used slot `t != s` after RemoveBit at `s`, given its old rank `j`. */
  lemma RankShiftedDown(used: bv32, s: bv5, t: bv5, j: nat, i: nat)
    requires IsSet(used, s) && IsSet(used, t) && PopBelow(used, t as bv6) == j
    requires j != PopBelow(used, s as bv6)
    requires i == (if j < PopBelow(used, s as bv6) then j else j - 1)
    ensures IsSet(RemoveBit(s, used), t) && PopBelow(RemoveBit(s, used), t as bv6) == i
  {
    RankAfterRemove(used, s, t);
  }
}
