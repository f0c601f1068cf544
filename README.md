# ImmutableHashMap as a verified Dafny model

This project models `ImmutableHashMap<TKey, TValue>`, the immutable persistent
hash map of the Roslyn workspaces layer, and proves it correct against the
finite map it denotes.

The map is a hash array mapped trie of three kinds of bucket:

- a **value bucket** holds one key, its value and the key's 32-bit hash;
- a **list bucket** holds two or more value buckets whose keys share one hash;
- a **hash bucket** holds up to 32 children.

A hash bucket picks a key's child by rotating the hash right by the node's
`hashRoll` and taking the low five bits: that is the key's logical slot. A
32-bit `used` bitmap marks the logical slots that hold a child. The children
sit densely in slot order, so the child of a used slot is at its physical
slot: the number of used slots below it. Buckets are never changed in place.
Every operation returns a new bucket, or the same one when nothing changes,
so buckets are a Dafny datatype and their operations are functions.

The public map is its root bucket, or no root when it is empty. Its
operations do three things:

- they guard the missing root;
- they delegate to the root;
- they rewrap the new root with `Wrap`, which gives back the very same map
  when the root did not change.

Enumeration walks the trie with an explicit stack of enumerators. Bulk adds
and removes are loops. These loops are Dafny methods with loop invariants,
and so are three other loops of the source:

- `ListBucket.Find`;
- the search for a separating hash roll in the two-bucket `HashBucket`
  constructor;
- the bit-parallel `CountBits`.

The key comparer is a hash function `H: K -> bv32` that every operation
takes, with `==` as its key equality. The value comparer is `==`. A bucket is
*valid* when it keeps the invariant the source relies on:

- stored hashes are the keys' hashes;
- a list bucket holds distinct keys of one hash and has at least 2 of them;
- a hash bucket has one child per set bit of `used`, and at least 2 children;
- a hash bucket's `count` is the sum of its children's counts;
- every key sits in the child its logical slot selects.

Every operation's proof states its result in terms of the denoted map:
`Contents` for a bucket, `MapContents` for a map.

Modules:

- `Bits` and `HashBucketBits` cover slots, bitmaps, the rank of a slot and
  CountBits.
- `Buckets` holds the trie and its operations.
- `TwoBucketNode` covers the two-bucket constructor.
- `BucketContents` and `BucketEntries` hold the lemmas about contents and
  entries.
- `BucketAdd`, `BucketRemove` and `BucketLookup` prove Add, Remove and Get
  correct.
- `ImmutableMap` is the public map.
- `MapEnumeration` covers GetValueBuckets, Keys, Values and ContainsValue.
- `MapBulk` covers RemoveRange, AddRange and SetItems.

## Model

All source paths are under `Src/Workspaces/Core/Portable/Utilities/CompilerUtilities/`, written out in full below.

| member | source | states |
|---|---|---|
| `HashBucketBits.CountBits` | Src/Workspaces/Core/Portable/Utilities/CompilerUtilities/ImmutableHashMap.cs:1018-1026 | the bit-parallel count (pairs, nibbles, bytes, the multiply by 0x01010101 and the shift by 24) returns the number of set bits of its argument |
| `HashBucketBits.ComputePhysicalSlot` | Src/Workspaces/Core/Portable/Utilities/CompilerUtilities/ImmutableHashMap.cs:999-1015 | it computes the physical slot: the logical slot itself for a full array, 0 for slot 0, and otherwise CountBits of the bits below the slot |
| `Bits.PhysicalSlotInRange` | Src/Workspaces/Core/Portable/Utilities/CompilerUtilities/ImmutableHashMap.cs:999-1015 | when the array has one child per used bit, the physical slot is the number of used bits strictly below the slot, with the full array and slot 0 included. It is at most the array length, and below it for a used slot |
| `Bits.InsertBitAt` | Src/Workspaces/Core/Portable/Utilities/CompilerUtilities/ImmutableHashMap.cs:1029-1033 | InsertBit on a clear position sets that bit and leaves every other bit as it was |
| `Bits.RemoveBitAt` | Src/Workspaces/Core/Portable/Utilities/CompilerUtilities/ImmutableHashMap.cs:1036-1040 | RemoveBit on a set position clears that bit and leaves every other bit as it was |
| `Bits.PopcountInsertRemove` | Src/Workspaces/Core/Portable/Utilities/CompilerUtilities/ImmutableHashMap.cs:843-847 | inserting a bit adds one to the popcount, and removing one takes one away. So `buckets.Length == CountBits(used)` survives InsertAt and RemoveAt |
| `Bits.RankAfterInsert` | Src/Workspaces/Core/Portable/Utilities/CompilerUtilities/ImmutableHashMap.cs:917-922 | after InsertBit, the ranks of the used slots above the new slot go up by one, and those below stay |
| `Bits.RankAfterRemove` | Src/Workspaces/Core/Portable/Utilities/CompilerUtilities/ImmutableHashMap.cs:944-947 | after RemoveBit, the ranks of the used slots above the removed slot go down by one, and those below stay |
| `Bits.SeparatingRoll` | Src/Workspaces/Core/Portable/Utilities/CompilerUtilities/ImmutableHashMap.cs:980-997 | for two different hashes, some rotation puts them in different logical slots (ComputeLogicalSlot after RotateRight) |
| `Buckets.IndexOf` | Src/Workspaces/Core/Portable/Utilities/CompilerUtilities/ImmutableHashMap.cs:810-821 | the result is -1 or an index holding the key, and no earlier index holds the key |
| `Buckets.Find` | Src/Workspaces/Core/Portable/Utilities/CompilerUtilities/ImmutableHashMap.cs:810-821 | the linear scan returns the first index of the key, or -1 |
| `Buckets.FindRoll` | Src/Workspaces/Core/Portable/Utilities/CompilerUtilities/ImmutableHashMap.cs:871-877 | a roll the search returns puts the two hashes in different logical slots |
| `Buckets.NewHashBucket` | Src/Workspaces/Core/Portable/Utilities/CompilerUtilities/ImmutableHashMap.cs:860-888 | the constructor's loop over rolls `(suggested + i) & 31` builds the node that HashBucketOf describes, or fails with InvalidOperation |
| `Buckets.PlaceTwo` | Src/Workspaces/Core/Portable/Utilities/CompilerUtilities/ImmutableHashMap.cs:880-882 | each bucket lands at the physical slot of its logical slot, in slot order |
| `TwoBucketNode.FindRollSucceeds` | Src/Workspaces/Core/Portable/Utilities/CompilerUtilities/ImmutableHashMap.cs:871-887 | for different hashes the search always finds a roll, so InvalidOperationException is unreachable |
| `TwoBucketNode.HashBucketOfValid` | Src/Workspaces/Core/Portable/Utilities/CompilerUtilities/ImmutableHashMap.cs:860-888 | two valid value or list buckets of different hashes make a valid node. It has two used bits, each bucket at its own slot, both buckets' entries, and a count of all of them |
| `TwoBucketNode.AsWrittenCountIsWrong` | Src/Workspaces/Core/Portable/Utilities/CompilerUtilities/ImmutableHashMap.cs:878 | with a list bucket as one of the two buckets, the count of 2 as written is not the number of entries, and the node breaks the count invariant |
| `BucketAdd.AddCorrect` | Src/Workspaces/Core/Portable/Utilities/CompilerUtilities/ImmutableHashMap.cs:654-687 | Add on a valid bucket fails, with DuplicateKey only, exactly when the key is there with another value and overwriting is off. Otherwise the result is valid and maps the key to the new value. It counts one more exactly when the key is new, and it is the same bucket exactly when the entry was already there |
| `BucketAdd.AddLeaf` | Src/Workspaces/Core/Portable/Utilities/CompilerUtilities/ImmutableHashMap.cs:654-687 | ValueBucket.Add has four outcomes: the same leaf, the new leaf or DuplicateKey for the same key; a two-entry list for the same hash; a two-child hash bucket for another hash. All of them meet the Add contract |
| `BucketAdd.AddLeafPair` | Src/Workspaces/Core/Portable/Utilities/CompilerUtilities/ImmutableHashMap.cs:677-681 | a new key of the same hash makes a two-entry list bucket of the old and the new value bucket, valid and holding both entries |
| `BucketAdd.AddLeafOther` | Src/Workspaces/Core/Portable/Utilities/CompilerUtilities/ImmutableHashMap.cs:683-686 | a key of another hash makes a valid two-child hash bucket of the two value buckets, holding both entries |
| `BucketAdd.AddList` | Src/Workspaces/Core/Portable/Utilities/CompilerUtilities/ImmutableHashMap.cs:736-769 | ListBucket.Add meets the Add contract |
| `BucketAdd.AddListNew` | Src/Workspaces/Core/Portable/Utilities/CompilerUtilities/ImmutableHashMap.cs:760-763 | the branch for a new key of the list's hash, which appends it, meets the Add contract: a valid list with distinct keys and the new entry, one more in count |
| `BucketAdd.AddListReplace` | Src/Workspaces/Core/Portable/Utilities/CompilerUtilities/ImmutableHashMap.cs:748-753 | the overwrite branch for a key already in the list with another value meets the Add contract: the key maps to the new value, the count stays, and the bucket is a new one |
| `BucketAdd.AddListOther` | Src/Workspaces/Core/Portable/Utilities/CompilerUtilities/ImmutableHashMap.cs:765-768 | a key of another hash makes a hash bucket of the list and the new value bucket |
| `BucketAdd.ListContentsReplace` | Src/Workspaces/Core/Portable/Utilities/CompilerUtilities/ImmutableHashMap.cs:752 | replacing the entry of a key in a list of distinct keys keeps the keys distinct and updates the contents at that key only |
| `BucketAdd.AddHash` | Src/Workspaces/Core/Portable/Utilities/CompilerUtilities/ImmutableHashMap.cs:895-924 | HashBucket.Add meets the Add contract, given the contract for the children |
| `BucketAdd.AddOccupied` | Src/Workspaces/Core/Portable/Utilities/CompilerUtilities/ImmutableHashMap.cs:897-915 | the used-slot branch meets the Add contract, given the contract for the child's result. The shape of the branch (the child of that slot, the roll five further on, ReplaceChild) is unfolded by `BucketAdd.HashAddAt` |
| `BucketAdd.HashAddAt` | Src/Workspaces/Core/Portable/Utilities/CompilerUtilities/ImmutableHashMap.cs:897-915 | on a used slot the physical slot is inside the array, and HashBucket.Add hands the child at that slot the key with the roll five further on, then takes what ReplaceChild makes of the result |
| `BucketAdd.HashAddFree` | Src/Workspaces/Core/Portable/Utilities/CompilerUtilities/ImmutableHashMap.cs:917-923 | on a free slot the rank is at most the array length, and HashBucket.Add sets the slot's bit, inserts the value bucket at the rank and counts one more |
| `BucketAdd.AddFree` | Src/Workspaces/Core/Portable/Utilities/CompilerUtilities/ImmutableHashMap.cs:917-923 | the free-slot branch meets the Add contract. The node's shape (the slot's bit set, the value bucket inserted at its physical slot, one more in count) is unfolded by `BucketAdd.HashAddFree`, and `Bits.InsertBitAt` says the bit set is exactly that slot's |
| `BucketRemove.RemoveCorrect` | Src/Workspaces/Core/Portable/Utilities/CompilerUtilities/ImmutableHashMap.cs:689-697 | Remove on a valid bucket gives null exactly when the key was its only key. Otherwise the result is valid, holds every other entry, counts one less exactly when the key was there, and is the same bucket exactly when it was not |
| `BucketRemove.RemoveList` | Src/Workspaces/Core/Portable/Utilities/CompilerUtilities/ImmutableHashMap.cs:771-794 | ListBucket.Remove meets the Remove contract. A two-entry list leaves the other value bucket, and an absent key or another hash leaves the list |
| `BucketRemove.ListContentsRemove` | Src/Workspaces/Core/Portable/Utilities/CompilerUtilities/ImmutableHashMap.cs:788 | removing the entry at a key's position from a list of distinct keys removes exactly that key from the contents |
| `BucketRemove.RemoveHash` | Src/Workspaces/Core/Portable/Utilities/CompilerUtilities/ImmutableHashMap.cs:926-956 | HashBucket.Remove meets the Remove contract, given the contract for the children, and a free slot leaves the node |
| `BucketRemove.ChildEmptied` | Src/Workspaces/Core/Portable/Utilities/CompilerUtilities/ImmutableHashMap.cs:934-948 | a child that empties is dropped, and the result meets the Remove contract |
| `BucketRemove.EmptiedTwo` | Src/Workspaces/Core/Portable/Utilities/CompilerUtilities/ImmutableHashMap.cs:940-943 | a node of two children whose child empties collapses to the other child, which is valid and holds the rest |
| `BucketRemove.EmptiedMore` | Src/Workspaces/Core/Portable/Utilities/CompilerUtilities/ImmutableHashMap.cs:944-947 | the branch for an emptied child of a node with more than two children meets the Remove contract. The node it builds (the slot's bit cleared, the child dropped, its count subtracted) is the unfolding of RemoveFromChild, and `Bits.RemoveBitAt` says the bit cleared is exactly that slot's |
| `BucketRemove.ChildChanged` | Src/Workspaces/Core/Portable/Utilities/CompilerUtilities/ImmutableHashMap.cs:949-952 | the changed-child branch meets the Remove contract. Its node (the child replaced, the count updated by `count - existing.Count + result.Count`) is the unfolding of RemoveFromChild |
| `BucketRemove.ChangedNode` | Src/Workspaces/Core/Portable/Utilities/CompilerUtilities/ImmutableHashMap.cs:949-952 | the node with the changed child is valid and holds the old entries without the key. The other children are untouched |
| `BucketLookup.GetCorrect` | Src/Workspaces/Core/Portable/Utilities/CompilerUtilities/ImmutableHashMap.cs:958-968 | on a valid bucket, Get with the key's hash finds a value bucket exactly when the key is there, and that value bucket has the key, its value and its hash |
| `BucketLookup.GetList` | Src/Workspaces/Core/Portable/Utilities/CompilerUtilities/ImmutableHashMap.cs:796-808 | ListBucket.Get finds the entry at the key's position |
| `BucketEntries.EntriesValid` | Src/Workspaces/Core/Portable/Utilities/CompilerUtilities/ImmutableHashMap.cs:890-893 | a valid bucket has Count entries, at least one. Their keys are distinct, and read as a list they are its contents |
| `BucketEntries.CountIsSize` | Src/Workspaces/Core/Portable/Utilities/CompilerUtilities/ImmutableHashMap.cs:731-734 | the count of a valid bucket is the number of keys it holds |
| `BucketEntries.GetAllEntries` | Src/Workspaces/Core/Portable/Utilities/CompilerUtilities/ImmutableHashMap.cs:823-826 | flattening what GetAll presents gives the bucket's entries in order |
| `ImmutableMap.CountIsSize` | Src/Workspaces/Core/Portable/Utilities/CompilerUtilities/ImmutableHashMap.cs:277-292 | Count is the number of keys, and the map is empty exactly when its root is null |
| `ImmutableMap.ClearIsEmpty` | Src/Workspaces/Core/Portable/Utilities/CompilerUtilities/ImmutableHashMap.cs:82-85 | Clear gives a map with no root and no entries, and an empty map back itself |
| `ImmutableMap.WrapDenotes` | Src/Workspaces/Core/Portable/Utilities/CompilerUtilities/ImmutableHashMap.cs:523-536 | Wrap denotes its new root (nothing for null), and returns the same map when the root did not change |
| `ImmutableMap.WrapAdded` | Src/Workspaces/Core/Portable/Utilities/CompilerUtilities/ImmutableHashMap.cs:530-535 | a valid new root gives a new map exactly when it differs from the old root |
| `ImmutableMap.AddSpec` | Src/Workspaces/Core/Portable/Utilities/CompilerUtilities/ImmutableHashMap.cs:93-106 | Add fails with DuplicateKey exactly when the key is there with another value. Otherwise the map gains the entry, counts one more exactly when the key is new, and is the same map exactly when the entry was there |
| `ImmutableMap.SetItemSpec` | Src/Workspaces/Core/Portable/Utilities/CompilerUtilities/ImmutableHashMap.cs:124-138 | SetItem maps the key to the value, counts one more exactly when the key is new, is the same map exactly when the entry was there, and is never empty |
| `ImmutableMap.RemoveSpec` | Src/Workspaces/Core/Portable/Utilities/CompilerUtilities/ImmutableHashMap.cs:158-168 | Remove drops the key, counts one less exactly when it was there, and is the same map exactly when it was not |
| `ImmutableMap.ContainsKeySpec` | Src/Workspaces/Core/Portable/Utilities/CompilerUtilities/ImmutableHashMap.cs:364-373 | ContainsKey holds exactly for the keys of the map |
| `ImmutableMap.ContainsSpec` | Src/Workspaces/Core/Portable/Utilities/CompilerUtilities/ImmutableHashMap.cs:382-391 | Contains holds exactly for the entries of the map |
| `ImmutableMap.TryGetValueSpec` | Src/Workspaces/Core/Portable/Utilities/CompilerUtilities/ImmutableHashMap.cs:396-410 | TryGetValue gives the key's value exactly when the key is there |
| `ImmutableMap.TryGetKeySpec` | Src/Workspaces/Core/Portable/Utilities/CompilerUtilities/ImmutableHashMap.cs:415-430 | TryGetKey reports whether the key is there, and gives back the equal key |
| `ImmutableMap.ItemSpec` | Src/Workspaces/Core/Portable/Utilities/CompilerUtilities/ImmutableHashMap.cs:343-355 | the indexer gives the key's value, or KeyNotFound exactly when the key is missing |
| `ImmutableMap.AddThenGet` | Src/Workspaces/Core/Portable/Utilities/CompilerUtilities/ImmutableHashMap.cs:93-106 | after a successful Add, TryGetValue finds the value added |
| `ImmutableMap.SetItemThenGet` | Src/Workspaces/Core/Portable/Utilities/CompilerUtilities/ImmutableHashMap.cs:124-138 | after SetItem, TryGetValue finds the value set |
| `ImmutableMap.RemoveThenContainsKey` | Src/Workspaces/Core/Portable/Utilities/CompilerUtilities/ImmutableHashMap.cs:158-168 | after Remove, ContainsKey is false for the key |
| `ImmutableMap.AddThenRemove` | Src/Workspaces/Core/Portable/Utilities/CompilerUtilities/ImmutableHashMap.cs:93-168 | adding a new key and removing it again gives back the same entries |
| `MapEnumeration.GetValueBuckets` | Src/Workspaces/Core/Portable/Utilities/CompilerUtilities/ImmutableHashMap.cs:573-602 | the stack walk yields exactly the entries of the root, depth first |
| `MapEnumeration.EntriesOfMap` | Src/Workspaces/Core/Portable/Utilities/CompilerUtilities/ImmutableHashMap.cs:573-602 | a valid map's walk yields Count entries, one per key, each with the map's value, so every leaf comes once |
| `MapEnumeration.Keys` | Src/Workspaces/Core/Portable/Utilities/CompilerUtilities/ImmutableHashMap.cs:296-328 | Keys is the walk's entries mapped to their keys, in walk order. It has Count keys, each once, and exactly the map's keys |
| `MapEnumeration.Values` | Src/Workspaces/Core/Portable/Utilities/CompilerUtilities/ImmutableHashMap.cs:333-339 | Values is the walk's entries mapped to their values, one per entry in walk order; with EntriesOfMap that is one value per key of the map. It has Count elements, and exactly the map's values occur in it |
| `MapEnumeration.ContainsValue` | Src/Workspaces/Core/Portable/Utilities/CompilerUtilities/ImmutableHashMap.cs:265-268 | ContainsValue holds exactly for the values of the map |
| `MapBulk.RemoveRange` | Src/Workspaces/Core/Portable/Utilities/CompilerUtilities/ImmutableHashMap.cs:174-192 | the loop removes every listed key, stopping once the root is gone. It gives back the same map when none of the keys was there |
| `MapBulk.AddPairs` | Src/Workspaces/Core/Portable/Utilities/CompilerUtilities/ImmutableHashMap.cs:545-570 | the fold of Add or SetItem holds the pairs set in order over the map. With overwriting it always succeeds; without, it fails with DuplicateKey exactly when some pair meets its key with another value |
| `MapBulk.AddRange` | Src/Workspaces/Core/Portable/Utilities/CompilerUtilities/ImmutableHashMap.cs:112-119 | AddRange fails with DuplicateKey exactly when some pair collides, and otherwise holds the pairs set in order |
| `MapBulk.SetItems` | Src/Workspaces/Core/Portable/Utilities/CompilerUtilities/ImmutableHashMap.cs:146-152 | SetItems holds the pairs set in order, a later pair winning |
| `MapBulk.SetPairsKeys` | Src/Workspaces/Core/Portable/Utilities/CompilerUtilities/ImmutableHashMap.cs:562-567 | setting pairs keeps the map's keys and adds the pairs' keys, and no others |
| `MapBulk.SetPairsLast` | Src/Workspaces/Core/Portable/Utilities/CompilerUtilities/ImmutableHashMap.cs:562-567 | a key takes the value of the last pair that names it |
| `MapBulk.SetPairsOther` | Src/Workspaces/Core/Portable/Utilities/CompilerUtilities/ImmutableHashMap.cs:562-567 | a key that no pair names keeps its value |
| `MapBulk.FreshPairsDoNotCollide` | Src/Workspaces/Core/Portable/Utilities/CompilerUtilities/ImmutableHashMap.cs:112-119 | pairs of new, distinct keys never collide, so AddRange adds them all |

## Left out

- Key and value comparers: they are foreign calls. Keys use `==` and a hash function `H`, so equal keys have equal hashes by construction. Values use `==`.
- `WithComparers` (204-250): it is left out. With the same comparers it returns the map itself or shares the root, and a changed key comparer rebuilds the map in the enumeration order of the foreign comparer.
- The `AddRange` shortcut for an empty map (551-560, 512-521): it depends on a runtime type test of the input, so AddRange and SetItems are modelled as the plain fold.
- `ToString`, the debugger proxy, the argument-check helpers, the resource strings and the interface-forwarding members: they are left out.
- The null-key ArgumentNullException: it is left out. DuplicateKey, KeyNotFound and the two-bucket constructor's InvalidOperationException are modelled as error results.
- `TryExchangeKey` (490-503) and `GetEnumerator` (441-453): they are not modelled separately. They are the same Get and the same walk as TryGetKey and GetValueBuckets. TryExchangeKey gives back the default key instead of the given one.
- Reference identity (`added != existing`, `this.root != root`): it is modelled as structural equality. The buckets return `this` exactly when nothing changes, and the proofs show that a changed result always differs structurally.
- Enumerators and `yield`: they are modelled as sequences. The walk's stack holds the buckets each enumerator has not yet moved past.
- The `MapValid` requirement of the map operations: it is the invariant every map keeps, because its root only comes from the bucket operations. The map operations ask for it instead of re-proving it.
- `int` versus `uint` hashes: hashes are `bv32`, and `hashRoll + 5` is taken modulo 32 because the constructor masks it with `& 31`. CountBits shifts its `int` product arithmetically by 24, while the model shifts logically. The top byte of the product is at most 32, so both give the same value.
- `Buckets.NewHashBucket`: it is the corrected constructor, and counts both buckets' entries. The count as written is `Buckets.HashBucketOfAsWritten`, under Findings.

## Findings

| source | as written | input that shows it | evidently intended | confidence | as-written member | corrected member |
|---|---|---|---|---|---|---|
| Src/Workspaces/Core/Portable/Utilities/CompilerUtilities/ImmutableHashMap.cs:878 | the two-bucket HashBucket constructor sets `count = 2`, but ListBucket.Add (line 767) passes it a list bucket of two or more entries | keys 0 and 1 with hash 0 in a list bucket, then Add of key 2 with hash 1. The node counts 2 but holds 3 entries, so the map's Count is wrong from then on | `count = bucket1.Count + bucket2.Count`. TwoBucketNode.HashBucketOfValid proves that this count keeps the count invariant | not executed | `TwoBucketNode.AsWrittenCountIsWrong` | `Buckets.HashBucketOf` |
