# hashmap-mem in Dafny

This project models `hashmap-mem`, a fixed-capacity hash map that lives in a single
caller-provided memory region. The region starts with a 24-byte header: capacity, element count,
key and value sizes and offsets, bucket size, logical limit and a secret code. An array of buckets
follows the header. Each bucket holds a status byte (Empty, Tombstone or Occupied), an aligned key
and an aligned value.

- **Collisions.** Linear probing resolves them. A probe never looks at more than
  `min(capacity, 32)` buckets.
- **Removal.** Removing a key leaves a Tombstone.
- **Insertion.** An insertion reuses the first Tombstone it passed once it knows the key is absent.
- **Other operations.**
  - `overwrite` copies every entry of one map into another.
  - `find_next_valid_entry` is a resumable scan over the occupied buckets.

The model has two layers.

- **Specification layer.** This layer is pure. `Probing.Table` is the three bucket columns (status,
  key, value), and `Find`, `Reserve`, `AfterReserve`, `AfterRemove` and `CopyFrom` are functions on
  it. `WellFormed` is the invariant:
  - every occupied key can be reached from its home slot without crossing an Empty bucket;
  - no key is held twice.

  The lemmas in `ProbingProperties`, `Cursor` and `Merge` prove what these operations mean in
  terms of the key set and of `Get`.
- **Imperative layer.** `HashMapMem.HashMap` is a class. It keeps the header fields and the bucket
  columns as arrays, and its methods walk the probe sequence with `while` loops, as the Rust
  functions do. Each method is proved against the specification layer, and every mutating method
  preserves `Valid()`.

`MapLayout` models the byte layout arithmetic: alignment, bucket size, total size and the
capacity's power-of-two rounding. `Scenarios` replays the three integration tests.

Modules and files:

| file | module | models |
|---|---|---|
| `wrappers.dfy` | `Wrappers` | `Option` |
| `layout.dfy` | `MapLayout` | `calculate_bucket_layout`, `total_size`, `layout`, the header and bucket addresses |
| `probing.dfy` | `Probing` | bucket status, probe sequence, lookup and reservation as functions, the map invariant |
| `probing_properties.dfy` | `ProbingProperties` | correctness of lookup, insertion and removal |
| `cursor.dfy` | `Cursor` | `find_next_valid_entry` and full enumeration |
| `merge.dfy` | `Merge` | the copy loop of `overwrite` |
| `hashmap.dfy` | `HashMapMem` | the map as an object: `init`, `matches_key`, `get_or_reserve_entry`, `has`, `lookup`, `remove`, `overwrite`, `find_next_valid_entry` |
| `scenarios.dfy` | `Scenarios` | the three integration tests |

## Model

| member | source | states |
|---|---|---|
| MapLayout.AlignUp | src/lib.rs:78-84 | Rounding up to an alignment gives the least multiple of the alignment that is not below the input. |
| MapLayout.CalculateBucketLayout | src/lib.rs:68-97 | The key offset is the first multiple of the key alignment after the status byte. The value offset is the first multiple of the value alignment after the key. The bucket size is the first multiple of the larger alignment after the value. The key offset fits the `u8` it is cast to, and the bucket size fits `u32`. |
| MapLayout.BucketsTile | src/lib.rs:86-90 | Because the bucket size is a multiple of both alignments, the key and the value of every bucket are aligned, not only those of bucket 0. |
| MapLayout.BucketsDisjoint | src/lib.rs:175-182 | Buckets start after the header, come in index order, do not overlap and all end within `MAP_BUCKETS_OFFSET + capacity * bucket_size`. |
| MapLayout.HeaderLayout | src/lib.rs:21-36 | The nine header fields are laid out back to back, each at an offset that is a multiple of its width, and end exactly at the 24-byte bucket offset. |
| MapLayout.TotalSize | src/lib.rs:99-102 | The result always fits `u32`, and it is the exact header plus bucket bytes whenever that fits. |
| MapLayout.NextPowerOfTwo | src/lib.rs:112 | The result is a power of two, at least the input, and less than twice the input (or 1). |
| MapLayout.NextPowerOfTwoIsLeast | src/lib.rs:112 | No power of two at or above the input is smaller than the result. |
| MapLayout.CapacityFits | src/lib.rs:112 | A logical limit up to 32768 rounds up to a capacity that still fits `u16`. |
| MapLayout.PowIsPowerOfTwo | src/lib.rs:112 | Every `2^k` satisfies the power-of-two predicate the capacity must meet. |
| MapLayout.Layout | src/lib.rs:104-127 | The returned bucket layout is the one computed from the sizes. The capacity is the least power of two at or above the logical limit. The logical limit and the sizes are copied, and the total size is `total_size(capacity, bucket_size)`: the header plus bucket bytes truncated to `u32`, which is the exact sum whenever that fits. |
| MapLayout.LayoutExample | tests/tests.rs:15 | A 4-byte key and an 8-byte value with limit 16 give 16-byte buckets, capacity 16 and 280 bytes. |
| MapLayout.LayoutExampleSmall | tests/tests.rs:51 | A 2-byte key and a 4-byte value with limit 8 give 8-byte buckets, capacity 8 and 88 bytes. |
| MapLayout.LayoutExampleEven | tests/tests.rs:100 | 4-byte keys and values with limit 8 give 12-byte buckets, capacity 8 and 120 bytes. |
| MapLayout.LayoutExampleEvenLarger | tests/tests.rs:101 | The same sizes with limit 16 give capacity 16 and 216 bytes. |
| Probing.StatusByte | src/lib.rs:13-19 | Only Empty is stored as byte 0, which is what lets a zero-filled status area mean "all empty". |
| Probing.ParseStatus | src/lib.rs:255-287 | Exactly the bytes 0, 1 and 2 are statuses, and each one decodes to the status that encodes back to it. |
| Probing.StatusByteRoundTrip | src/lib.rs:13-19 | Decoding a status's byte gives the status back. |
| Probing.ProbeLimit | src/lib.rs:250 | The probe window is the capacity or 32, whichever is smaller. |
| Probing.Home | src/lib.rs:246 | The home slot is inside the bucket array. |
| Probing.SlotStep | src/lib.rs:291 | Each probe step moves to `(index + 1) mod capacity`, which is the masked increment for a power-of-two capacity. |
| Probing.Displacement | src/lib.rs:252-291 | Every bucket is reached by exactly one probe step from a given home slot. |
| Probing.FindFrom | src/lib.rs:367-388 | A probe that reports a hit points at an Occupied bucket holding the key. |
| Probing.ReserveFrom | src/lib.rs:252-311 | A reservation that is not a refusal names a bucket inside the array. |
| Probing.ClearedIsWellFormed | src/lib.rs:175-182 | After every status is set to Empty, the map satisfies the invariant, has no entries and holds no keys. |
| ProbingProperties.OccupiedCountBound | src/lib.rs:264-270 | The number of occupied buckets never exceeds the capacity, and is below it whenever some bucket is not Occupied. This is why incrementing the count cannot overflow. |
| ProbingProperties.OccupiedAfterWrite | src/lib.rs:264-270 | Writing one status byte changes the occupied count by exactly one or zero, according to the old and new status. |
| ProbingProperties.FindFromReaches | src/lib.rs:367-388 | In a well-formed map, probing for a held key from any step up to its displacement reaches its bucket. |
| ProbingProperties.FindCorrect | src/lib.rs:338-393 | Lookup finds a key exactly when the map holds it, and the bucket it returns is the one bucket holding that key. |
| ProbingProperties.GetAfterStore | src/lib.rs:520-531 | Writing the value of one bucket leaves every lookup's bucket unchanged, and changes only the value read through that bucket. |
| ProbingProperties.ReserveFromOutcomes | src/lib.rs:252-311 | A probe that has passed only non-matching buckets returns the existing bucket if the key lies ahead in the window. Otherwise it returns the first vacant bucket of the window, and it reports null only when the whole window is Occupied by other keys. |
| ProbingProperties.ReserveOutcomes | src/lib.rs:219-313 | The reservation is Existing exactly when the key is held. A fresh bucket is the first Empty or Tombstone bucket of the probe window. The map is full exactly when every bucket of the window is Occupied by another key. |
| ProbingProperties.NotFoundMeansAbsent | src/lib.rs:372-375 | When a lookup stops without a hit, no Occupied bucket anywhere holds the key. |
| ProbingProperties.ReservePreserves | src/lib.rs:256-311 | Claiming a bucket keeps the map well formed. Existing is returned exactly for a held key. The key set gains the key unless the map is full. The count rises by one exactly on a fresh claim, and no value changes. |
| ProbingProperties.OccupyPreserves | src/lib.rs:264-266 | Writing an absent key into the first vacant bucket of its window keeps the map well formed and adds exactly that key. |
| ProbingProperties.ReserveThenFind | src/lib.rs:274-279 | After a reservation, lookup finds the key at the reserved bucket, and reserving the same key again returns that bucket as Existing and changes nothing. |
| ProbingProperties.ReserveKeepsOthers | src/lib.rs:219-313 | Reserving one key does not change where any other key is found. |
| ProbingProperties.InsertThenGet | tests/tests.rs:31-42 | Reserving a key and writing a value makes the key read back that value and leaves every other key's value unchanged. |
| ProbingProperties.RemoveCorrect | src/lib.rs:406-466 | Removal keeps the map well formed and removes exactly the key. The count drops by one exactly when the key was held, keys and values are untouched, the key is no longer found, and every other key reads as before. |
| ProbingProperties.VacatePreserves | src/lib.rs:446-452 | Turning an occupied bucket into a Tombstone keeps every other key reachable and removes only that bucket's key. |
| ProbingProperties.VacateKeepsOthers | src/lib.rs:446-452 | After a bucket becomes a Tombstone, its key reads as absent and every other key reads as before. |
| ProbingProperties.ReinsertAfterRemove | src/lib.rs:281-308 | Reserving a key right after removing it claims a fresh bucket, for example the Tombstone just left, rather than finding a stale entry. |
| ProbingProperties.KeySetSize | src/lib.rs:264-270 | With unique keys, the number of distinct keys held equals the number of Occupied buckets. `element_count` therefore counts keys as well as buckets. |
| ProbingProperties.WindowSlotsSize | src/lib.rs:250-291 | The first `m` probe steps visit `m` distinct buckets. |
| ProbingProperties.RoomMeansNotFull | src/lib.rs:250-311 | While the map has fewer entries than the probe window, insertion never returns null. |
| ProbingProperties.SingleBucketHoldsOneKey | src/lib.rs:250 | With capacity 1, once a key is held any other key is refused. |
| Cursor.NextOccupied | src/lib.rs:560-575 | The scan returns the first Occupied bucket at or after the start index. When it returns none, no bucket from the start onward is Occupied. |
| Cursor.EnumerateFrom | src/lib.rs:549-579 | Resuming the scan one past each returned index lists exactly the Occupied buckets from the start, in strictly increasing order. |
| Cursor.EnumerateAll | src/lib.rs:549-579 | A full walk with the scan visits every entry exactly once, in index order, in as many steps as there are entries. |
| Merge.CopyFrom | src/lib.rs:517-535 | The copy loop keeps the table's shape and stops at a source index between its start and the end. |
| Merge.StoreKeepsKeys | src/lib.rs:530 | Writing a value keeps the map well formed, and keeps its key set and its count. |
| Merge.CopyOne | src/lib.rs:519-531 | One copy step makes the key read back the source value. It adds the key to the key set, counts it only if new, and leaves every other key's value as before. |
| Merge.LaterSourceKeysDiffer | src/lib.rs:517-532 | A source key copied at one index does not appear again later in the source. |
| Merge.SourceKeysStep | src/lib.rs:517-532 | The keys left to copy are the current bucket's key, if Occupied, plus the keys after it. |
| Merge.CopyFromCorrect | src/lib.rs:517-535 | The copy keeps the target well formed. It succeeds exactly when it reaches the end of the source. The target gains exactly the copied keys, its count rises by the new ones, copied keys read the source's values and other keys read as before. When it fails, the target was full. |
| Merge.CopyFromSucceeds | src/lib.rs:524-528 | If the target's entries plus the source's remaining entries fit in the probe window, no copy step is refused. |
| Merge.DisjointCopyCount | src/lib.rs:517-535 | When none of the source's keys is already in the target, the number of new keys equals the source's number of entries. |
| Merge.CopyAllReadsSource | src/lib.rs:517-535 | After a full successful copy, every source key reads the source's value in the target. Every other key reads as before, and the count rises by the source keys the target did not hold. |
| HashMapMem.MatchesKey | src/lib.rs:188-206 | The byte-by-byte comparison returns true exactly when the first `len` bytes agree. |
| HashMapMem.SameKey | src/lib.rs:188-206 | Two keys of the map's key size that agree on that many bytes are the same key. |
| HashMapMem.HashMap.Init | src/lib.rs:137-183 | Initialising writes the header from the configuration (capacity, limit, sizes, offsets from the bucket layout, count 0, secret code 0x3d) and marks every bucket Empty. The result is a valid map with no keys. |
| HashMapMem.HashMap.Claim | src/lib.rs:264-270 | Claiming a bucket marks it Occupied, stores the key and increments the count. |
| HashMapMem.HashMap.GetOrReserveEntry | src/lib.rs:219-313 | The result is the specified reservation's bucket. Buckets, keys and count become exactly those after the reservation. Null is returned only when the window is full, and the map stays valid. |
| HashMapMem.HashMap.ClaimReserved | src/lib.rs:295-308 | Claiming the remembered first Tombstone yields the specified post-reservation buckets and counts the new entry. |
| HashMapMem.HashMap.Lookup | src/lib.rs:338-393 | The loop returns the specified lookup: a bucket exactly when the key is held, and then the Occupied bucket holding it. |
| HashMapMem.HashMap.Has | src/lib.rs:323-325 | `has` is true exactly when the key is held, that is, exactly when a lookup yields a value. |
| HashMapMem.HashMap.Remove | src/lib.rs:406-466 | Removal reports true exactly when the key was held. It leaves the specified post-removal buckets, decrements the count only then, and keeps the map valid. |
| HashMapMem.HashMap.TombstoneFound | src/lib.rs:446-454 | Marking the found bucket as a Tombstone gives the specified post-removal buckets and decrements the count. |
| HashMapMem.HashMap.SetValue | tests/tests.rs:31-35 | A caller's write through the returned value pointer changes only that bucket's value and keeps the map valid. |
| HashMapMem.HashMap.FindNextValidEntry | src/lib.rs:549-579 | The scan returns the first Occupied bucket at or after the start. The returned index is that bucket's index, or 0xFFFF exactly when no entry is left; a real index never collides with the sentinel. |
| HashMapMem.HashMap.Overwrite | src/lib.rs:479-536 | If the source holds more entries than the target's logical limit, the result is false and the target is unchanged. Otherwise the result and the new buckets are those of the specified copy loop, including the partial copy left behind when a reservation is refused. On success the target holds its old keys plus the source's, every source key reads the source's value, other keys read as before, and the count rises by the newly added keys. When the key sets are disjoint, the count rises by exactly the source's `element_count`. |
| Scenarios.Insert | tests/tests.rs:31-35 | Reserving and writing a value makes the key read back the value, leaves other keys as they were and counts the key if it is new. |
| Scenarios.InsertTwo | tests/tests.rs:66-75 | Inserting two different keys into an empty map gives two entries that read back their values. |
| Scenarios.InsertThree | tests/tests.rs:115-124 | Inserting three different keys into an empty map gives three entries that read back their values. |
| Scenarios.Read | tests/tests.rs:40-42 | Reading a key through lookup yields the value the specification's `Get` gives. |
| Scenarios.InsertThenLookup | tests/tests.rs:10-44 | Replays the insert-and-lookup test: after one insertion the count is 1 and lookup returns `0xABCDEF0123456789`. |
| Scenarios.RemoveOneOfTwo | tests/tests.rs:46-94 | Replays the removal test: the count goes from 2 to 1, the removed key is not found and the other still reads 2000. |
| Scenarios.CopyThree | tests/tests.rs:126-130 | Overwriting an empty target with a three-entry source succeeds, gives count 3 and makes each key read the source's value. |
| Scenarios.OverwriteThree | tests/tests.rs:96-141 | Replays the overwrite test: the source has count 3, the overwrite succeeds, the target has count 3, and the keys 0, 1 and 2 read 0, 100 and 200. |

## Left out

- The hash function (`calculate_hash_bytes`, FxHasher64) is a parameter `hash: Key -> nat` of the map. Every property holds for any hash function.
- Raw pointers, `unsafe`, allocation and the byte-level encoding of the region are left out.
  - The header is modelled as fields of the class and the buckets as three arrays (status, key, value).
  - Bucket byte addresses are modelled separately by `BucketAddress` and `BucketsDisjoint`.
  - Returned value and key pointers are modelled as bucket indices.
- The index masking `& (capacity - 1)` is modelled as `% capacity`, and the alignment mask as rounding up to a multiple. The two agree only for powers of two.
  - The Rust code asserts a power-of-two capacity (`debug_assert!`).
  - It assumes power-of-two alignments but never checks them. The model requires them of `calculate_bucket_layout`'s callers (`IsAlignment`), so a caller passing another alignment is not modelled.
- Status bytes other than 0, 1 and 2 cannot be represented. `get_or_reserve_entry` treats them as unreachable, and `lookup` and `remove` skip them.
- The `debug_assert!`s are modelled as preconditions, or as fields of `Valid()`:
  - the secret code;
  - non-zero key size;
  - non-zero, power-of-two capacity (src/lib.rs:138-141, 230-239, 348-357, 415-424, 483-490, 556-559);
  - equal bucket, key and value sizes of source and target in `overwrite` (src/lib.rs:497-508).
- MapLayout.CalculateBucketLayout: requires `LayoutFits`, that key size plus value size plus the largest alignment padding stays below 2^32. The `u32` additions of src/lib.rs:79-90 wrap silently above that, and the model does not describe the wrapped offsets. `MapLayout.Layout` carries the same requirement.
- MapLayout.Layout: requires `logical_limit <= 32768`, because `u16::next_power_of_two` overflows above that.
- HashMapMem.HashMap.Init: takes the caller's buffer as three arrays whose keys and values already have the configured sizes. Alignment of the base pointer is not modelled.
- HashMapMem.HashMap.Overwrite: requires the source and the target to be different maps whose buffers do not overlap. The Rust function does not check this, and it does not specify copying a map onto itself.
  - Equal bucket, key and value sizes are the `debug_assert_eq!`s of src/lib.rs:497-508.
- HashMapMem.HashMap.GetOrReserveEntry: the logical limit is not enforced on insertion, as in the Rust code. Only `overwrite` checks it.
- Concurrent access is not modelled: the Rust functions take no locks.
- The loops of the integration tests are unrolled into straight-line calls.
