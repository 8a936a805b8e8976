# Astral engine core, modelled in Dafny

This project models the core of the Astral game engine, written in Rust:

- **Sparse slot map** (`core::collections::SparseSlotMap`). Values live in slots. Each slot keeps a packed
  `Idx` holding an occupied flag, a reserved flag and a version. A free slot links to the next free one.
  A `Key` is a slot index plus a version. The model covers the slot map's iterators, `drain`,
  `drain_filter`/`retain` and `clear`.
- **String subsystem**, which interns strings:
  - a bump allocator of entries;
  - a `StaticRefVector` of entry references, indexed by `StringId`;
  - a 65,536-bucket hash table of entry chains;
  - usage tracking and its `Subsystem` front end.
- **Interned string handles** `Name` and `Text`, including how `Name` splits off a numeric suffix.
- **Hashers**: the Murmur3 hasher and the pass-through `NopHasher`.
- **Error crate**: `Error<Kind>` with its simple, custom and chained representations, plus the
  `OptionExt` and `ResultExt` helpers.
- **Resource layer**:
  - `ResourceId`;
  - `Namespace`, which maps names to virtual file systems kept in a slot map;
  - `Catalog`, which maps namespace ids to namespaces;
  - the resource `Loader` registry.

Each source file keeps its own form:

- **Imperative code becomes classes** with `modifies` frames, whose methods are proved against
  specification functions. This covers the slot map and its iterators, the allocator, the hash
  table, the reference vector, the tracker, the hashers, `Namespace`, `Catalog` and `Loader`.
- **Value-level code becomes datatypes, functions and lemmas.** This covers slots, keys, names,
  texts, errors and resource ids.

A `Name` or `Text` is modelled as the interned handle it is. Its operations take the subsystem's
interned strings, `Strings(View())`, as a parameter.

**Fixed-width arithmetic.** Integer widths are explicit where they matter:

- the `Idx` width of a slot map (`u16` or `u32`, the two the engine uses);
- `usize` wrap-around in the tracker's counters;
- `bv32` arithmetic in Murmur3;
- `bv64` and sign extension in `NopHasher`.

**Panics and errors.** A panic in the source (`assert!`, `expect`, `unreachable!`,
`debug_assert!`) becomes a precondition. A returned error becomes a `Result` or `Option`.

**Where the model follows the code rather than the documentation:**

- **`Name` and `Text` equality and ordering.** The source takes a fast path when the `system`
  fields of the two operands are at the same address, which holds only when both operands are
  the same handle: for `Name` it compares ids and numbers, for `Text` it compares ids.
  Otherwise it compares the strings. The model compares the strings, as the slow path does.
  `Names.EqualIffSameKey` and `Texts.EqIffSameId` prove that both paths agree whenever the
  subsystem interns each string once.
- **Long strings.** The documentation says long strings are shortened. The code looks up a long
  string by its full text but stores it shortened, so the lookup never hits. Only
  `StringSubsystem.Subsystem.CreateStringIdAsWritten` models this as written, and it is listed
  under Findings. The front ends `StringSubsystem.NewStringId`, `Names.NewName` and
  `Texts.NewText` use the corrected `StringSubsystem.Subsystem.CreateStringId`; "## Left out"
  says what they then do not capture.
- **Two more findings are modelled in their corrected form by the operations that use them.**
  `SparseSlotMap.SlotMap.Remove` uses the corrected version bump, and
  `SlotMapIntoIter.IntoIter.Next` uses the corrected `take`. The code as written is modelled
  by the members named under Findings, and "## Left out" says what the two operations then do
  not capture.

## Model

| member | source | states |
|---|---|---|
| SlotKeys.NewKey | src/core/src/collections/slot_map/key.rs:30-44 | `Key::new` keeps the index and version it is given; the version of a key is never 0 |
| Slots.OccupiedBit | src/core/src/collections/slot_map/sparse/slot/mod.rs:35-37 | the occupied flag is the top bit of `Idx`: twice it is `Idx::MAX + 1` |
| Slots.ReservedBit | src/core/src/collections/slot_map/sparse/slot/mod.rs:39-41 | the reserved flag is the bit just below the occupied flag |
| Slots.MaxVersion | src/core/src/collections/slot_map/sparse/slot/mod.rs:43-45 | `max_version` is everything below the reserved bit; version, reserved and occupied bits together fill `Idx` |
| Slots.FlagTestsAreBitTests | src/core/src/collections/slot_map/sparse/slot/mod.rs:47-69 | `occupied()`, `reserved()` and `version()` read exactly the occupied bit, the reserved bit and the low bits of the packed field |
| Slots.UnpackPack | src/core/src/collections/slot_map/sparse/slot/mod.rs:47-69 | packing two flags and a version within `max_version` and reading them back gives the same flags and version |
| Slots.PackUnpack | src/core/src/collections/slot_map/sparse/slot/mod.rs:47-69 | every packed field within `Idx` is the packing of its own flags and version |
| Slots.NewSlot | src/core/src/collections/slot_map/sparse/slot/mod.rs:71-76 | a new slot is reserved, well formed and has version 1 |
| Slots.NextFree | src/core/src/collections/slot_map/sparse/slot/mod.rs:78-81 | `index()` of a free slot is the free-list link its entry holds |
| Slots.ValueAt | src/core/src/collections/slot_map/sparse/slot/mod.rs:95-103 | `value()` of an occupied slot is the value its entry holds |
| Slots.SetIndex | src/core/src/collections/slot_map/sparse/slot/mod.rs:83-93 | the slot becomes free and links to the index; its version is kept; the old value comes back exactly when it was occupied |
| Slots.SetValue | src/core/src/collections/slot_map/sparse/slot/mod.rs:105-115 | the slot becomes occupied, not reserved, and holds the value; its version is kept; the old value comes back exactly when it was occupied |
| Slots.Take | src/core/src/collections/slot_map/sparse/slot/mod.rs:129-132 | `take` returns the value and leaves a `Reserved` entry behind with the flags untouched |
| Slots.WellFormedSlotDropsCleanly | src/core/src/collections/slot_map/sparse/slot/mod.rs:180-186 | dropping a well-formed slot never reaches the "Expected value" panic of `SlotEntry::drop` |
| Slots.TakenSlotPanicsOnDrop | src/core/src/collections/slot_map/sparse/slot/mod.rs:129-132 | after `take` the slot is no longer well formed, and dropping it panics |
| Slots.TakeReleasing | src/core/src/collections/slot_map/sparse/slot/mod.rs:129-132 | corrected `take`: same value, but the slot is left reserved and well formed with its version, so no drop panics |
| Slots.NextVersion | src/core/src/collections/slot_map/sparse/slot/mod.rs:117-123 | `next_version` as written (raw field compared to `max_version`) stays within `Idx` and is never 0 |
| Slots.IncrementVersion | src/core/src/collections/slot_map/sparse/slot/mod.rs:125-127 | `increment_version` as written keeps the entry |
| Slots.WrapBranchUnreachableWhileFlagged | src/core/src/collections/slot_map/sparse/slot/mod.rs:117-127 | on an occupied or reserved slot the wrap branch is never taken: the raw field just goes up by one |
| Slots.IncrementVersionBelowMax | src/core/src/collections/slot_map/sparse/slot/mod.rs:117-127 | below `max_version` the written and the corrected increment agree |
| Slots.OccupiedSlotAtMaxVersionLosesVersion | src/core/src/collections/slot_map/sparse/slot/mod.rs:117-127 | an occupied slot at `max_version` is incremented into both flags set, and `remove`'s `set_index` then leaves version 0 |
| Slots.ReservedSlotAtMaxVersionLooksOccupied | src/core/src/collections/slot_map/sparse/slot/mod.rs:117-127 | a reserved slot at `max_version` is incremented into an occupied-looking slot with no value |
| Slots.IncrementVersionWrapped | src/core/src/collections/slot_map/sparse/slot/mod.rs:117-127 | corrected increment: flags and entry kept, the version goes up by one or wraps from `max_version` to 1, and always changes |
| Slots.RemovedSlotKeepsValidVersion | src/core/src/collections/slot_map/sparse/mod.rs:360-379 | with the corrected increment, a removed slot is free, well formed, and its version differs from the old one (so old keys die) |
| SlotEntries.ValueOf | src/core/src/collections/slot_map/sparse/slot/slot_entry.rs:36-50 | `value()` is only read from a `Value` entry, and gives what it holds |
| SlotEntries.IndexOf | src/core/src/collections/slot_map/sparse/slot/slot_entry.rs:52-58 | `index()` is only read from an `Index` entry, and gives what it holds |
| SparseSlotMap.Lookup | src/core/src/collections/slot_map/sparse/mod.rs:450-455 | a key finds a value exactly when its slot exists, is occupied and has the key's version |
| SparseSlotMap.LiveAt | src/core/src/collections/slot_map/sparse/iter.rs:37-47 | slot `i` contributes one entry exactly when occupied, keyed by its index and version and found by `Lookup` |
| SparseSlotMap.Entries | src/core/src/collections/slot_map/sparse/iter.rs:37-47 | the entries from a slot onwards, one per occupied slot, each with an index in range |
| SparseSlotMap.EntriesAscending | src/core/src/collections/slot_map/sparse/iter.rs:37-47 | iteration order is ascending slot index |
| SparseSlotMap.EntriesAreLive | src/core/src/collections/slot_map/sparse/mod.rs:450-455 | a pair is iterated exactly when `get` finds that value for that key |
| SparseSlotMap.CountZero | src/core/src/collections/slot_map/sparse/mod.rs:179-181 | no entries exactly when no slot is occupied |
| SparseSlotMap.DrainStep | src/core/src/collections/slot_map/sparse/drain.rs:35-57 | emptying the first occupied slot yields the first entry and leaves the rest in order |
| SparseSlotMap.SlotMap.WithCapacity | src/core/src/collections/slot_map/sparse/mod.rs:68-101 | `new`/`with_capacity`: no slots, free head 0, length 0, no contents |
| SparseSlotMap.SlotMap.Len | src/core/src/collections/slot_map/sparse/mod.rs:161-163 | `len` is the number of live entries |
| SparseSlotMap.SlotMap.IsEmpty | src/core/src/collections/slot_map/sparse/mod.rs:179-181 | empty exactly when no slot is occupied |
| SparseSlotMap.SlotMap.Get | src/core/src/collections/slot_map/sparse/mod.rs:450-477 | `get`/`get_mut`: found exactly for an occupied slot with the key's version, and the value is the slot's |
| SparseSlotMap.SlotMap.ContainsKey | src/core/src/collections/slot_map/sparse/mod.rs:251-255 | `contains_key` is `get(key).is_some()` |
| SparseSlotMap.SlotMap.At | src/core/src/collections/slot_map/sparse/mod.rs:709-711 | `Index` returns the value `get` finds; any other key panics |
| SparseSlotMap.SlotMap.CreateKey | src/core/src/collections/slot_map/sparse/mod.rs:207-224 | reuses the free head (key with that slot's version, head advances along the list) or appends a reserved slot (key version 1); the key is not live and no lookup changes; a full `Idx` panics |
| SparseSlotMap.SlotMap.InsertWithKey | src/core/src/collections/slot_map/sparse/mod.rs:316-332 | a key whose slot is missing or whose version differs gives `Err(value)` with nothing changed; otherwise the slot takes the value, the old value comes back, `len` grows when the slot was not occupied, and no other key is affected |
| SparseSlotMap.SlotMap.Insert | src/core/src/collections/slot_map/sparse/mod.rs:274-278 | the new key was not live, now finds the value, `len` grows by one, and every other key, including an older key for the same slot, finds what it found before |
| SparseSlotMap.SlotMap.Remove | src/core/src/collections/slot_map/sparse/mod.rs:360-379 | corrected version bump (see Findings): returns what `get` found; the key is dead afterwards; a live or reserved slot is versioned up and pushed on the free list; no other index changes |
| SparseSlotMap.SlotMap.SetThroughGetMut | src/core/src/collections/slot_map/sparse/mod.rs:472-477 | writing through `get_mut` changes only the value of a live key |
| SlotMapIter.Iter.Of | src/core/src/collections/slot_map/sparse/mod.rs:503-508 | `iter()` starts with the map's contents remaining |
| SlotMapIter.Iter.Next | src/core/src/collections/slot_map/sparse/iter.rs:37-47 | yields the first remaining entry and drops it from what remains; `None` when nothing remains |
| SlotMapIter.Iter.SizeHint | src/core/src/collections/slot_map/sparse/iter.rs:49-51 | the hint is exact: the number of remaining entries |
| SlotMapIntoIter.IntoIter.Of | src/core/src/collections/slot_map/sparse/mod.rs:734-739 | `into_iter()` starts with the map's contents remaining |
| SlotMapIntoIter.IntoIter.Next | src/core/src/collections/slot_map/sparse/into_iter.rs:34-44 | corrected `take` (see Findings): yields the first remaining entry, moving the value out of its slot |
| SlotMapIntoIter.IntoIter.SizeHint | src/core/src/collections/slot_map/sparse/into_iter.rs:46-48 | the hint is exact |
| SlotMapDrain.Drain.Of | src/core/src/collections/slot_map/sparse/mod.rs:633-639 | `drain()` starts at slot 0 over the map |
| SlotMapDrain.Drain.Next | src/core/src/collections/slot_map/sparse/drain.rs:35-57 | removes and yields the map's first entry; the map's contents lose exactly that entry; no other slot changes |
| SlotMapDrain.Drain.SizeHint | src/core/src/collections/slot_map/sparse/drain.rs:59-61 | the hint is the number of entries still in the map |
| SlotMapDrain.Drain.Finish | src/core/src/collections/slot_map/sparse/drain.rs:87-89 | dropping the drain empties the map; slots that were not occupied are untouched |
| SlotMapDrain.Clear | src/core/src/collections/slot_map/sparse/mod.rs:401-403 | `clear` leaves no entries, `len` 0 and no live key |
| SlotMapDrainFilter.KeptOne | src/core/src/collections/slot_map/sparse/drain_filter.rs:38-60 | an entry the filter rejects stays, with the filter's edits |
| SlotMapDrainFilter.RemovedOne | src/core/src/collections/slot_map/sparse/drain_filter.rs:38-60 | an entry the filter accepts is yielded, with the filter's edits |
| SlotMapDrainFilter.KeptRemovedPartition | src/core/src/collections/slot_map/sparse/drain_filter.rs:38-60 | kept and removed partition the entries: every entry lands on exactly the side the filter chose |
| SlotMapDrainFilter.DrainFilter.Of | src/core/src/collections/slot_map/sparse/mod.rs:665-675 | `drain_filter(f)` starts over the map with nothing yielded |
| SlotMapDrainFilter.DrainFilter.Next | src/core/src/collections/slot_map/sparse/drain_filter.rs:38-60 | each yield is appended to what was removed; at `None` the map holds exactly the kept entries and the yields are exactly the removed ones, in order |
| SlotMapDrainFilter.DrainFilter.SizeHint | src/core/src/collections/slot_map/sparse/drain_filter.rs:62-64 | lower bound 0; the upper bound covers every entry still to be removed |
| SlotMapDrainFilter.DrainFilter.Finish | src/core/src/collections/slot_map/sparse/drain_filter.rs:84-86 | dropping the iterator runs the filter to the end: the map keeps exactly the kept entries |
| SlotMapDrainFilter.Retain | src/core/src/collections/slot_map/sparse/mod.rs:429-434 | `retain(p)` keeps exactly the entries `p` accepts, with its edits, in order |
| StringIds.FromRawParts | src/string/src/string_id.rs:42-44 | the id is stored as a non-zero `u32` one above the index |
| StringIds.Get | src/string/src/string_id.rs:58-60 | `get` gives an index below `u32::MAX` |
| StringIds.GetFromRawParts | src/string/src/string_id.rs:42-60 | `get(from_raw_parts(i)) == i` |
| StringIds.FromRawPartsGet | src/string/src/string_id.rs:42-60 | `from_raw_parts(get(id)) == id` |
| StringIds.FromRawPartsInjective | src/string/src/string_id.rs:42-44 | different indices give different ids |
| StringEntries.Id | src/string/src/entry.rs:51-56 | `id()` unwraps the entry's id |
| StringEntries.AsStr | src/string/src/entry.rs:70-75 | `as_str` is the first `len` bytes of the entry's data |
| StringEntries.IsEmpty | src/string/src/entry.rs:66-68 | empty exactly when `as_str` is empty |
| StringEntries.Entries.constructor | src/string/src/entry.rs:77-81 | `iter()` starts at the given entry, with the whole chain remaining |
| StringEntries.Entries.Next | src/string/src/entry.rs:91-101 | yields the chain's entries in order, following `next` links, then `None` |
| StringAllocator.AlignedOffset | src/string/src/allocator.rs:63-71 | the padding to the next entry alignment: less than the alignment, and 0 when already aligned |
| StringAllocator.AlignedBelow | src/string/src/allocator.rs:63-71 | aligning an address never passes an aligned bound above it |
| StringAllocator.NewEntry | src/string/src/allocator.rs:80-98 | a new entry holds the string, with no id and no next link |
| StringAllocator.Allocator.constructor | src/string/src/allocator.rs:33-39 | `new`: no page, no capacity, no entries |
| StringAllocator.Allocator.Capacity | src/string/src/allocator.rs:57-59 | `capacity` is `end - start` |
| StringAllocator.Allocator.AllocatePage | src/string/src/allocator.rs:41-55 | a fresh page becomes current, with a full page of capacity, and is remembered for freeing |
| StringAllocator.Allocator.Allocate | src/string/src/allocator.rs:80-98 | a new page is taken exactly when the entry does not fit, and is reported as memory and one chunk; the entry lands at a new address holding the string; `start` advances past it, aligned |
| StringAllocator.Allocator.SetId | src/string/src/entry_hash_table.rs:97-99 | setting the entry's id changes that entry's id alone |
| StringAllocator.Allocator.SetNext | src/string/src/entry_hash_table.rs:100-111 | linking the entry's `next` changes that link alone |
| StringAllocator.Allocator.Drop | src/string/src/allocator.rs:102-111 | every page the allocator took is freed, each once |
| StaticRefVectors.PageAndElement | src/libcore/src/string/static_ref_vector.rs:67-73 | page index and element index decompose an index, the element index within a page |
| StaticRefVectors.NeededPages | src/libcore/src/string/static_ref_vector.rs:33-44 | `new` allocates the fewest pages that hold the capacity |
| StaticRefVectors.StaticRefVector.New | src/libcore/src/string/static_ref_vector.rs:33-44 | a vector with no elements and room for the capacity; reports the page table's memory and one chunk |
| StaticRefVectors.StaticRefVector.Len | src/libcore/src/string/static_ref_vector.rs:47-49 | `len` is the number of elements pushed |
| StaticRefVectors.StaticRefVector.IsEmpty | src/libcore/src/string/static_ref_vector.rs:53-55 | empty exactly when nothing was pushed |
| StaticRefVectors.StaticRefVector.UsedPagesExist | src/libcore/src/string/static_ref_vector.rs:58-65 | exactly the first `ceil(len / EPP)` pages exist |
| StaticRefVectors.StaticRefVector.NumPagesOvercounts | src/libcore/src/string/static_ref_vector.rs:58-65 | `num_pages` as written counts one page too many when `len` is a non-zero multiple of the page size, and that page does not exist |
| StaticRefVectors.StaticRefVector.GetUnchecked | src/libcore/src/string/static_ref_vector.rs:126-136 | `get_unchecked` of a pushed id is the element pushed under it |
| StaticRefVectors.StaticRefVector.Lookup | src/libcore/src/string/static_ref_vector.rs:139-145 | `get` finds exactly the pushed ids, each giving its element |
| StaticRefVectors.StaticRefVector.PageOrCreate | src/libcore/src/string/static_ref_vector.rs:85-100 | an existing page is used as is; a missing one is created empty and reported as one page of memory and one chunk |
| StaticRefVectors.StaticRefVector.Push | src/libcore/src/string/static_ref_vector.rs:113-123 | the element is appended under id `len`; a new page is reported exactly when `len` starts a page |
| EntryHashTables.Bucket | src/string/src/entry_hash_table.rs:74 | the bucket is the hash truncated to `u16`, always below the bucket count |
| EntryHashTables.Stored | src/string/src/entry_hash_table.rs:86-95 | the stored text is a prefix of the string, cut to `MAX_STRING_LENGTH` |
| EntryHashTables.PageMemory | src/string/src/allocator.rs:80-98 | the memory an allocation reports is at most one page |
| EntryHashTables.MapMemory | src/libcore/src/string/static_ref_vector.rs:113-123 | the memory a push reports is at most one page of references |
| EntryHashTables.Lookup | src/string/src/entry_hash_table.rs:48-63 | `find`'s result is in the hash's bucket chain and holds the name |
| EntryHashTables.Found | src/string/src/entry_hash_table.rs:48-63 | what `find` returns on the table's state holds the name |
| EntryHashTables.LongNeverFound | src/string/src/entry_hash_table.rs:77-95 | a string longer than `MAX_STRING_LENGTH` is never found, since only its prefix is stored |
| EntryHashTables.FoundRegistered | src/string/src/entry_hash_table.rs:77-84 | a found entry carries an id whose interned string is the name, and the reference vector points back at it |
| EntryHashTables.HitInterns | src/string/src/entry_hash_table.rs:77-84 | a hit returns the found entry's id and changes nothing |
| EntryHashTables.MissInterns | src/string/src/entry_hash_table.rs:86-118 | a miss appends the stored string under the next id and links it at the end of its bucket |
| EntryHashTables.InternsCanonical | src/string/src/entry_hash_table.rs:66-119 | interning a string that fits keeps every string findable and interned once |
| EntryHashTables.UniqueIds | src/string/src/entry_hash_table.rs:66-119 | when every string is interned once, two ids have the same string exactly when they are equal |
| EntryHashTables.EntryHashTable.Empty | src/string/src/entry_hash_table.rs:38-45 | every bucket starts empty |
| EntryHashTables.EntryHashTable.New | src/string/src/entry_hash_table.rs:38-45 | an empty table, reporting one pointer per bucket as memory and one chunk |
| EntryHashTables.EntryHashTable.Find | src/string/src/entry_hash_table.rs:48-63 | walks the bucket's chain and returns the first entry whose text is the name, or `None` |
| EntryHashTables.EntryHashTable.FindOrInsert | src/string/src/entry_hash_table.rs:66-119 | creates an entry exactly when `find` misses; the result interns the string; memory and chunks are reported only on a miss |
| EntryHashTables.EntryHashTable.Insert | src/string/src/entry_hash_table.rs:86-111 | allocates the entry, pushes it under the next id and links it into its bucket |
| EntryHashTables.EntryHashTable.Link | src/string/src/entry_hash_table.rs:100-111 | an empty bucket's head becomes the entry; otherwise the chain's last entry links to it |
| EntryHashTables.Register | src/string/src/entry_hash_table.rs:86-99 | the entry holds the stored text and the id it is pushed under |
| StringSubsystem.WrappingAdd | src/string/src/subsystem.rs:60-83 | `usize` addition that wraps on overflow |
| StringSubsystem.WrapSum | src/string/src/subsystem.rs:60-83 | adding to a wrapped counter gives the wrapped total |
| StringSubsystem.Tracker.constructor | src/string/src/subsystem.rs:45-57 | a tracker starts with the given memory and allocations counted, when tracking is on |
| StringSubsystem.Tracker.Counted | src/string/src/subsystem.rs:60-95 | a counter update is a wrapping add with tracking on and nothing with it off |
| StringSubsystem.Tracker.AddMemory | src/string/src/subsystem.rs:60-64 | adds to used memory only |
| StringSubsystem.Tracker.AddChunks | src/string/src/subsystem.rs:67-71 | adds to used chunks only |
| StringSubsystem.Tracker.AddAllocations | src/string/src/subsystem.rs:74-78 | adds to strings allocated only |
| StringSubsystem.Tracker.AddLen | src/string/src/subsystem.rs:81-83 | adds to the total string length only |
| StringSubsystem.Tracker.Record | src/string/src/subsystem.rs:194-223 | what `create_string_id` records: memory and chunks always, one string and its length only when one was created |
| StringSubsystem.Tracker.AverageLength | src/string/src/subsystem.rs:113-119 | the integer average: 0 with no strings, otherwise the floor of total length over count |
| StringSubsystem.Subsystem.constructor | src/string/src/subsystem.rs:179-192 | `with_hasher`: no strings, room for `max_strings`, and the table and page table counted as used memory and two chunks |
| StringSubsystem.Subsystem.CreateStringIdAsWritten | src/string/src/subsystem.rs:194-223 | `create_string_id` as written: looks up the full string, stores it shortened, and records the use |
| StringSubsystem.Subsystem.CreateStringId | src/string/src/subsystem.rs:194-223 | corrected `create_string_id`: the id's string is the stored text, now findable, and the interning stays canonical |
| StringSubsystem.Subsystem.String | src/string/src/subsystem.rs:278-288 | `string(id)` is the string interned under the id |
| StringSubsystem.Subsystem.Len | src/string/src/subsystem.rs:302-312 | `len(id)` is that string's length, at most `MAX_STRING_LENGTH` |
| StringSubsystem.Subsystem.IsEmpty | src/string/src/subsystem.rs:290-300 | `is_empty(id)` exactly when that string is empty |
| StringSubsystem.Subsystem.StringsAllocated | src/string/src/subsystem.rs:247-249 | with tracking on, the number of interned strings |
| StringSubsystem.Subsystem.AverageStringLength | src/string/src/subsystem.rs:255-257 | with tracking on, the floor of total length over number of strings |
| StringSubsystem.NewStringId | src/string/src/string_id.rs:51-56 | `StringId::new` through the corrected `create_string_id` (see Findings): earlier strings keep their ids; the id's string is the stored text; an earlier string gets this id exactly when it equals the stored text |
| StringSubsystem.InternedIds | src/string/src/subsystem.rs:194-223 | interning only appends, and the returned id is the one earlier string equal to the key, if any |
| StringSubsystem.InternTwice | src/string/src/subsystem.rs:194-223 | interning the same short string twice returns the same id and changes nothing the second time |
| StringSubsystem.LongInternedTwice | src/string/src/subsystem.rs:194-223 | interning the same long string twice as written creates two entries with different ids and the same text |
| StringSubsystem.CanonicalIds | src/string/src/subsystem.rs:194-223 | in a canonical subsystem, ids are equal exactly when their strings are |
| Murmur3Hash.Pad | src/util/src/hash/murmur3.rs:72-95 | a short tail is zero-padded to a four-byte chunk |
| Murmur3Hash.HelloWorldHash | src/util/src/hash/murmur3.rs:33-35 | "Hello World!" hashes to 3691591037 |
| Murmur3Hash.Murmur3.Default | src/util/src/hash/murmur3.rs:37-41 | the default seed is 0 |
| Murmur3Hash.Murmur3.Finish | src/util/src/hash/murmur3.rs:67-69 | `finish` is the seed widened to `u64` |
| Murmur3Hash.Murmur3.WriteChunk | src/util/src/hash/murmur3.rs:51-63 | one little-endian chunk is mixed into the seed |
| Murmur3Hash.Murmur3.Write | src/util/src/hash/murmur3.rs:72-95 | after `write`, the seed is MurmurHash3 of the bytes under the old seed: whole blocks with rounds, the padded tail, then length and finalisation |
| Murmur3Hash.Murmur3.WriteBlock | src/util/src/hash/murmur3.rs:78-83 | a four-byte chunk is mixed in, then rotated by 13, multiplied by 5 and offset by N: the seed becomes the textbook state after one more whole block |
| Murmur3Hash.Murmur3.WriteTail | src/util/src/hash/murmur3.rs:75-77 | a chunk of one to three bytes is zero padded and mixed in with no round step: the seed becomes the textbook state after the tail key |
| Murmur3Hash.DefaultHash | src/util/src/hash/murmur3.rs:67-95 | hashing with a default hasher gives MurmurHash3 with seed 0, widened |
| Murmur3Hash.HashSlice | src/util/src/hash/murmur3.rs:33-35 | `hash_slice` then `finish` on a default hasher is `DefaultHash` |
| NopHash.LeBytes | src/core/src/hash/nop_hasher.rs:54-68 | a `u64` as eight little-endian bytes |
| NopHash.Reversed | src/core/src/hash/nop_hasher.rs:54-68 | the eight bytes in reverse order |
| NopHash.NeBytes | src/core/src/hash/nop_hasher.rs:54-68 | a `u64` as eight bytes in the target's order |
| NopHash.Sext8 | src/core/src/hash/nop_hasher.rs:86-88 | `i8 as u64`: the low byte kept, the sign copied into every higher bit |
| NopHash.Sext16 | src/core/src/hash/nop_hasher.rs:90-92 | `i16 as u64` likewise |
| NopHash.Sext32 | src/core/src/hash/nop_hasher.rs:94-96 | `i32 as u64` likewise |
| NopHash.LeRoundTrip | src/core/src/hash/nop_hasher.rs:54-68 | reading back the little-endian bytes of a value gives the value |
| NopHash.LeBytesRoundTrip | src/core/src/hash/nop_hasher.rs:54-68 | and the bytes of the value read from eight bytes are those bytes |
| NopHash.NeRoundTrip | src/core/src/hash/nop_hasher.rs:54-68 | the same in either byte order |
| NopHash.NeBytesRoundTrip | src/core/src/hash/nop_hasher.rs:54-68 | the same in either byte order |
| NopHash.SwapSwap | src/core/src/hash/nop_hasher.rs:137-148 | swapping the bytes of a `u64` twice gives it back |
| NopHash.NopHasher.Default | src/core/src/hash/nop_hasher.rs:44-47 | the default value is 0 |
| NopHash.NopHasher.Write | src/core/src/hash/nop_hasher.rs:54-68 | eight bytes become the value read in native order, and they are its bytes |
| NopHash.NopHasher.WriteU64 | src/core/src/hash/nop_hasher.rs:54-68 | a `u64` becomes the value and `finish` returns it |
| NopHash.NopHasher.WriteU8 | src/core/src/hash/nop_hasher.rs:70-72 | zero-extends a `u8` |
| NopHash.NopHasher.WriteU16 | src/core/src/hash/nop_hasher.rs:74-76 | zero-extends a `u16` |
| NopHash.NopHasher.WriteU32 | src/core/src/hash/nop_hasher.rs:78-80 | zero-extends a `u32` |
| NopHash.NopHasher.WriteUsize | src/core/src/hash/nop_hasher.rs:82-84 | a `usize` is the value |
| NopHash.NopHasher.WriteI64 | src/core/src/hash/nop_hasher.rs:54-68 | an `i64` is the value bit for bit |
| NopHash.NopHasher.WriteI8 | src/core/src/hash/nop_hasher.rs:86-88 | sign-extends an `i8` |
| NopHash.NopHasher.WriteI16 | src/core/src/hash/nop_hasher.rs:90-92 | sign-extends an `i16` |
| NopHash.NopHasher.WriteI32 | src/core/src/hash/nop_hasher.rs:94-96 | sign-extends an `i32` |
| NopHash.NopHasher.WriteIsize | src/core/src/hash/nop_hasher.rs:98-100 | an `isize` is the value bit for bit |
| NopHash.HashTenUnsigned | src/core/src/hash/nop_hasher.rs:117-122 | 10 of every unsigned width hashes to 10 |
| NopHash.HashTenSigned | src/core/src/hash/nop_hasher.rs:124-128 | 10 of every signed width hashes to 10 |
| NopHash.HashMinusTen | src/core/src/hash/nop_hasher.rs:130-134 | -10 of every signed width hashes to `-10 as u64` |
| NopHash.HashArrays | src/core/src/hash/nop_hasher.rs:137-148 | the little- and big-endian arrays hash to `0x1234_5678_9ABC_DEF0` in `to_le` and `to_be` form |
| Orderings.Reverse | src/string/src/name.rs:683-706 | reversing keeps `Equal` and swaps `Less` and `Greater` |
| Orderings.CompareNat | src/string/src/name.rs:637-648 | the ordering of two numbers |
| Orderings.CompareOption | src/string/src/name.rs:637-648 | `None` before any number, then numbers in order |
| Orderings.CompareBytesEqual | src/libcore/src/string/text.rs:628-636 | byte-wise comparison is `Equal` exactly for equal strings |
| Orderings.CompareBytesReverse | src/libcore/src/string/text.rs:628-636 | swapping the operands reverses the comparison |
| Orderings.CompareBytesTransitive | src/libcore/src/string/text.rs:628-636 | byte-wise `Less` is transitive |
| Orderings.PrefixLess | src/libcore/src/string/text.rs:628-636 | a proper prefix comes first |
| Orderings.ComparePair | src/string/src/name.rs:637-648 | comparing `(string_part, number)` pairs is `Equal` exactly for equal pairs |
| Orderings.ComparePairReverse | src/string/src/name.rs:637-648 | swapping the pairs reverses the comparison |
| Names.DigitValue | src/string/src/name.rs:296-313 | an ASCII digit's value |
| Names.DigitOf | src/string/src/name.rs:580-589 | the digit written for a value; zero only for 0 |
| Names.Decimal | src/string/src/name.rs:580-589 | a number printed in decimal: digits only, leading zero only for 0 |
| Names.ValueOfDecimal | src/string/src/name.rs:296-313 | parsing a printed number gives the number back |
| Names.DecimalOfValue | src/string/src/name.rs:296-313 | printing the value of digits without a leading zero gives the digits back |
| Names.FromStr | src/string/src/name.rs:308-311 | `u32::from_str` of digits succeeds exactly when the value fits `u32` |
| Names.Split | src/string/src/name.rs:296-313 | `split_string`: prefix and printed number give back the string; no number leaves the string whole |
| Names.SplitString | src/string/src/name.rs:296-313 | the backward loop over the bytes computes `Split` |
| Names.SplitJoin | src/string/src/name.rs:296-313 | a prefix that does not end in a digit run, followed by a printed non-zero number, splits back into them |
| Names.SplitInjective | src/string/src/name.rs:296-313 | different strings split differently |
| Names.AsStr | src/string/src/name.rs:451-457 | `as_str` is what `Display` writes: the string part, then the number |
| Names.Len | src/string/src/name.rs:502-509 | `len` is the length of what `Display` writes |
| Names.IsEmpty | src/string/src/name.rs:478-484 | empty exactly when `Display` writes nothing, and when `len` is 0 |
| Names.HashKey | src/string/src/name.rs:520-525 | `Hash` feeds the id, then the number |
| Names.Compare | src/string/src/name.rs:620-650 | `cmp` is `Equal` exactly when `==` holds |
| Names.EqualIffSameKey | src/string/src/name.rs:602-616 | with each string interned once, `==` holds exactly when ids and numbers agree, so the fast path and `Hash` agree with it |
| Names.CompareReverse | src/string/src/name.rs:620-650 | swapping the names reverses `cmp` |
| Names.StrEq | src/string/src/name.rs:652-715 | `str == name` is `name == str` |
| Names.CompareStr | src/string/src/name.rs:652-715 | comparing a name with a string is `Equal` exactly when they are `==` |
| Names.StrCompare | src/string/src/name.rs:652-715 | comparing a string with a name reverses the other order |
| Names.EqStrIffDisplay | src/string/src/name.rs:652-715 | for a name as `new` builds it, `name == s` exactly when the name displays as `s` |
| Names.MadeFromFacts | src/string/src/name.rs:84-91 | names made from two strings are equal exactly when the strings are, and display as them |
| Names.NewName | src/string/src/name.rs:84-91 | `Name::new` through the corrected `create_string_id` (see Findings) interns the prefix and keeps the number; short strings display back as themselves; names with that string part share the id |
| Names.SharedIds | src/string/src/name.rs:84-91 | names whose string part is the interned text all carry its id |
| Texts.Len | src/libcore/src/string/text.rs:452-454 | `len` is the string's length |
| Texts.IsEmpty | src/libcore/src/string/text.rs:430-432 | empty exactly when the string is |
| Texts.HashKey | src/libcore/src/string/text.rs:466-468 | `Hash` feeds the id |
| Texts.Compare | src/libcore/src/string/text.rs:614-637 | `cmp` is `Equal` exactly when `==` holds, and swapping the operands reverses it |
| Texts.CompareTransitive | src/libcore/src/string/text.rs:614-637 | `Less` is transitive |
| Texts.EqIffSameId | src/libcore/src/string/text.rs:599-610 | with each string interned once, `==` holds exactly when the ids agree |
| Texts.CompareStr | src/libcore/src/string/text.rs:639-674 | comparing a text with a string is `Equal` exactly when they are `==` |
| Texts.StrCompare | src/libcore/src/string/text.rs:639-674 | comparing a string with a text reverses the other order |
| Texts.ToName | src/libcore/src/string/text.rs:478-483 | `Name::from(text)` keeps the id and has no number |
| Texts.ToNameFacts | src/libcore/src/string/text.rs:478-483 | that name displays as the text, is well formed, and is equal to another converted name exactly when the texts are |
| Texts.NewText | src/libcore/src/string/text.rs:99-104 | `Text::new` through the corrected `create_string_id` (see Findings) interns the string; a short one reads back as itself; an earlier text is equal exactly when it is the same text |
| Texts.SameTexts | src/libcore/src/string/text.rs:99-104 | texts with the interned string are this text |
| Errors.Message | src/error/src/lib.rs:149-159 | a string payload displays as itself and has no source |
| Errors.New | src/error/src/lib.rs:149-159 | `new` builds the custom representation |
| Errors.NewChained | src/error/src/lib.rs:194-206 | `chained` builds the chained representation |
| Errors.FromKind | src/error/src/lib.rs:401-405 | `From<Kind>` builds the simple representation |
| Errors.GetRef | src/error/src/repr.rs:31-37 | `get_ref` is `None` exactly for a simple error |
| Errors.IntoInner | src/error/src/repr.rs:47-53 | `into_inner` gives what `get_ref` shows |
| Errors.UpdateInner | src/error/src/repr.rs:39-45 | editing through `get_mut` keeps the kind and any source and changes only the payload |
| Errors.Source | src/error/src/repr.rs:94-100 | a simple error has no source |
| Errors.Boxed | src/error/src/lib.rs:384-396 | an error boxed as a payload displays as the error and keeps its source |
| Errors.NewFacts | src/error/src/lib.rs:149-159 | a custom error has the kind, the payload as inner error, the payload's source, and displays as the payload |
| Errors.ChainedFacts | src/error/src/lib.rs:194-206 | a chained error has the kind, the payload, the source as source, and displays as the payload |
| Errors.FromKindFacts | src/error/src/lib.rs:401-405 | a simple error has the kind, no inner error, no source, and displays as the kind |
| Errors.WrapKeepsNoSource | src/error/src/repr.rs:81-100 | wrapping an error without a source with `new` keeps no source and displays the inner error |
| Errors.ChainShowsSource | src/error/src/repr.rs:81-100 | a chained error displays the message and shows the inner error as its source |
| ErrorExt.OkOrError | src/error/src/option_ext.rs:84-89 | `Some(v)` gives `Ok(v)`; `None` gives an error of the kind with the context |
| ErrorExt.OkOrErrorWith | src/error/src/option_ext.rs:91-97 | the same with the context computed |
| ErrorExt.OkOrErrorWithLazy | src/error/src/option_ext.rs:91-97 | on `Some` the context closure does not matter |
| ErrorExt.Context | src/error/src/result_ext.rs:151-153 | `Ok` passes; an error becomes the payload of a custom error of the kind, keeping its source |
| ErrorExt.Chain | src/error/src/result_ext.rs:155-160 | `Ok` passes; an error becomes the source of a chained error with the message |
| ErrorExt.ChainWith | src/error/src/result_ext.rs:162-168 | the same with the message computed |
| ErrorExt.ChainWithLazy | src/error/src/result_ext.rs:162-168 | on `Ok` the message closure does not matter |
| ErrorExt.ChainDisplaysMessage | src/error/src/result_ext.rs:155-160 | a chained error displays the message, not the cause |
| ResourceIds.FromName | src/libresource/src/resource_id.rs:17-22 | a named resource has no location and keeps the name |
| ResourceIds.FromLocation | src/libresource/src/resource_id.rs:24-29 | an asset gives back its location and name |
| ResourceIds.LocationOf | src/libresource/src/resource_id.rs:31-34 | a location exactly when there is a namespace |
| ResourceIds.FromPartsInverse | src/libresource/src/resource_id.rs:17-38 | every id is rebuilt from its name or location |
| ResourceIds.FromInjective | src/libresource/src/resource_id.rs:17-29 | both constructors are injective and never coincide |
| Namespaces.MapAll | src/libresource/src/assets/namespace.rs:209-230 | every listed name maps to the index; other paths keep theirs |
| Namespaces.Without | src/libresource/src/assets/namespace.rs:262-270 | paths into the index are dropped; all others are kept |
| Namespaces.FirstWritable | src/libresource/src/assets/namespace.rs:455-460 | the first file system, in slot order, that is not read-only |
| Namespaces.FirstWritableLive | src/libresource/src/assets/namespace.rs:455-460 | that file system is live under its key |
| Namespaces.Namespace.New | src/libresource/src/assets/namespace.rs:47-52 | no paths and no file systems |
| Namespaces.Namespace.WithCapacity | src/libresource/src/assets/namespace.rs:89-94 | the same; capacity is not observable |
| Namespaces.Namespace.VirtualFileSystems | src/libresource/src/assets/namespace.rs:122-124 | the number of file systems |
| Namespaces.Namespace.Files | src/libresource/src/assets/namespace.rs:150-152 | the number of paths |
| Namespaces.Namespace.EmptyIffNoPaths | src/libresource/src/assets/namespace.rs:180-182 | `is_empty` exactly when there are no paths |
| Namespaces.Namespace.InsertPaths | src/libresource/src/assets/namespace.rs:209-230 | the loop maps every listed name to the index |
| Namespaces.Namespace.AddVirtualFileSystem | src/libresource/src/assets/namespace.rs:209-230 | a failing listing returns its error; otherwise a fresh key holds the file system and its names map to it |
| Namespaces.Namespace.RemoveVirtualFileSystem | src/libresource/src/assets/namespace.rs:262-270 | returns the file system under the key, and drops it and its paths; every other key, including a live key in the same slot when the given one is stale, finds what it found before |
| Namespaces.Namespace.Clear | src/libresource/src/assets/namespace.rs:301-304 | no paths and no file systems |
| Namespaces.Namespace.Reload | src/libresource/src/assets/namespace.rs:332-351 | an unknown index fails with `InvalidIndex`; otherwise the index's paths are dropped and then listed again, or its listing error is returned |
| Namespaces.Namespace.Target | src/libresource/src/assets/namespace.rs:448-460 | a given index names a live, writable file system or nothing; no index takes the first writable one |
| Namespaces.Namespace.Create | src/libresource/src/assets/namespace.rs:443-464 | `None` without a writable target; otherwise the target's `create`, with the name now mapped to it |
| Namespaces.Namespace.CreateNew | src/libresource/src/assets/namespace.rs:499-520 | as `create`, with `create_new` |
| Namespaces.Namespace.Provider | src/libresource/src/assets/namespace.rs:353-370 | a mapped name's file system |
| Namespaces.Namespace.Exists | src/libresource/src/assets/namespace.rs:548-553 | a name exists when it is mapped and its file system has it |
| Namespaces.Namespace.Modified | src/libresource/src/assets/namespace.rs:581-584 | `None` for an unmapped name, otherwise the provider's `modified` |
| Namespaces.Namespace.Open | src/libresource/src/assets/namespace.rs:617-620 | `None` for an unmapped name, otherwise the provider's `open` |
| Namespaces.Namespace.Remove | src/libresource/src/assets/namespace.rs:655-667 | `None` for an unmapped or read-only name; otherwise the provider's `remove`, and the path goes away exactly on success |
| Catalogs.Catalog.New | src/resource/src/assets/catalog.rs:45-47 | no namespaces |
| Catalogs.Catalog.WithCapacity | src/resource/src/assets/catalog.rs:73-77 | the same; capacity is not observable |
| Catalogs.Catalog.Len | src/resource/src/assets/catalog.rs:95-97 | the number of namespaces |
| Catalogs.Catalog.IsEmpty | src/resource/src/assets/catalog.rs:115-117 | `len() == 0`, and then no id reaches a namespace |
| Catalogs.Catalog.GetNamespace | src/resource/src/assets/catalog.rs:158-187 | a namespace exactly for a live id |
| Catalogs.Catalog.At | src/resource/src/assets/catalog.rs:470-476 | `Index` is the namespace `get_namespace` finds |
| Catalogs.Catalog.AddNamespace | src/resource/src/assets/catalog.rs:137-139 | the new id was not live and now reaches the namespace; one more namespace; every other id reaches what it reached before |
| Catalogs.Catalog.RemoveNamespace | src/resource/src/assets/catalog.rs:205-210 | returns the id's namespace, after which the id is dead; every other id, including a live id in the same slot when the given one is stale, reaches what it reached before |
| Catalogs.Catalog.Create | src/resource/src/assets/catalog.rs:286-295 | `None` for a dead namespace id; otherwise the namespace's `create` |
| Catalogs.Catalog.CreateNew | src/resource/src/assets/catalog.rs:323-332 | `None` for a dead namespace id; otherwise the namespace's `create_new` |
| Catalogs.Catalog.Exists | src/resource/src/assets/catalog.rs:359-362 | false for a dead namespace id; otherwise the namespace's `exists` |
| Catalogs.Catalog.Modified | src/resource/src/assets/catalog.rs:389-392 | `None` for a dead namespace id; otherwise the namespace's `modified` |
| Catalogs.Catalog.Open | src/resource/src/assets/catalog.rs:423-426 | `None` for a dead namespace id; otherwise the namespace's `open` |
| Catalogs.Catalog.Remove | src/resource/src/assets/catalog.rs:458-461 | `None` for a dead namespace id; otherwise the namespace's `remove`, after which the name's path is gone on success and kept otherwise |
| Registry.NewResource | src/resource/src/registry/closures.rs:30-37 | a resource loader whose failure is chained under "could not load asset" |
| Registry.NewAsset | src/resource/src/registry/closures.rs:39-49 | an asset loader whose failure is chained the same way |
| Registry.Loader.New | src/resource/src/registry/mod.rs:49-73 | no catalog, no declarations, and the two default loaders with errors wrapped as `Loading` |
| Registry.Loader.SetCatalog | src/resource/src/registry/mod.rs:75-83 | the new catalog replaces the old, which is returned |
| Registry.Loader.DeclareResource | src/resource/src/registry/mod.rs:89-93 | the name's id is declared without a loader |
| Registry.Loader.DeclareResourceWithLoader | src/resource/src/registry/mod.rs:95-110 | the name's id is declared with its loader |
| Registry.Loader.DeclareAsset | src/resource/src/registry/mod.rs:112-116 | the location's id is declared without a loader |
| Registry.Loader.DeclareAssetWithLoader | src/resource/src/registry/mod.rs:118-136 | the location's id is declared with its loader |
| Registry.Loader.Clear | src/resource/src/registry/mod.rs:202-204 | no declarations; the catalog is kept |
| Registry.Loader.LoaderFor | src/resource/src/registry/mod.rs:138-162 | a declared id's own loader, else the default that fits it |
| Registry.Loader.LoaderCatalog | src/resource/src/registry/mod.rs:138-162 | "asset was not declared" first, then "no catalog set", otherwise the loader and the catalog |
| Registry.Loader.Load | src/resource/src/registry/mod.rs:164-188 | `load_impl`: each error of `loader_catalog`, of a missing location and of a failing open, otherwise the loader's result |
| Registry.MapError | src/resource/src/registry/mod.rs:164-183 | `?` converts an asset error into a boxed payload and keeps a success |

## Left out

- Concurrency: atomics, the allocator's `Mutex` and `Send`/`Sync`. Every operation is modelled as running alone, and the second `find` in `find_or_insert` (after taking the lock) is the same as the first.
- Raw memory: entries live in a map from addresses to entries, and pages are addresses. `StringSubsystem.Subsystem.NextPage` stands in for the system allocator (the page just above the last), and `StringAllocator.Allocator.Drop` returns the pages it would free.
- Logging (`slog`), `Debug` formatting, `used_memory`, `allocations` and `logger` getters of the subsystem, and the `Drop` of the subsystem and vector.
- The hasher of the subsystem is a function parameter. `BuildHasher` and `RandomState` are not modelled.
- UTF-8 and UTF-16 decoding (`from_utf8`, `from_utf16` and their lossy and unchecked forms) for `Name` and `Text`: strings are byte sequences, and the cut at `MAX_STRING_LENGTH` is required to fall on a character boundary, as the source's slicing demands.
- Conversions of `Name`/`Text` into `String`, `Cow`, `Box<str>`, `Rc<str>` and `Arc<str>`, `Extend`, `Deref`, `Index`, `AsRef` and `Borrow`: they only copy the string that `AsStr` gives.
- The fast path of `==` and `cmp` on `Name` and `Text`, taken when both operands are the same handle, is not modelled separately; `Names.EqualIffSameKey` and `Texts.EqIffSameId` show it agrees with the string comparison.
- Slot map `capacity`, `reserve`, `keys`, `values`, `values_mut`, `iter_mut` and `Default`: projections and allocation hints of what is modelled.
- `Clone` for slots.
- The virtual file systems are values whose `create`, `create_new`, `open`, `modified`, `remove` and `present` are functions of the name. A file system's own state after a call is not modelled.
- The index formatted into the message of `Namespace::reload`'s `InvalidIndex` error: only the kind is stated.
- Namespaces.Namespace.AddVirtualFileSystem: when the listing fails, the key `create_key` handed out is never released, as in the source; the contract states only that no lookup changes, not where the free list is left.
- The `iter` of `Namespace` and `Catalog`, `iter_namespaces`, and their `Debug` output.
- `load_lazy` of the registry, which is commented out in the source, and the `catalog` getter of `Loader`. Closure laziness is shown only by `ErrorExt.OkOrErrorWithLazy` and `ErrorExt.ChainWithLazy`.
- SparseSlotMap.SlotMap.InsertWithKey: inserting into a free slot with a matching version requires that `freeHead` already equals the link that slot holds, which is the case right after `create_key` has taken that slot off the free list. Only then does the source's `free_head = slot.index()` keep the free list intact. `create_key` on a recycled slot does not mark it reserved, so a second `create_key` before the insert breaks that assumption; the model does not follow that interleaving.
- SparseSlotMap.SlotMap.CreateKey: requires room in `Idx`, the source's "number of elements overflows `Idx`" panic; `SparseSlotMap.SlotMap.Insert` and `Catalogs.Catalog.AddNamespace` and `Namespaces.Namespace.AddVirtualFileSystem` inherit it.
- StringSubsystem.Subsystem.CreateStringId: requires room in the reference vector when the string is new, as the `assert!` in `StaticRefVector::page` demands, and fewer than `u32::MAX` strings; the source's `index as u32` would truncate past that, which the model does not follow.
- Remove (`SparseSlotMap.SlotMap.Remove`): bumps the version with the corrected `Slots.IncrementVersionWrapped`. In the source, removing a key whose occupied slot is at `max_version` leaves the free slot at version 0 (`Slots.OccupiedSlotAtMaxVersionLosesVersion`), and a later `create_key` on that slot passes version 0 to `Key::new`, whose `debug_assert!` rejects it. The model wraps to 1 instead, so the slot map's non-zero versions hold. `SlotMapDrain.Drain.Next`, `SlotMapDrainFilter.DrainFilter.Next`, `Namespaces.Namespace.RemoveVirtualFileSystem` and `Catalogs.Catalog.RemoveNamespace` inherit this.
- Next (`SlotMapIntoIter.IntoIter.Next`): takes the value with the corrected `Slots.TakeReleasing` and yields the entry. In the source the slot taken by `take` is dropped while still flagged occupied, so for a value type with drop glue the first `next()` that finds an entry panics with "Expected value" (`Slots.TakenSlotPanicsOnDrop`). The model does not capture that panic.
- NewStringId (`StringSubsystem.NewStringId`): interns through the corrected `StringSubsystem.Subsystem.CreateStringId` and keeps the table canonical. In the source a string longer than `MAX_STRING_LENGTH` (65,522 bytes) gets a new id on every call (`StringSubsystem.LongInternedTwice`), so the "an earlier equal string gets this id" clause holds there only for strings up to that length.
- NewName (`Names.NewName`): as `NewStringId`, for the string part. In the source a string part longer than `MAX_STRING_LENGTH` gives each `Name::new` a new id, so names with that string part do not share an id there.
- NewText (`Texts.NewText`): as `NewStringId`. In the source a text longer than `MAX_STRING_LENGTH` is never found again, so a later `Text::new` of the same string gives a different id, and "an earlier text is equal exactly when it is the same text" holds there only for texts up to that length.
- Of (`SlotMapDrainFilter.DrainFilter.Of`): the filter is a pure function `(Key, T) -> (bool, T)` that returns its decision and the edited value. The source takes an `FnMut`, whose own state may change from call to call (say, "remove the first three"); such a filter cannot be expressed here.
- Retain (`SlotMapDrainFilter.Retain`): the same pure-function filter as `DrainFilter.Of`, so a predicate whose decisions depend on its earlier calls cannot be expressed.
- `Idx` widths other than `u16` and `u32` (such as `u8` or `u64`): the slot map is generic over any unsigned `Idx`, but the engine uses only these two.

## Findings

| source | as written | input that shows it | evidently intended | confidence | as-written member | corrected member |
|---|---|---|---|---|---|---|
| src/core/src/collections/slot_map/sparse/slot/mod.rs:117-127 | `next_version` compares the whole packed field, flags included, with `max_version`; for an occupied or reserved slot the wrap never triggers and the version overflows into the flag bits | remove a key whose slot is occupied at version `max_version` (16383 for `u16`): `increment_version` sets both flags, and `set_index` clears them, leaving version 0 | wrap the version alone from `max_version` to 1, keeping the flags | high (not executed) | Slots.OccupiedSlotAtMaxVersionLosesVersion | Slots.IncrementVersionWrapped |
| src/string/src/entry_hash_table.rs:77-95 | a string longer than `MAX_STRING_LENGTH` is looked up by its full text but stored cut to `MAX_STRING_LENGTH`, so the lookup never matches | call `create_string_id` twice with the same 65,523-byte string: two entries with the same text and different ids | look up the cut text, so the string is interned once | high (not executed) | StringSubsystem.LongInternedTwice | StringSubsystem.Subsystem.CreateStringId |
| src/libcore/src/string/static_ref_vector.rs:58-65 | `num_pages` is `len / EPP + 1`, one too many when `len` is a non-zero multiple of the page size | `len == 8192`: `num_pages` is 2, but only page 0 exists | `ceil(len / EPP)` | medium (not executed) | StaticRefVectors.StaticRefVector.NumPagesOvercounts | StaticRefVectors.StaticRefVector.UsedPagesExist |
| src/core/src/collections/slot_map/sparse/slot/mod.rs:129-132 | `take` leaves a `Reserved` entry but keeps the occupied flag; `IntoIter::next` then drops that slot, and `SlotEntry::drop` panics with "Expected value" | `into_iter()` on a map holding one `String`, then `next()`: the taken slot goes out of scope still flagged occupied | leave the slot reserved without the occupied flag | medium (not executed) | Slots.TakenSlotPanicsOnDrop | Slots.TakeReleasing |
