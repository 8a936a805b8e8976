/**
 * The string subsystem: interns strings in an `EntryHashTable`, keeps the
 * interned entries in a `StaticRefVector` indexed by `StringId`, takes the
 * entries from a bump `Allocator`, and counts what it allocates in a
 * `Tracker`.
 */
module StringSubsystem {
  import opened Wrappers
  import opened Bytes
  import opened StringIds
  import opened StringEntries
  import opened StringAllocator
  import opened StaticRefVectors
  import opened EntryHashTables
  import opened Murmur3Hash

  /** `usize` on the 64-bit target: `fetch_add` wraps around at 2^64. */
  const UsizeModulus: nat := 0x1_0000_0000_0000_0000

  /** `fetch_add(b)` on a counter holding `a`. */
  function WrappingAdd(a: nat, b: nat): (r: nat)
    requires a < UsizeModulus && b < UsizeModulus
    ensures r < UsizeModulus
    ensures a + b < UsizeModulus ==> r == a + b
    ensures a + b >= UsizeModulus ==> r == a + b - UsizeModulus
  {
    (a + b) % UsizeModulus
  }

  /** Adding to a wrapped total is wrapping the sum. */
  lemma WrapSum(total: nat, n: nat)
    requires n < UsizeModulus
    ensures WrappingAdd(total % UsizeModulus, n) == (total + n) % UsizeModulus
  {
  }

  /** The counters of the `track-strings` feature. */
  class Tracker {
    /** Whether `track-strings` is compiled in; without it the tracker is empty and every update a no-op. */
    const enabled: bool
    /** `used_memory`. */
    var usedMemory: nat
    /** `used_chunks`. */
    var usedChunks: nat
    /** `string_len`: the total length of the strings that were allocated. */
    var stringLen: nat
    /** `strings_allocated`. */
    var stringsAllocated: nat
    /** The number of strings recorded, whether or not tracking is compiled in. */
    ghost var strings: nat
    /** Their total length, unwrapped. */
    ghost var total: nat

    /**
     * Every counter is a `usize`; when tracking, `strings_allocated` and
     * `string_len` count the strings recorded and their total length
     * wrapped to a `usize`, and otherwise every counter stays at zero.
     */
    ghost predicate Valid()
      reads this
    {
      usedMemory < UsizeModulus && usedChunks < UsizeModulus
      && stringLen < UsizeModulus && stringsAllocated < UsizeModulus
      && (enabled ==> stringsAllocated == strings && stringLen == total % UsizeModulus)
      && (!enabled ==> usedMemory == 0 && usedChunks == 0 && stringLen == 0 && stringsAllocated == 0)
    }

    /** `Tracker::new(memory, allocations)`: the memory and chunks so far, no string yet. */
    constructor (enabled: bool, memory: nat, allocations: nat)
      requires memory < UsizeModulus && allocations < UsizeModulus
      ensures Valid() && this.enabled == enabled && stringLen == 0 && stringsAllocated == 0
      ensures usedMemory == Counted(0, memory) && usedChunks == Counted(0, allocations)
      ensures strings == 0 && total == 0
    {
      this.enabled := enabled;
      usedMemory := if enabled then memory else 0;
      usedChunks := if enabled then allocations else 0;
      stringLen := 0;
      stringsAllocated := 0;
      strings := 0;
      total := 0;
    }

    /** A counter holding `counter` after `add_*(n)`: wrapped when tracking, unchanged otherwise. */
    function Counted(counter: nat, n: nat): (r: nat)
      requires counter < UsizeModulus && n < UsizeModulus
      ensures r < UsizeModulus && (!enabled ==> r == counter)
    {
      if enabled then WrappingAdd(counter, n) else counter
    }

    /** The counters fit in a `usize`. */
    ghost predicate Bounded()
      reads this
    {
      usedMemory < UsizeModulus && usedChunks < UsizeModulus
      && stringLen < UsizeModulus && stringsAllocated < UsizeModulus
    }

    /** `add_memory`. */
    method AddMemory(memory: nat)
      requires Bounded() && memory < UsizeModulus
      modifies this
      ensures Bounded() && usedMemory == Counted(old(usedMemory), memory)
      ensures usedChunks == old(usedChunks) && stringLen == old(stringLen) && stringsAllocated == old(stringsAllocated)
      ensures strings == old(strings) && total == old(total)
    {
      if enabled {
        usedMemory := WrappingAdd(usedMemory, memory);
      }
    }

    /** `add_chunks`. */
    method AddChunks(chunks: nat)
      requires Bounded() && chunks < UsizeModulus
      modifies this
      ensures Bounded() && usedChunks == Counted(old(usedChunks), chunks)
      ensures usedMemory == old(usedMemory) && stringLen == old(stringLen) && stringsAllocated == old(stringsAllocated)
      ensures strings == old(strings) && total == old(total)
    {
      if enabled {
        usedChunks := WrappingAdd(usedChunks, chunks);
      }
    }

    /** `add_allocations`. */
    method AddAllocations(allocations: nat)
      requires Bounded() && allocations < UsizeModulus
      modifies this
      ensures Bounded() && stringsAllocated == Counted(old(stringsAllocated), allocations)
      ensures usedMemory == old(usedMemory) && usedChunks == old(usedChunks) && stringLen == old(stringLen)
      ensures strings == old(strings) && total == old(total)
    {
      if enabled {
        stringsAllocated := WrappingAdd(stringsAllocated, allocations);
      }
    }

    /** `add_len`. */
    method AddLen(len: nat)
      requires Bounded() && len < UsizeModulus
      modifies this
      ensures Bounded() && stringLen == Counted(old(stringLen), len)
      ensures usedMemory == old(usedMemory) && usedChunks == old(usedChunks) && stringsAllocated == old(stringsAllocated)
      ensures strings == old(strings) && total == old(total)
    {
      if enabled {
        stringLen := WrappingAdd(stringLen, len);
      }
    }

    /**
     * What `create_string_id` records after `find_or_insert`: the memory
     * and chunks reported and, when an entry was created, one string of
     * length `len`.
     */
    method Record(memory: nat, chunks: nat, created: bool, len: nat)
      requires Valid() && memory < UsizeModulus && chunks < UsizeModulus && len < UsizeModulus
      requires created ==> strings < U32Max
      modifies this
      ensures Valid()
      ensures usedMemory == Counted(old(usedMemory), memory) && usedChunks == Counted(old(usedChunks), chunks)
      ensures stringsAllocated == if created then Counted(old(stringsAllocated), 1) else old(stringsAllocated)
      ensures stringLen == if created then Counted(old(stringLen), len) else old(stringLen)
      ensures strings == old(strings) + (if created then 1 else 0) && total == old(total) + (if created then len else 0)
    {
      AddMemory(memory);
      AddChunks(chunks);
      if created {
        AddAllocations(1);
        AddLen(len);
        WrapSum(total, len);
        strings := strings + 1;
        total := total + len;
      }
    }

    /** `average_length`: 0 before any allocation, otherwise the total length divided by the allocations, rounded down. */
    function AverageLength(): (r: nat)
      reads this
      requires enabled
      ensures stringsAllocated == 0 ==> r == 0
      ensures stringsAllocated > 0 ==> r * stringsAllocated <= stringLen < (r + 1) * stringsAllocated
    {
      if stringsAllocated == 0 then 0 else stringLen / stringsAllocated
    }
  }

  /**
   * The string subsystem. `Subsystem::new` is the constructor with the
   * default hasher, `DefaultHash`; `with_hasher` takes any `hasher`.
   */
  class Subsystem {
    /** `entry_hash_table`. */
    const table: EntryHashTable
    /** `entry_reference_map`. */
    const refs: StaticRefVector<nat>
    /** `allocator`. */
    const alloc: Allocator
    /** `tracker`. */
    const tracker: Tracker
    /** `build_hasher`: the hash `hash_slice` and `finish` compute for a string's bytes. */
    const hasher: Bytes -> bv64

    /** The interned values behind the three parts. */
    ghost function View(): Interned
      reads table, refs, alloc
    {
      table.View(refs, alloc)
    }

    /**
     * The table, the entries and the reference map agree, and when
     * tracking, the counters count the interned strings and the length of
     * the strings they were created from.
     */
    ghost predicate Valid()
      reads this, table, refs, alloc, tracker
    {
      Consistent(table, refs, alloc) && tracker.Valid()
      && tracker.strings == |refs.elements|
    }

    /**
     * Every string is chained in the bucket of the hash of its stored
     * form, and no string is interned twice: what interning the stored
     * form keeps.
     */
    ghost predicate Canonical()
      reads table, refs, alloc
    {
      Indexed(View(), hasher) && Unique(View())
    }

    /**
     * `with_hasher(max_strings, hasher)`: an empty table, a reference map
     * with room for `max_strings` ids and an allocator with no page; the
     * tracker starts from the memory and chunks the table and the map
     * reported.
     */
    constructor (maxStrings: nat, hasher: Bytes -> bv64, tracking: bool)
      requires maxStrings < UsizeModulus
      ensures Valid() && Canonical() && tracker.total == 0 && Strings(View()) == []
      ensures this.hasher == hasher && tracker.enabled == tracking && refs.Capacity() >= maxStrings
      ensures tracking ==>
        && tracker.usedMemory == PointerSize * NumBuckets + PageSlotSize * NeededPages(maxStrings)
        && tracker.usedChunks == 2
    {
      var t, tableMemory, tableChunks := EntryHashTable.New();
      var r, mapMemory, mapChunks := StaticRefVector<nat>.New(maxStrings);
      table := t;
      refs := r;
      alloc := new Allocator();
      tracker := new Tracker(tracking, tableMemory + mapMemory, tableChunks + mapChunks);
      this.hasher := hasher;
    }

    /** Where the system allocator puts the next page: just above the last one. */
    function NextPage(): (r: nat)
      reads alloc
      requires alloc.Valid()
      ensures 0 < r && r % EntryAlign == 0 && r >= alloc.end
    {
      if alloc.end == 0 then PageSize else alloc.end
    }

    /**
     * `create_string_id(s)` as written: hashes all of `s` and calls
     * `find_or_insert` with that hash; the tracker adds the memory and
     * chunks reported and, when an entry was created, one allocation and
     * the length of `s`. A string longer than `MAX_STRING_LENGTH` is
     * stored cut short but looked up whole.
     */
    method CreateStringIdAsWritten(s: Bytes) returns (id: StringId)
      requires Valid() && |s| < UsizeModulus
      requires |s| > MaxStringLength ==> CharBoundary(s, MaxStringLength)
      requires Found(View(), s, hasher(s)).None? ==> PageIndex(refs.len) < |refs.pages| && refs.len < U32Max
      modifies table, refs, alloc, tracker
      ensures Valid()
      ensures Interns(old(View()), View(), s, hasher(s), id, old(Found(View(), s, hasher(s))).None?)
      ensures tracker.total == old(tracker.total) + if old(Found(View(), s, hasher(s))).None? then |s| else 0
      ensures tracker.usedMemory == tracker.Counted(old(tracker.usedMemory),
        if old(Found(View(), s, hasher(s))).None? then PageMemory(old(alloc.Capacity()), |Stored(s)|) + MapMemory(old(refs.len)) else 0)
      ensures tracker.usedChunks == tracker.Counted(old(tracker.usedChunks),
        if old(Found(View(), s, hasher(s))).None? then PageChunks(old(alloc.Capacity()), |Stored(s)|) + MapChunks(old(refs.len)) else 0)
    {
      var hash := hasher(s);
      id := Intern(s, s, hash);
    }

    /**
     * `create_string_id(s)` corrected: a string longer than
     * `MAX_STRING_LENGTH` is cut short before it is hashed and looked up,
     * so it is found again under the form it is stored in. The length
     * counted is still that of `s`.
     */
    method CreateStringId(s: Bytes) returns (id: StringId)
      requires Valid() && Canonical() && |s| < UsizeModulus
      requires |s| > MaxStringLength ==> CharBoundary(s, MaxStringLength)
      requires Found(View(), Stored(s), hasher(Stored(s))).None? ==> PageIndex(refs.len) < |refs.pages| && refs.len < U32Max
      modifies table, refs, alloc, tracker
      ensures Valid() && Canonical()
      ensures Interns(old(View()), View(), Stored(s), hasher(Stored(s)), id, old(Found(View(), Stored(s), hasher(Stored(s)))).None?)
      ensures Strings(View())[Get(id)] == Stored(s) && Found(View(), Stored(s), hasher(Stored(s))).Some?
      ensures tracker.total == old(tracker.total) + if old(Found(View(), Stored(s), hasher(Stored(s)))).None? then |s| else 0
    {
      var stored := if |s| > MaxStringLength then s[..MaxStringLength] else s;
      var hash := hasher(stored);
      ghost var v0 := View();
      ghost var created := Found(v0, stored, hash).None?;
      id := Intern(s, stored, hash);
      InternsCanonical(v0, View(), stored, hasher, id, created);
    }

    /**
     * The body both versions share: `find_or_insert(key, hash)` and the
     * tracker updates, counting the length of `s`, the string passed in.
     */
    method Intern(s: Bytes, key: Bytes, hash: bv64) returns (id: StringId)
      requires Consistent(table, refs, alloc) && tracker.Valid() && tracker.strings == |refs.elements|
      requires |s| < UsizeModulus && |key| <= |s|
      requires |key| > MaxStringLength ==> CharBoundary(key, MaxStringLength)
      requires Found(View(), key, hash).None? ==> PageIndex(refs.len) < |refs.pages| && refs.len < U32Max
      modifies table, refs, alloc, tracker
      ensures Consistent(table, refs, alloc) && tracker.Valid() && tracker.strings == |refs.elements|
      ensures Interns(old(View()), View(), key, hash, id, old(Found(View(), key, hash)).None?)
      ensures tracker.total == old(tracker.total) + if old(Found(View(), key, hash)).None? then |s| else 0
      ensures tracker.usedMemory == tracker.Counted(old(tracker.usedMemory),
        if old(Found(View(), key, hash)).None? then PageMemory(old(alloc.Capacity()), |Stored(key)|) + MapMemory(old(refs.len)) else 0)
      ensures tracker.usedChunks == tracker.Counted(old(tracker.usedChunks),
        if old(Found(View(), key, hash)).None? then PageChunks(old(alloc.Capacity()), |Stored(key)|) + MapChunks(old(refs.len)) else 0)
    {
      var page := NextPage();
      var used, chunks, created;
      id, used, chunks, created := table.FindOrInsert(key, hash, refs, alloc, page);
      tracker.Record(used, chunks, created, |s|);
    }

    /** `string(id)`: the string stored for a valid id. */
    function String(id: StringId): (r: Bytes)
      reads this, table, refs, alloc, tracker
      requires Valid() && Get(id) < |refs.elements|
      ensures r == Strings(View())[Get(id)]
    {
      AsStr(alloc.memory[refs.GetUnchecked(id)])
    }

    /** `len(id)`: the length of the stored string, at most `MAX_STRING_LENGTH`. */
    function Len(id: StringId): (r: nat)
      reads this, table, refs, alloc, tracker
      requires Valid() && Get(id) < |refs.elements|
      ensures r == |String(id)| && r <= MaxStringLength
    {
      alloc.memory[refs.GetUnchecked(id)].len
    }

    /** `is_empty(id)`. */
    function IsEmpty(id: StringId): (r: bool)
      reads this, table, refs, alloc, tracker
      requires Valid() && Get(id) < |refs.elements|
      ensures r <==> String(id) == []
    {
      StringEntries.IsEmpty(alloc.memory[refs.GetUnchecked(id)])
    }

    /** `strings_allocated()`: the number of strings that created an entry. */
    function StringsAllocated(): (r: nat)
      reads this, table, refs, alloc, tracker
      requires Valid() && tracker.enabled
      ensures r == |Strings(View())|
    {
      tracker.stringsAllocated
    }

    /**
     * `average_string_length()`: the total length of the strings that
     * created an entry, divided by their number; the total is wrapped to a
     * `usize`.
     */
    function AverageStringLength(): (r: nat)
      reads this, table, refs, alloc, tracker
      requires Valid() && tracker.enabled
      ensures Strings(View()) == [] ==> r == 0
      ensures Strings(View()) != [] && tracker.total < UsizeModulus ==>
        r * |Strings(View())| <= tracker.total < (r + 1) * |Strings(View())|
    {
      tracker.AverageLength()
    }
  }

  /**
   * `StringId::new(s, subsystem)`: `create_string_id(s)`, corrected. The
   * strings interned before keep their ids, and the id returned is that of
   * an earlier equal string if there is one and differs from the id of
   * every different string.
   */
  method NewStringId(s: Bytes, system: Subsystem) returns (id: StringId)
    requires system.Valid() && system.Canonical() && |s| < UsizeModulus
    requires |s| > MaxStringLength ==> CharBoundary(s, MaxStringLength)
    requires Found(system.View(), Stored(s), system.hasher(Stored(s))).None? ==>
               PageIndex(system.refs.len) < |system.refs.pages| && system.refs.len < U32Max
    modifies system.table, system.refs, system.alloc, system.tracker
    ensures system.Valid() && system.Canonical()
    ensures Strings(old(system.View())) <= Strings(system.View())
    ensures Get(id) < |Strings(system.View())| && Strings(system.View())[Get(id)] == Stored(s)
    ensures forall j :: 0 <= j < |Strings(old(system.View()))| ==>
              (Strings(old(system.View()))[j] == Stored(s) <==> Get(id) == j)
  {
    ghost var v0 := system.View();
    ghost var created := Found(v0, Stored(s), system.hasher(Stored(s))).None?;
    id := system.CreateStringId(s);
    InternedIds(v0, system.View(), system.hasher, Stored(s), id, created);
  }

  /**
   * Interning `key` into a table that interns every string once: the
   * strings interned before keep their ids, and `key` has the id of an
   * earlier equal string and no other.
   */
  lemma InternedIds(v0: Interned, v: Interned, hasher: Bytes -> bv64, key: Bytes, id: StringId, created: bool)
    requires Interns(v0, v, key, hasher(key), id, created) && Indexed(v, hasher) && Unique(v)
    ensures Strings(v0) <= Strings(v)
    ensures forall j :: 0 <= j < |Strings(v0)| ==> (Strings(v0)[j] == Stored(key) <==> Get(id) == j)
  {
    forall j | 0 <= j < |Strings(v0)|
      ensures Strings(v0)[j] == Stored(key) <==> Get(id) == j
    {
      assert Strings(v)[j] == Strings(v0)[j];
    }
  }

  /**
   * Interning a string of at most `MAX_STRING_LENGTH` bytes twice gives the
   * same id, and the second call creates nothing.
   */
  lemma InternTwice(v0: Interned, v1: Interned, v2: Interned, s: Bytes, hash: bv64,
                    id1: StringId, id2: StringId, created1: bool, created2: bool)
    requires Interns(v0, v1, s, hash, id1, created1) && Interns(v1, v2, s, hash, id2, created2)
    requires |s| <= MaxStringLength
    ensures id1 == id2 && !created2 && v2 == v1
  {
    var a := v1.elements[Get(id1)];
    assert Found(v1, s, hash) == Some(a);
    assert v1.memory[a].id.Some? && Get(v1.memory[a].id.value) == Get(id1);
    assert v1.memory[a].id.Some? && Get(v1.memory[a].id.value) == Get(id2);
    FromRawPartsGet(id1);
    FromRawPartsGet(id2);
  }

  /**
   * A string longer than `MAX_STRING_LENGTH`, interned twice by the code
   * as written, gets two different ids that name the same stored string.
   */
  lemma LongInternedTwice(v0: Interned, v1: Interned, v2: Interned, s: Bytes, hash: bv64,
                          id1: StringId, id2: StringId, created1: bool, created2: bool)
    requires Interns(v0, v1, s, hash, id1, created1) && Interns(v1, v2, s, hash, id2, created2)
    requires |s| > MaxStringLength
    ensures created1 && created2 && id1 != id2
    ensures Get(id1) < |Strings(v2)| && Strings(v2)[Get(id1)] == Strings(v2)[Get(id2)] == Stored(s)
    ensures !Unique(v2)
  {
    LongNeverFound(v0, s, hash);
    LongNeverFound(v1, s, hash);
    assert Strings(v2)[Get(id1)] == Strings(v1)[Get(id1)];
  }

  /** Under the corrected interning two ids are equal exactly when they name equal strings. */
  lemma CanonicalIds(v: Interned, hasher: Bytes -> bv64, id1: StringId, id2: StringId)
    requires Indexed(v, hasher) && Unique(v) && Get(id1) < |Strings(v)| && Get(id2) < |Strings(v)|
    ensures Strings(v)[Get(id1)] == Strings(v)[Get(id2)] <==> id1 == id2
  {
    UniqueIds(v, id1, id2);
  }
}
