/**
 * `EntryHashTable`: 65536 buckets, each the head of a chain of entries
 * linked through their `next` pointers. A string is looked up in the bucket
 * of its hash's low 16 bits by comparing full strings; a miss allocates an
 * entry, registers it in the reference map (its index there becomes the id)
 * and links it behind the last entry of the bucket.
 */
module EntryHashTables {
  import opened Wrappers
  import opened Bytes
  import opened StringIds
  import opened StringEntries
  import opened StringAllocator
  import opened StaticRefVectors

  /** `NUM_BUCKETS`: one bucket per `u16` value. */
  const NumBuckets: nat := 0x1_0000

  /** `hash as u16`: the bucket of a 64-bit hash is its low 16 bits. */
  function Bucket(hash: bv64): (r: nat)
    ensures r < NumBuckets
  {
    ((hash & 0xFFFF) as bv16) as nat
  }

  /** The bytes `find_or_insert` stores for `s`: all of them, or the first `MAX_STRING_LENGTH`. */
  function Stored(s: Bytes): (r: Bytes)
    ensures r <= s
    ensures |r| == if |s| <= MaxStringLength then |s| else MaxStringLength
  {
    if |s| > MaxStringLength then s[..MaxStringLength] else s
  }

  /** What `allocate` reports in memory for an `n`-byte string when `capacity` bytes are left. */
  function PageMemory(capacity: nat, n: nat): (r: nat)
    ensures r <= PageSize
  {
    if capacity < n + DataOffset then PageSize else 0
  }

  /** What `allocate` reports in chunks for an `n`-byte string when `capacity` bytes are left. */
  function PageChunks(capacity: nat, n: nat): (r: nat)
    ensures r <= 1
  {
    if capacity < n + DataOffset then 1 else 0
  }

  /** What `push` reports in memory at length `len`: a new page at each page boundary. */
  function MapMemory(len: nat): (r: nat)
    ensures r <= ElementSize * ElementsPerPage
  {
    if len % ElementsPerPage == 0 then ElementSize * ElementsPerPage else 0
  }

  /** What `push` reports in chunks at length `len`. */
  function MapChunks(len: nat): (r: nat)
    ensures r <= 1
  {
    if len % ElementsPerPage == 0 then 1 else 0
  }

  /** Every entry the allocator wrote is filled in. */
  ghost predicate Filled(memory: map<nat, Entry>)
  {
    forall a :: a in memory ==> WellFormed(memory[a])
  }

  /** Every address of `chain` holds an entry. */
  ghost predicate InMemory(memory: map<nat, Entry>, chain: seq<nat>)
  {
    forall k :: 0 <= k < |chain| ==> chain[k] in memory && WellFormed(memory[chain[k]])
  }

  /** The entry at `a` holds exactly `name`. */
  ghost predicate Holds(memory: map<nat, Entry>, a: nat, name: Bytes)
    requires a in memory && WellFormed(memory[a])
  {
    AsStr(memory[a]) == name
  }

  /** The position of the first entry of `chain` that holds `name`. */
  ghost function FirstMatch(memory: map<nat, Entry>, chain: seq<nat>, name: Bytes): (r: Option<nat>)
    requires InMemory(memory, chain)
    ensures r.Some? ==> r.value < |chain| && Holds(memory, chain[r.value], name)
    ensures forall k :: 0 <= k < |chain| && (r.None? || k < r.value) ==> !Holds(memory, chain[k], name)
    decreases |chain|
  {
    if chain == [] then None
    else if Holds(memory, chain[0], name) then Some(0)
    else
      assert InMemory(memory, chain[1..]) by {
        forall k | 0 <= k < |chain| - 1
          ensures chain[1..][k] in memory && WellFormed(memory[chain[1..][k]])
        {
          assert chain[1..][k] == chain[k + 1];
        }
      }
      match FirstMatch(memory, chain[1..], name)
      case None => None
      case Some(k) => Some(k + 1)
  }

  /**
   * The table's bookkeeping: one head and one chain per bucket, each chain
   * reached from its head through allocated entries, and every chained
   * address belonging to the bucket it is chained in.
   */
  ghost predicate TableOk(head: seq<Option<nat>>, chains: seq<seq<nat>>, home: map<nat, nat>, memory: map<nat, Entry>)
  {
    |head| == NumBuckets && |chains| == NumBuckets && Filled(memory)
    && (forall b :: 0 <= b < NumBuckets ==> Chain(memory, head[b], chains[b]) && InMemory(memory, chains[b]))
    && (forall b, k :: 0 <= b < NumBuckets && 0 <= k < |chains[b]| ==>
          chains[b][k] in home && home[chains[b][k]] == b)
  }

  /**
   * The reference map and the entries' ids are inverse to each other:
   * element `i` is the entry whose id stands for `i`, and every entry is
   * registered at the index its id stands for.
   */
  ghost predicate Registered(memory: map<nat, Entry>, elements: seq<nat>)
  {
    (forall i :: 0 <= i < |elements| ==>
       elements[i] in memory && memory[elements[i]].id.Some? && Get(memory[elements[i]].id.value) == i)
    && (forall a :: a in memory ==>
          memory[a].id.Some? && Get(memory[a].id.value) < |elements| && elements[Get(memory[a].id.value)] == a)
  }

  /** The strings the reference map's entries hold, by index. */
  ghost function Texts(memory: map<nat, Entry>, elements: seq<nat>): (r: seq<Bytes>)
    requires Filled(memory) && Registered(memory, elements)
    ensures |r| == |elements|
    ensures forall i :: 0 <= i < |elements| ==> r[i] == AsStr(memory[elements[i]])
  {
    seq(|elements|, i requires 0 <= i < |elements| => AsStr(memory[elements[i]]))
  }

  /**
   * The values the table, the allocator's memory and the reference map
   * hold together: the heads, the chains behind them, the bucket of each
   * chained entry, the entries by address, and the registered addresses.
   */
  datatype Interned = Interned(head: seq<Option<nat>>, chains: seq<seq<nat>>, home: map<nat, nat>,
                               memory: map<nat, Entry>, elements: seq<nat>)

  /** The bucket chains and the reference map agree with the entries they point to. */
  ghost predicate Good(v: Interned)
  {
    TableOk(v.head, v.chains, v.home, v.memory) && Registered(v.memory, v.elements)
  }

  /** The strings interned so far, indexed by `StringId::get`. */
  ghost function Strings(v: Interned): (r: seq<Bytes>)
    requires Good(v)
    ensures |r| == |v.elements|
  {
    Texts(v.memory, v.elements)
  }

  /**
   * The invariant the string subsystem keeps over its three parts: the
   * allocator and the reference map are valid, and the table, the entries
   * and the reference map agree.
   */
  ghost predicate Consistent(t: EntryHashTable, refs: StaticRefVector<nat>, alloc: Allocator)
    reads t, refs, alloc
  {
    alloc.Valid() && refs.Valid() && Good(t.View(refs, alloc))
  }

  /** The memory after the entry at `addr` is linked behind the last entry of `chain`, if any. */
  function Appended(memory: map<nat, Entry>, chain: seq<nat>, addr: nat): map<nat, Entry>
    requires chain != [] ==> chain[|chain| - 1] in memory
  {
    if chain == [] then memory
    else
      var last := chain[|chain| - 1];
      memory[last := memory[last].(next := Some(addr))]
  }

  /**
   * The values after `entry` is written at the fresh address `addr`,
   * registered at the next index and linked at the tail of the bucket of
   * `hash`.
   */
  ghost function Inserted(v: Interned, hash: bv64, addr: nat, entry: Entry): (r: Interned)
    requires Good(v)
  {
    var b := Bucket(hash);
    var chain := v.chains[b];
    assert chain != [] ==> Links(v.memory, chain, |chain| - 1);
    Interned(if chain == [] then v.head[b := Some(addr)] else v.head,
             v.chains[b := chain + [addr]], v.home[addr := b],
             Appended(v.memory[addr := entry], chain, addr), v.elements + [addr])
  }

  /** The chains run through filled-in entries, one chain per bucket. */
  ghost predicate Chained(memory: map<nat, Entry>, chains: seq<seq<nat>>)
  {
    |chains| == NumBuckets && forall b :: 0 <= b < NumBuckets ==> InMemory(memory, chains[b])
  }

  /** The first entry of the bucket of `hash` that holds `name`. */
  ghost function Lookup(memory: map<nat, Entry>, chains: seq<seq<nat>>, name: Bytes, hash: bv64): (r: Option<nat>)
    requires Chained(memory, chains)
    ensures r.Some? ==> r.value in chains[Bucket(hash)] && r.value in memory && Holds(memory, r.value, name)
  {
    var chain := chains[Bucket(hash)];
    match FirstMatch(memory, chain, name)
    case None => None
    case Some(k) => Some(chain[k])
  }

  /** The entry `find(name, hash as u16)` returns. */
  ghost function Found(v: Interned, name: Bytes, hash: bv64): (r: Option<nat>)
    requires Good(v)
    ensures r.Some? ==> r.value in v.memory && Holds(v.memory, r.value, name)
  {
    Lookup(v.memory, v.chains, name, hash)
  }

  /** Every string found in `before` is found at the same entry in `after`. */
  ghost predicate KeepsResidents(before: Interned, after: Interned)
  {
    Good(before) && Good(after)
    && forall name, h :: Found(before, name, h).Some? ==> Found(after, name, h) == Found(before, name, h)
  }

  /** No string longer than `MAX_STRING_LENGTH` is ever found: no entry holds that many bytes. */
  lemma LongNeverFound(v: Interned, name: Bytes, hash: bv64)
    requires Good(v) && |name| > MaxStringLength
    ensures Found(v, name, hash) == None
  {
    var chain := v.chains[Bucket(hash)];
    assert forall k :: 0 <= k < |chain| ==> |AsStr(v.memory[chain[k]])| <= MaxStringLength;
  }

  /** The string the entry of a found id holds is the one registered under that id. */
  lemma FoundRegistered(v: Interned, name: Bytes, hash: bv64)
    requires Good(v) && Found(v, name, hash).Some?
    ensures var e := v.memory[Found(v, name, hash).value];
      e.id.Some? && Get(e.id.value) < |Strings(v)| && Strings(v)[Get(e.id.value)] == name
      && v.elements[Get(e.id.value)] == Found(v, name, hash).value
  {
  }

  /**
   * What `find_or_insert(s, hash)` does to the interned values `before`,
   * giving `after`, the id and whether an entry was created: the id names
   * the stored form of `s`; a string already found keeps its entry and
   * changes nothing; otherwise the stored form is added as the next id, at
   * the tail of its bucket; a string within `MAX_STRING_LENGTH` is found
   * afterwards at the id's entry; and nothing found before is lost.
   */
  ghost predicate Interns(before: Interned, after: Interned, s: Bytes, hash: bv64, id: StringId, created: bool)
  {
    Good(before) && Good(after)
    && Get(id) < |Strings(after)| && Strings(after)[Get(id)] == Stored(s)
    && (Found(before, s, hash).Some? ==>
         !created && after == before && Found(before, s, hash) == Some(after.elements[Get(id)]))
    && (Found(before, s, hash).None? ==>
         && created && Get(id) == |before.elements|
         && after.elements == before.elements + [after.elements[Get(id)]]
         && Strings(after) == Strings(before) + [Stored(s)]
         && after.chains == before.chains[Bucket(hash) := before.chains[Bucket(hash)] + [after.elements[Get(id)]]])
    && (|s| <= MaxStringLength ==> Found(after, s, hash) == Some(after.elements[Get(id)]))
    && KeepsResidents(before, after)
  }

  /** The hit path: the id stored in the found entry, nothing changed. */
  lemma HitInterns(v: Interned, s: Bytes, hash: bv64)
    requires Good(v) && Found(v, s, hash).Some?
    ensures Interns(v, v, s, hash, Id(v.memory[Found(v, s, hash).value]), false)
  {
    FoundRegistered(v, s, hash);
  }

  /** The miss path: the stored form of `s` in a fresh entry at `addr`, with the next id. */
  lemma MissInterns(v: Interned, s: Bytes, hash: bv64, addr: nat)
    requires Good(v) && Found(v, s, hash).None? && addr !in v.memory && |v.elements| < U32Max
    ensures var id := FromRawParts(|v.elements|);
      Interns(v, Inserted(v, hash, addr, Entry(None, Some(id), |Stored(s)|, Stored(s))), s, hash, id, true)
  {
    var stored := Stored(s);
    var after := Inserted(v, hash, addr, Entry(None, Some(FromRawParts(|v.elements|)), |stored|, stored));
    InsertFacts(v, hash, addr, stored);
  }

  /**
   * Every interned string is chained in the bucket of its own hash under
   * `hasher`: what holds when each string was hashed as it is stored.
   */
  ghost predicate Indexed(v: Interned, hasher: Bytes -> bv64)
  {
    Good(v) && IndexedBy(v.elements, Strings(v), v.chains, hasher)
  }

  /** Element `i`, holding `strings[i]`, is in the chain of the bucket of that string's hash. */
  ghost predicate IndexedBy(elements: seq<nat>, strings: seq<Bytes>, chains: seq<seq<nat>>, hasher: Bytes -> bv64)
  {
    |elements| == |strings| && |chains| == NumBuckets
    && forall i :: 0 <= i < |elements| ==> elements[i] in chains[Bucket(hasher(strings[i]))]
  }

  /** No string is interned twice. */
  ghost predicate Unique(v: Interned)
  {
    Good(v) && forall i, j :: 0 <= i < j < |Strings(v)| ==> Strings(v)[i] != Strings(v)[j]
  }

  /** In an indexed table every interned string is found under its own hash. */
  lemma FoundIfInterned(v: Interned, hasher: Bytes -> bv64, i: nat)
    requires Indexed(v, hasher) && i < |v.elements|
    ensures Found(v, Strings(v)[i], hasher(Strings(v)[i])).Some?
  {
    var name := Strings(v)[i];
    var chain := v.chains[Bucket(hasher(name))];
    var k :| 0 <= k < |chain| && chain[k] == v.elements[i];
    assert Holds(v.memory, chain[k], name);
  }

  /** A string not found under its own hash in an indexed table is not interned. */
  lemma NotInterned(v: Interned, hasher: Bytes -> bv64, t: Bytes)
    requires Indexed(v, hasher) && Found(v, t, hasher(t)).None?
    ensures forall i :: 0 <= i < |Strings(v)| ==> Strings(v)[i] != t
  {
    forall i | 0 <= i < |Strings(v)|
      ensures Strings(v)[i] != t
    {
      FoundIfInterned(v, hasher, i);
    }
  }

  /** Appending `t` at the tail of the bucket of its own hash keeps the table indexed. */
  lemma AppendIndexed(elements: seq<nat>, strings: seq<Bytes>, chains: seq<seq<nat>>, hasher: Bytes -> bv64, t: Bytes, x: nat)
    requires IndexedBy(elements, strings, chains, hasher)
    ensures var b := Bucket(hasher(t));
      IndexedBy(elements + [x], strings + [t], chains[b := chains[b] + [x]], hasher)
  {
    var b := Bucket(hasher(t));
    var elements', strings', chains' := elements + [x], strings + [t], chains[b := chains[b] + [x]];
    forall i | 0 <= i < |elements'|
      ensures elements'[i] in chains'[Bucket(hasher(strings'[i]))]
    {
      if i < |elements| {
        InAppended(elements[i], chains, Bucket(hasher(strings[i])), b, x);
      } else {
        InAppended(x, chains[b := chains[b] + [x]], b, b, x);
      }
    }
  }

  /** What is in the chain of bucket `bb` is still there after `x` is appended to the chain of bucket `b`. */
  lemma InAppended(a: nat, chains: seq<seq<nat>>, bb: nat, b: nat, x: nat)
    requires bb < |chains| && b < |chains| && (a in chains[bb] || (a == x && bb == b))
    ensures a in chains[b := chains[b] + [x]][bb]
  {
    if bb == b && a in chains[b] {
      var k :| 0 <= k < |chains[b]| && chains[b][k] == a;
      assert (chains[b] + [x])[k] == a;
    } else if bb == b {
      assert (chains[b] + [x])[|chains[b]|] == x;
    }
  }

  /** Appending a string that is not interned keeps every string unique. */
  lemma AppendUnique(before: Interned, after: Interned, t: Bytes)
    requires Unique(before) && Good(after) && Strings(after) == Strings(before) + [t]
    requires forall i :: 0 <= i < |Strings(before)| ==> Strings(before)[i] != t
    ensures Unique(after)
  {
    var n := |Strings(before)|;
    forall i, j | 0 <= i < j < |Strings(after)|
      ensures Strings(after)[i] != Strings(after)[j]
    {
      assert Strings(after)[i] == Strings(before)[i];
      if j < n {
        assert Strings(after)[j] == Strings(before)[j];
      }
    }
  }

  /**
   * Interning the stored form of a string, hashed as stored, keeps the
   * table indexed and every string unique.
   */
  lemma InternsCanonical(before: Interned, after: Interned, t: Bytes, hasher: Bytes -> bv64, id: StringId, created: bool)
    requires Interns(before, after, t, hasher(t), id, created) && |t| <= MaxStringLength
    requires Indexed(before, hasher) && Unique(before)
    ensures Indexed(after, hasher) && Unique(after)
  {
    if created {
      assert Stored(t) == t;
      NotInterned(before, hasher, t);
      AppendIndexed(before.elements, Strings(before), before.chains, hasher, t, after.elements[Get(id)]);
      AppendUnique(before, after, t);
    }
  }

  /** In a table with unique strings, two ids name the same string only if they are the same id. */
  lemma UniqueIds(v: Interned, id1: StringId, id2: StringId)
    requires Unique(v) && Get(id1) < |Strings(v)| && Get(id2) < |Strings(v)|
    ensures Strings(v)[Get(id1)] == Strings(v)[Get(id2)] <==> id1 == id2
  {
    if Get(id1) < Get(id2) {
    } else if Get(id2) < Get(id1) {
    } else {
      FromRawPartsGet(id1);
      FromRawPartsGet(id2);
    }
  }

  class EntryHashTable {
    /** `head`: the first entry of each bucket, or null. */
    var head: seq<Option<nat>>
    /** The addresses each bucket's chain runs through, in insertion order. */
    ghost var chains: seq<seq<nat>>
    /** The bucket each chained address belongs to. */
    ghost var home: map<nat, nat>

    /** The table together with the allocator's entries and the reference map. */
    ghost function View(refs: StaticRefVector<nat>, alloc: Allocator): Interned
      reads this, refs, alloc
    {
      Interned(head, chains, home, alloc.memory, refs.elements)
    }

    /** An empty table: no head, no chain. */
    constructor Empty()
      ensures TableOk(head, chains, home, map[])
      ensures forall b :: 0 <= b < NumBuckets ==> head[b] == None && chains[b] == []
    {
      head := seq(NumBuckets, _ => None);
      chains := seq(NumBuckets, _ => []);
      home := map[];
    }

    /**
     * `new()`: every bucket empty; the head array is reported as memory
     * (one pointer per bucket) in one chunk.
     */
    static method New() returns (t: EntryHashTable, used: nat, chunks: nat)
      ensures fresh(t) && TableOk(t.head, t.chains, t.home, map[])
      ensures forall b :: 0 <= b < NumBuckets ==> t.head[b] == None && t.chains[b] == []
      ensures used == PointerSize * NumBuckets && chunks == 1
    {
      t := new EntryHashTable.Empty();
      used, chunks := PointerSize * NumBuckets, 1;
    }

    /**
     * `find(name, hash)`: walks the bucket's chain with the entry iterator
     * and returns the first entry whose string equals `name`; the hash only
     * selects the bucket.
     */
    method Find(memory: map<nat, Entry>, name: Bytes, hash: bv16) returns (r: Option<nat>)
      requires TableOk(head, chains, home, memory)
      ensures r == Lookup(memory, chains, name, hash as bv64)
    {
      var b := hash as nat;
      assert Bucket(hash as bv64) == b;
      ghost var chain := chains[b];
      var first := head[b];
      if first == None {
        return None;
      }
      var it := new Entries(memory, first.value, chain);
      ghost var k := 0;
      var x := it.Next(memory);
      while x.Some?
        invariant k <= |chain|
        invariant x.Some? ==> k < |chain| && x.value == chain[k] && it.remaining == chain[k + 1..]
        invariant x.None? ==> k == |chain|
        invariant Chain(memory, it.current, it.remaining)
        invariant forall j :: 0 <= j < k ==> !Holds(memory, chain[j], name)
        decreases |chain| - k
      {
        if AsStr(memory[x.value]) == name {
          return x;
        }
        k := k + 1;
        x := it.Next(memory);
      }
      return None;
    }

    /** `iter().last()` from the head of a non-empty bucket: the last entry of its chain. */
    static method Last(memory: map<nat, Entry>, first: nat, ghost chain: seq<nat>) returns (last: nat)
      requires Chain(memory, Some(first), chain)
      ensures chain != [] && last == chain[|chain| - 1]
    {
      var it := new Entries(memory, first, chain);
      var x := it.Next(memory);
      last := x.value;
      ghost var k := 0;
      x := it.Next(memory);
      while x.Some?
        invariant k < |chain| && last == chain[k]
        invariant x.Some? ==> k + 1 < |chain| && x.value == chain[k + 1] && it.remaining == chain[k + 2..]
        invariant x.None? ==> k + 1 == |chain|
        invariant Chain(memory, it.current, it.remaining)
        decreases |chain| - k
      {
        last := x.value;
        k := k + 1;
        x := it.Next(memory);
      }
    }

    /**
     * `find_or_insert(s, hash, ...)`: a string already in its bucket gives
     * that entry's id and reports nothing allocated. Otherwise `s`, cut to
     * `MAX_STRING_LENGTH` bytes when longer (which must fall on a character
     * boundary), gets a new entry whose id is the reference map's next
     * index, linked at the tail of its bucket; the allocator's and the
     * map's reports are summed. `page` is where the system allocator puts a
     * page if one is needed.
     */
    method FindOrInsert(s: Bytes, hash: bv64, refs: StaticRefVector<nat>, alloc: Allocator, page: nat)
      returns (id: StringId, used: nat, chunks: nat, created: bool)
      requires Consistent(this, refs, alloc)
      requires 0 < page && page % EntryAlign == 0 && page >= alloc.end
      requires |s| > MaxStringLength ==> CharBoundary(s, MaxStringLength)
      requires Found(View(refs, alloc), s, hash).None? ==> PageIndex(refs.len) < |refs.pages| && refs.len < U32Max
      modifies this, refs, alloc
      ensures alloc.Valid() && refs.Valid()
      ensures created == Found(old(View(refs, alloc)), s, hash).None?
      ensures Interns(old(View(refs, alloc)), View(refs, alloc), s, hash, id, created)
      ensures !created ==> used == 0 && chunks == 0 && unchanged(this, refs, alloc)
      ensures created ==>
        && used == PageMemory(old(alloc.Capacity()), |Stored(s)|) + MapMemory(old(refs.len))
        && chunks == PageChunks(old(alloc.Capacity()), |Stored(s)|) + MapChunks(old(refs.len))
    {
      ghost var v0 := View(refs, alloc);
      var b := (hash & 0xFFFF) as bv16;
      assert Bucket(hash) == b as nat;
      var found := Find(alloc.memory, s, b);
      if found.Some? {
        id := Id(alloc.memory[found.value]);
        HitInterns(v0, s, hash);
        return id, 0, 0, false;
      }
      var stored := if |s| > MaxStringLength then s[..MaxStringLength] else s;
      var addr;
      id, used, chunks, addr := Insert(stored, hash, refs, alloc, page);
      created := true;
      MissInterns(v0, s, hash, addr);
    }

    /**
     * The miss path of `find_or_insert`: allocate the entry, push it to the
     * reference map, store its id, and link it at the head of an empty
     * bucket or behind the bucket's last entry.
     */
    method Insert(stored: Bytes, hash: bv64, refs: StaticRefVector<nat>, alloc: Allocator, page: nat)
      returns (id: StringId, used: nat, chunks: nat, addr: nat)
      requires Consistent(this, refs, alloc) && |stored| <= MaxStringLength
      requires 0 < page && page % EntryAlign == 0 && page >= alloc.end
      requires PageIndex(refs.len) < |refs.pages| && refs.len < U32Max
      modifies this, refs, alloc
      ensures alloc.Valid() && refs.Valid() && addr !in old(alloc.memory)
      ensures id == FromRawParts(old(refs.len))
      ensures View(refs, alloc) == Inserted(old(View(refs, alloc)), hash, addr, Entry(None, Some(id), |stored|, stored))
      ensures used == PageMemory(old(alloc.Capacity()), |stored|) + MapMemory(old(refs.len))
      ensures chunks == PageChunks(old(alloc.Capacity()), |stored|) + MapChunks(old(refs.len))
    {
      var b := Bucket(hash);
      ghost var m0 := alloc.memory;
      var entry;
      addr, entry, id, used, chunks := Register(stored, refs, alloc, page);
      FreshKeepsChain(m0, addr, entry, head[b], chains[b]);
      Link(alloc, b, addr);
    }

    /**
     * The linking step of `find_or_insert`: an empty bucket's head becomes
     * the entry at `addr`; otherwise the last entry of the bucket, found by
     * walking the chain, gets `addr` as its `next`.
     */
    method Link(alloc: Allocator, b: nat, addr: nat)
      requires alloc.Valid() && |head| == NumBuckets && |chains| == NumBuckets && b < NumBuckets
      requires Chain(alloc.memory, head[b], chains[b])
      modifies this, alloc
      ensures alloc.Valid()
      ensures old(chains[b]) != [] ==> old(chains[b])[|old(chains[b])| - 1] in old(alloc.memory)
      ensures alloc.memory == Appended(old(alloc.memory), old(chains[b]), addr)
      ensures head == if old(chains[b]) == [] then old(head)[b := Some(addr)] else old(head)
      ensures chains == old(chains)[b := old(chains[b]) + [addr]] && home == old(home)[addr := b]
    {
      if head[b] == None {
        head := head[b := Some(addr)];
      } else {
        var last := Last(alloc.memory, head[b].value, chains[b]);
        assert Links(alloc.memory, chains[b], |chains[b]| - 1);
        alloc.SetNext(last, addr);
      }
      chains := chains[b := chains[b] + [addr]];
      home := home[addr := b];
    }
  }

  /**
   * The allocation step of `find_or_insert`: the string gets a fresh entry,
   * the entry is pushed to the reference map, and the index it gets there,
   * as a `StringId`, is stored in the entry.
   */
  method Register(stored: Bytes, refs: StaticRefVector<nat>, alloc: Allocator, page: nat)
    returns (addr: nat, entry: Entry, id: StringId, used: nat, chunks: nat)
    requires alloc.Valid() && refs.Valid() && |stored| <= MaxStringLength
    requires 0 < page && page % EntryAlign == 0 && page >= alloc.end
    requires PageIndex(refs.len) < |refs.pages| && refs.len < U32Max
    modifies refs, alloc
    ensures alloc.Valid() && refs.Valid()
    ensures addr !in old(alloc.memory) && alloc.memory == old(alloc.memory)[addr := entry]
    ensures entry == Entry(None, Some(id), |stored|, stored) && WellFormed(entry) && AsStr(entry) == stored
    ensures id == FromRawParts(old(refs.len)) && refs.elements == old(refs.elements) + [addr]
    ensures used == PageMemory(old(alloc.Capacity()), |stored|) + MapMemory(old(refs.len))
    ensures chunks == PageChunks(old(alloc.Capacity()), |stored|) + MapChunks(old(refs.len))
  {
    var allocMemory, allocChunks, mapMemory, mapChunks;
    addr, allocMemory, allocChunks := alloc.Allocate(stored, page);
    id, mapMemory, mapChunks := refs.Push(addr);
    entry := alloc.memory[addr].(id := Some(id));
    alloc.SetId(addr, id);
    used := allocMemory + mapMemory;
    chunks := allocChunks + mapChunks;
  }

  /**
   * Everything `find_or_insert` establishes on a miss: the table and the
   * reference map stay consistent, the stored string is added to the
   * interned ones, every string found before is found at the same entry,
   * and the new entry is found for the stored string.
   */
  lemma InsertFacts(v: Interned, hash: bv64, addr: nat, stored: Bytes)
    requires Good(v) && addr !in v.memory && |v.elements| < U32Max && |stored| <= MaxStringLength
    ensures var after := Inserted(v, hash, addr, Entry(None, Some(FromRawParts(|v.elements|)), |stored|, stored));
      && Good(after)
      && Strings(after) == Strings(v) + [stored]
      && KeepsResidents(v, after)
      && (Found(v, stored, hash).None? ==> Found(after, stored, hash) == Some(addr))
  {
    var b := Bucket(hash);
    var entry := Entry(None, Some(FromRawParts(|v.elements|)), |stored|, stored);
    var after := Inserted(v, hash, addr, entry);
    InsertGood(v, hash, addr, entry);
    forall name, h | Found(v, name, h).Some?
      ensures Found(after, name, h) == Found(v, name, h)
    {
      LookupKept(v.memory, after.memory, v.chains, after.chains, b, addr, name, h);
    }
    LookupKept(v.memory, after.memory, v.chains, after.chains, b, addr, stored, hash);
  }

  /** The value half of `InsertFacts`: the inserted values are good and hold one more string. */
  lemma InsertGood(v: Interned, hash: bv64, addr: nat, entry: Entry)
    requires Good(v) && addr !in v.memory && |v.elements| < U32Max
    requires entry.next == None && WellFormed(entry) && entry.id == Some(FromRawParts(|v.elements|))
    ensures var after := Inserted(v, hash, addr, entry);
      && Good(after)
      && Strings(after) == Strings(v) + [AsStr(entry)]
      && after.chains == v.chains[Bucket(hash) := v.chains[Bucket(hash)] + [addr]]
      && addr in after.memory && after.memory[addr] == entry
      && (forall bb :: 0 <= bb < NumBuckets ==> Unchanged(v.memory, after.memory, v.chains[bb]))
  {
    InsertOk(v.head, v.chains, v.home, v.memory, v.elements, Bucket(hash), addr, entry);
  }

  /**
   * After one entry is appended to bucket `b`, every string that was found
   * is found at the same entry, and the appended entry is found for its
   * own string if nothing was found before.
   */
  lemma LookupKept(before: map<nat, Entry>, after: map<nat, Entry>, chains: seq<seq<nat>>, chains': seq<seq<nat>>,
                   b: nat, addr: nat, name: Bytes, h: bv64)
    requires Chained(before, chains) && Chained(after, chains') && b < NumBuckets
    requires chains' == chains[b := chains[b] + [addr]] && addr in after && WellFormed(after[addr])
    requires forall bb :: 0 <= bb < NumBuckets ==> Unchanged(before, after, chains[bb])
    ensures Lookup(before, chains, name, h).Some? ==> Lookup(after, chains', name, h) == Lookup(before, chains, name, h)
    ensures Lookup(before, chains, name, h).None? && Bucket(h) == b && Holds(after, addr, name) ==>
      Lookup(after, chains', name, h) == Some(addr)
  {
    var bb := Bucket(h);
    assert Unchanged(before, after, chains[bb]);
    assert chains[bb] <= chains'[bb];
    MatchKept(before, after, chains[bb], chains'[bb], name);
  }

  /**
   * Linking a fresh entry at the tail of bucket `b` and registering it at
   * the next index keeps the table and the reference map consistent, adds
   * its string to the registered ones, and changes no other entry's string.
   */
  lemma InsertOk(head: seq<Option<nat>>, chains: seq<seq<nat>>, home: map<nat, nat>, memory: map<nat, Entry>,
                 elements: seq<nat>, b: nat, addr: nat, entry: Entry)
    requires TableOk(head, chains, home, memory) && Registered(memory, elements)
    requires b < NumBuckets && addr !in memory && |elements| < U32Max
    requires entry.next == None && WellFormed(entry) && entry.id == Some(FromRawParts(|elements|))
    ensures chains[b] != [] ==> chains[b][|chains[b]| - 1] in memory
    ensures var m := Appended(memory[addr := entry], chains[b], addr);
      && TableOk(if chains[b] == [] then head[b := Some(addr)] else head,
                 chains[b := chains[b] + [addr]], home[addr := b], m)
      && Registered(m, elements + [addr])
      && Texts(m, elements + [addr]) == Texts(memory, elements) + [AsStr(entry)]
      && (forall bb :: 0 <= bb < NumBuckets ==> Unchanged(memory, m, chains[bb]))
  {
    var chain := chains[b];
    assert InMemory(memory, chain);
    if chain != [] {
      assert chain[|chain| - 1] in memory;
    }
    var m := Appended(memory[addr := entry], chain, addr);
    AppendedExtends(memory, chain, addr, entry);
    var head' := if chain == [] then head[b := Some(addr)] else head;
    var chains' := chains[b := chain + [addr]];
    var home' := home[addr := b];
    forall bb | 0 <= bb < NumBuckets
      ensures Chain(m, head'[bb], chains'[bb]) && InMemory(m, chains'[bb])
      ensures Unchanged(memory, m, chains[bb])
    {
      ChainOk(memory, m, head, chains, home, b, addr, entry, bb);
    }
    forall bb, k | 0 <= bb < NumBuckets && 0 <= k < |chains'[bb]|
      ensures chains'[bb][k] in home' && home'[chains'[bb][k]] == bb
    {
      if bb != b || k < |chain| {
        assert chains'[bb][k] == chains[bb][k];
        assert chains[bb][k] in memory;
      }
    }
    assert Filled(m);
    assert TableOk(head', chains', home', m);
    RegisterOk(memory, m, elements, addr, entry);
  }

  /**
   * `after` is `before` with `entry` added at the fresh address `addr` and
   * at most some `next` links changed.
   */
  ghost predicate Extends(before: map<nat, Entry>, after: map<nat, Entry>, addr: nat, entry: Entry)
  {
    addr !in before && addr in after && after[addr] == entry
    && (forall a :: a in after ==> a in before || a == addr)
    && (forall a :: a in before ==>
          a in after && after[a].id == before[a].id && after[a].len == before[a].len && after[a].data == before[a].data)
  }

  /** The entries of `chain` hold the same strings in `after` as in `before`. */
  ghost predicate Unchanged(before: map<nat, Entry>, after: map<nat, Entry>, chain: seq<nat>)
  {
    forall k :: 0 <= k < |chain| && chain[k] in before ==>
      chain[k] in after && after[chain[k]].len == before[chain[k]].len && after[chain[k]].data == before[chain[k]].data
  }

  lemma AppendedExtends(memory: map<nat, Entry>, chain: seq<nat>, addr: nat, entry: Entry)
    requires InMemory(memory, chain) && addr !in memory
    requires chain != [] ==> chain[|chain| - 1] in memory
    ensures Extends(memory, Appended(memory[addr := entry], chain, addr), addr, entry)
  {
  }

  /** A chain stays a chain when an entry is written at a fresh address. */
  lemma FreshKeepsChain(memory: map<nat, Entry>, addr: nat, entry: Entry, first: Option<nat>, chain: seq<nat>)
    requires Chain(memory, first, chain) && addr !in memory
    ensures Chain(memory[addr := entry], first, chain)
  {
    var m := memory[addr := entry];
    forall k | 0 <= k < |chain|
      ensures Links(m, chain, k)
    {
      assert Links(memory, chain, k);
    }
  }

  /** Only the first entry of a chain can be its last: a chain does not revisit its tail. */
  lemma LastOnce(memory: map<nat, Entry>, first: Option<nat>, chain: seq<nat>, k: nat)
    requires Chain(memory, first, chain) && k + 1 < |chain|
    ensures chain[k] != chain[|chain| - 1]
  {
    assert Links(memory, chain, k);
    assert Links(memory, chain, |chain| - 1);
  }

  /** After the append, bucket `bb` is still a chain through allocated entries, with its strings unchanged. */
  lemma ChainOk(memory: map<nat, Entry>, m: map<nat, Entry>, head: seq<Option<nat>>, chains: seq<seq<nat>>,
                home: map<nat, nat>, b: nat, addr: nat, entry: Entry, bb: nat)
    requires TableOk(head, chains, home, memory) && b < NumBuckets && bb < NumBuckets
    requires entry.next == None && WellFormed(entry) && Extends(memory, m, addr, entry)
    requires chains[b] != [] ==> chains[b][|chains[b]| - 1] in memory
    requires m == Appended(memory[addr := entry], chains[b], addr)
    ensures var head' := if chains[b] == [] then head[b := Some(addr)] else head;
      var chains' := chains[b := chains[b] + [addr]];
      Chain(m, head'[bb], chains'[bb]) && InMemory(m, chains'[bb]) && Unchanged(memory, m, chains[bb])
  {
    var chain := chains[b];
    var c := chains[bb];
    assert Chain(memory, head[bb], c) && InMemory(memory, c);
    if bb == b {
      var c' := c + [addr];
      forall k | 0 <= k < |c'|
        ensures Links(m, c', k)
      {
        if k + 1 < |c| {
          LastOnce(memory, head[b], c, k);
          assert Links(memory, c, k);
        } else if k + 1 == |c| {
          assert c'[k] == c[|c| - 1];
        }
      }
    } else {
      forall k | 0 <= k < |c|
        ensures Links(m, c, k)
      {
        assert Links(memory, c, k);
        assert home[c[k]] == bb;
        if chain != [] {
          assert home[chain[|chain| - 1]] == b;
        }
      }
    }
  }

  /** The fresh entry, registered at the next index, keeps the reference map and the ids inverse. */
  lemma RegisterOk(memory: map<nat, Entry>, m: map<nat, Entry>, elements: seq<nat>, addr: nat, entry: Entry)
    requires Registered(memory, elements) && Filled(memory) && Filled(m) && Extends(memory, m, addr, entry)
    requires |elements| < U32Max && entry.id == Some(FromRawParts(|elements|))
    ensures Registered(m, elements + [addr])
    ensures Texts(m, elements + [addr]) == Texts(memory, elements) + [AsStr(entry)]
  {
    var es := elements + [addr];
    forall i | 0 <= i < |es|
      ensures es[i] in m && m[es[i]].id.Some? && Get(m[es[i]].id.value) == i
    {
      if i < |elements| {
        assert es[i] == elements[i];
      }
    }
    assert Registered(m, es);
    var t := Texts(m, es);
    var t0 := Texts(memory, elements);
    forall i | 0 <= i < |es|
      ensures t[i] == (t0 + [AsStr(entry)])[i]
    {
      if i < |elements| {
        assert es[i] == elements[i];
      }
    }
  }

  /**
   * Extending a chain at its tail, without changing the strings of its
   * entries, keeps the first match it had; if it had none, it now matches
   * at the new entry exactly when that entry holds the string.
   */
  lemma MatchKept(before: map<nat, Entry>, after: map<nat, Entry>, chain: seq<nat>, chain': seq<nat>, name: Bytes)
    requires InMemory(before, chain) && InMemory(after, chain') && chain <= chain'
    requires Unchanged(before, after, chain)
    ensures FirstMatch(before, chain, name).Some? ==> FirstMatch(after, chain', name) == FirstMatch(before, chain, name)
    ensures FirstMatch(before, chain, name).None? && chain' == chain ==> FirstMatch(after, chain', name) == None
    ensures FirstMatch(before, chain, name).None? && |chain'| == |chain| + 1 ==>
      FirstMatch(after, chain', name) == if Holds(after, chain'[|chain|], name) then Some(|chain|) else None
  {
    forall k | 0 <= k < |chain|
      ensures Holds(after, chain'[k], name) == Holds(before, chain[k], name)
    {
      assert chain'[k] == chain[k];
    }
  }
}
