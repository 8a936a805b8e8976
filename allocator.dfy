/**
 * The string allocator: a bump allocator handing out entries from 64 KiB
 * pages. Addresses are numbers (0 is null); the bytes of the pages are
 * modelled by `memory`, the entries placed so far, keyed by address.
 */
module StringAllocator {
  import opened Wrappers
  import opened Bytes
  import opened StringEntries
  import opened StringIds

  /** `aligned_offset` as a function of the address: the distance to the next multiple of the entry alignment. */
  function AlignedOffset(addr: nat): (r: nat)
    ensures r < EntryAlign && (addr + r) % EntryAlign == 0
    ensures addr % EntryAlign == 0 ==> r == 0
  {
    var remainder := addr % EntryAlign;
    if remainder == 0 then 0 else EntryAlign - remainder
  }

  /** Rounding up to the alignment never passes an aligned bound. */
  lemma AlignedBelow(addr: nat, bound: nat)
    requires addr <= bound && bound % EntryAlign == 0
    ensures addr + AlignedOffset(addr) <= bound
  {
  }

  /** The entry `allocate` writes for `s`: no id, no successor, the bytes of `s`. */
  function NewEntry(s: Bytes): (e: Entry)
    requires |s| <= MaxStringLength
    ensures WellFormed(e) && AsStr(e) == s && e.id == None && e.next == None
  {
    Entry(None, None, |s|, s)
  }

  class Allocator {
    /** `current_pool_start`: where the next entry goes. */
    var start: nat
    /** `current_pool_end`: the end of the current page. */
    var end: nat
    /** Every page taken so far, in order. */
    var pools: seq<nat>
    /** The entries written into the pages, by address. */
    var memory: map<nat, Entry>

    /**
     * The bump pointer stays aligned and inside the current page, every page
     * lies above the previous one, and every entry lies below the bump pointer.
     */
    ghost predicate Valid()
      reads this
    {
      start <= end
      && start % EntryAlign == 0 && end % EntryAlign == 0
      && (pools == [] ==> start == 0 && end == 0 && memory == map[])
      && (pools != [] ==> 0 < pools[|pools| - 1] <= start && end == pools[|pools| - 1] + PageSize)
      && (forall i, j :: 0 <= i < j < |pools| ==> pools[i] + PageSize <= pools[j])
      && (forall a :: a in memory ==> a < start && WellFormed(memory[a]))
    }

    /** `Allocator::new()`: null pointers and no pages, so no capacity. */
    constructor ()
      ensures Valid() && start == 0 && end == 0 && pools == [] && memory == map[]
      ensures Capacity() == 0
    {
      start := 0;
      end := 0;
      pools := [];
      memory := map[];
    }

    /** `capacity()`: the bytes left in the current page. */
    function Capacity(): (r: nat)
      requires Valid()
      reads this
      ensures start + r == end
    {
      end - start
    }

    /**
     * `allocate_page()`: takes the zeroed page the system allocator returns
     * at `page` and records it. The system allocator is outside the model:
     * its answer is a parameter, non-null, aligned and above earlier pages.
     */
    method AllocatePage(page: nat)
      requires Valid() && 0 < page && page % EntryAlign == 0 && page >= end
      modifies this
      ensures Valid()
      ensures start == page && end == page + PageSize && Capacity() == PageSize
      ensures pools == old(pools) + [page] && memory == old(memory)
    {
      start := page;
      end := page + PageSize;
      pools := pools + [page];
    }

    /**
     * `allocate(s)`: a new page is taken exactly when the current one has
     * less than `len + DATA_OFFSET` bytes left, and reported as
     * `(PAGE_SIZE, 1)`; the entry goes at the bump pointer, which then
     * advances past it and is rounded up to the entry alignment.
     */
    method Allocate(s: Bytes, page: nat) returns (addr: nat, used: nat, chunks: nat)
      requires Valid() && |s| <= MaxStringLength
      requires 0 < page && page % EntryAlign == 0 && page >= end
      modifies this
      ensures Valid()
      ensures old(Capacity()) < |s| + DataOffset ==>
        addr == page && used == PageSize && chunks == 1 && pools == old(pools) + [page]
      ensures old(Capacity()) >= |s| + DataOffset ==>
        addr == old(start) && used == 0 && chunks == 0 && pools == old(pools)
      ensures addr !in old(memory) && memory == old(memory)[addr := NewEntry(s)]
      ensures start == addr + |s| + DataOffset + AlignedOffset(addr + |s| + DataOffset)
    {
      if Capacity() < |s| + DataOffset {
        AllocatePage(page);
        used, chunks := PageSize, 1;
      } else {
        used, chunks := 0, 0;
      }
      addr := start;
      var next := start + |s| + DataOffset;
      AlignedBelow(next, end);
      start := next + AlignedOffset(next);
      memory := memory[addr := NewEntry(s)];
    }

    /** `(*entry).id = Some(id)`: a write through an entry pointer changes only that entry's id. */
    method SetId(addr: nat, id: StringId)
      requires Valid() && addr in memory
      modifies this
      ensures Valid() && memory == old(memory)[addr := old(memory)[addr].(id := Some(id))]
      ensures start == old(start) && end == old(end) && pools == old(pools)
    {
      memory := memory[addr := memory[addr].(id := Some(id))];
    }

    /** `next.store(entry)`: a write through an entry pointer changes only that entry's link. */
    method SetNext(addr: nat, next: nat)
      requires Valid() && addr in memory
      modifies this
      ensures Valid() && memory == old(memory)[addr := old(memory)[addr].(next := Some(next))]
      ensures start == old(start) && end == old(end) && pools == old(pools)
    {
      memory := memory[addr := memory[addr].(next := Some(next))];
    }

    /** `drop`: every page recorded is freed, each exactly once. */
    method Drop() returns (freed: seq<nat>)
      requires Valid()
      ensures freed == pools
      ensures forall i, j :: 0 <= i < j < |freed| ==> freed[i] != freed[j]
    {
      freed := [];
      var i := 0;
      while i < |pools|
        invariant i <= |pools| && freed == pools[..i]
      {
        freed := freed + [pools[i]];
        i := i + 1;
      }
    }
  }
}
