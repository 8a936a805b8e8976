/**
 * `Entry`: the header and the bytes of one interned string, laid out in an
 * allocator page. The `next` link threads the entries of one hash bucket.
 * Addresses are plain numbers; a null pointer is `None`.
 */
module StringEntries {
  import opened Wrappers
  import opened Bytes
  import opened StringIds

  /** `PAGE_SIZE`: the allocator's page, 64 KiB. */
  const PageSize: nat := 64 * 1024

  /** The size of a pointer on the 64-bit target. */
  const PointerSize: nat := 8

  /** `DATA_OFFSET`: `next` (a pointer), `id` (4 bytes) and `len` (2 bytes) precede the data. */
  const DataOffset: nat := 6 + PointerSize

  /** `MAX_STRING_LENGTH`: the longest string whose entry fits one page. */
  const MaxStringLength: nat := PageSize - DataOffset

  /** `align_of::<Entry>()`: the alignment of its pointer field. */
  const EntryAlign: nat := PointerSize

  /**
   * An entry as it sits in memory: `data` holds at least `len` bytes, the
   * first `len` of which are the string.
   */
  datatype Entry = Entry(next: Option<nat>, id: Option<StringId>, len: nat, data: Bytes)

  /** An entry the allocator has filled in: its length fits `u16` and its bytes are there. */
  predicate WellFormed(e: Entry)
  {
    e.len <= MaxStringLength && e.len <= |e.data|
  }

  /** `id()`: the id, which must have been assigned (a debug assertion otherwise). */
  function Id(e: Entry): (r: StringId)
    requires e.id.Some?
    ensures e.id == Some(r)
  {
    e.id.value
  }

  /** `as_str()`: the first `len` bytes of the data. */
  function AsStr(e: Entry): (r: Bytes)
    requires WellFormed(e)
    ensures |r| == e.len && r == e.data[..e.len]
  {
    e.data[..e.len]
  }

  /** `is_empty()`: holds exactly for the empty string. */
  function IsEmpty(e: Entry): (r: bool)
    requires WellFormed(e)
    ensures r <==> AsStr(e) == []
  {
    e.len == 0
  }

  /**
   * The entries reached by `iter()` from `first`: `chain` lists their
   * addresses in order; each one is in memory and links to the next, and the
   * last has a null link.
   */
  ghost predicate Chain(memory: map<nat, Entry>, first: Option<nat>, chain: seq<nat>)
  {
    (first == None <==> chain == [])
    && (chain != [] ==> first == Some(chain[0]))
    && forall k :: 0 <= k < |chain| ==> Links(memory, chain, k)
  }

  ghost predicate Links(memory: map<nat, Entry>, chain: seq<nat>, k: nat)
    requires k < |chain|
  {
    chain[k] in memory
    && memory[chain[k]].next == (if k + 1 < |chain| then Some(chain[k + 1]) else None)
  }

  /** `Entries`: the iterator `iter()` returns, walking a bucket chain. */
  class Entries {
    var current: Option<nat>
    /** The addresses still to be yielded. */
    ghost var remaining: seq<nat>

    /** `iter()` on the entry at `first`: it is yielded first. */
    constructor (ghost memory: map<nat, Entry>, first: nat, ghost chain: seq<nat>)
      requires Chain(memory, Some(first), chain)
      ensures current == Some(first) && remaining == chain
    {
      current := Some(first);
      remaining := chain;
    }

    /** `next()`: yields the current entry and follows its `next` link; `None` once the chain ends. */
    method Next(memory: map<nat, Entry>) returns (r: Option<nat>)
      requires Chain(memory, current, remaining)
      modifies this
      ensures old(remaining) == [] ==> r == None && remaining == []
      ensures old(remaining) != [] ==> r == Some(old(remaining)[0]) && remaining == old(remaining)[1..]
      ensures Chain(memory, current, remaining)
    {
      match current
      case None =>
        r := None;
      case Some(a) =>
        assert Links(memory, remaining, 0);
        current := memory[a].next;
        r := Some(a);
        remaining := remaining[1..];
        forall k | 0 <= k < |remaining|
          ensures Links(memory, remaining, k)
        {
          assert Links(memory, old(remaining), k + 1);
        }
    }
  }
}
