/**
 * The sparse slot map: a vector of slots, each occupied (holding a value),
 * reserved (handed out by `CreateKey` from a new slot and not yet filled) or
 * free. Free slots form a LIFO list threaded through their entries, starting
 * at `freeHead` and ending at the index one past the last slot. A key is live
 * iff its slot is occupied and carries the key's version.
 */
module SparseSlotMap {
  import opened Wrappers
  import opened SlotEntries
  import opened Slots
  import opened SlotKeys

  /** Every slot is well formed. */
  ghost predicate SlotsWf<T>(w: Width, s: seq<Slot<T>>)
  {
    forall i :: 0 <= i < |s| ==> s[i].Wf(w)
  }

  /** The number of occupied slots in `s[from..]`. */
  function CountFrom<T>(w: Width, s: seq<Slot<T>>, from: nat): nat
    decreases |s| - from
  {
    if from >= |s| then 0
    else (if s[from].Occupied(w) then 1 else 0) + CountFrom(w, s, from + 1)
  }

  /** The entry slot `i` contributes to the live entries: its key and value if it is occupied. */
  function LiveAt<T>(w: Width, s: seq<Slot<T>>, i: nat): (r: seq<(Key, T)>)
    requires SlotsWf(w, s) && i < |s|
    ensures |r| == if s[i].Occupied(w) then 1 else 0
    ensures r != [] ==> r[0].0.index == i && Lookup(w, s, r[0].0) == Some(r[0].1)
  {
    if s[i].Occupied(w) then [(Key(i, s[i].Version(w)), ValueAt(w, s[i]))] else []
  }

  /**
   * The live entries of `s[from..]`, in ascending slot order: the key each
   * occupied slot answers to, with its value. This is what every iterator of
   * the map yields.
   */
  function Entries<T>(w: Width, s: seq<Slot<T>>, from: nat): (r: seq<(Key, T)>)
    requires SlotsWf(w, s)
    ensures |r| == CountFrom(w, s, from)
    decreases |s| - from
  {
    if from >= |s| then [] else LiveAt(w, s, from) + Entries(w, s, from + 1)
  }

  /** Every live entry from `from` sits in a slot from `from` on. */
  lemma {:induction false} EntriesInRange<T>(w: Width, s: seq<Slot<T>>, from: nat)
    requires SlotsWf(w, s)
    ensures forall e :: e in Entries(w, s, from) ==> from <= e.0.index < |s|
    decreases |s| - from
  {
    if from < |s| {
      EntriesInRange(w, s, from + 1);
    }
  }

  /** The live entries are listed in strictly ascending slot order. */
  lemma {:induction false} EntriesAscending<T>(w: Width, s: seq<Slot<T>>, from: nat)
    requires SlotsWf(w, s)
    ensures forall i, j :: 0 <= i < j < |Entries(w, s, from)| ==> Entries(w, s, from)[i].0.index < Entries(w, s, from)[j].0.index
    decreases |s| - from
  {
    if from < |s| {
      EntriesAscending(w, s, from + 1);
      EntriesInRange(w, s, from + 1);
      var l, rest := LiveAt(w, s, from), Entries(w, s, from + 1);
      var r := Entries(w, s, from);
      assert r == l + rest;
      forall i, j | 0 <= i < j < |r|
        ensures r[i].0.index < r[j].0.index
      {
        if i < |l| {
          assert r[i] == l[0] && l[0].0.index == from;
          assert r[j] == rest[j - |l|] && r[j] in rest;
          assert from + 1 <= r[j].0.index;
        } else {
          assert r[i] == rest[i - |l|] && r[j] == rest[j - |l|];
          assert rest[i - |l|].0.index < rest[j - |l|].0.index;
        }
      }
    }
  }

  /** The live entries of `s[from..until]`, in ascending slot order. */
  function EntriesBetween<T>(w: Width, s: seq<Slot<T>>, from: nat, until: nat): (r: seq<(Key, T)>)
    requires SlotsWf(w, s) && from <= until <= |s|
    ensures forall i :: 0 <= i < |r| ==> from <= r[i].0.index < until
    decreases until - from
  {
    if until == from then [] else EntriesBetween(w, s, from, until - 1) + LiveAt(w, s, until - 1)
  }

  /** The live entries from `from` are those before `c` followed by those from `c`. */
  lemma {:induction false} EntriesSplit<T>(w: Width, s: seq<Slot<T>>, from: nat, c: nat)
    requires SlotsWf(w, s) && from <= c <= |s|
    ensures Entries(w, s, from) == EntriesBetween(w, s, from, c) + Entries(w, s, c)
    decreases c - from
  {
    if c > from {
      EntriesSplit(w, s, from, c - 1);
      SplitStep(w, s, from, c);
    } else {
      SplitEmpty(EntriesBetween(w, s, from, c), Entries(w, s, c));
    }
  }

  /** One step of `EntriesSplit`: the split before `c - 1` gives the split before `c`. */
  lemma SplitStep<T>(w: Width, s: seq<Slot<T>>, from: nat, c: nat)
    requires SlotsWf(w, s) && from < c <= |s|
    requires Entries(w, s, from) == EntriesBetween(w, s, from, c - 1) + Entries(w, s, c - 1)
    ensures Entries(w, s, from) == EntriesBetween(w, s, from, c) + Entries(w, s, c)
  {
    var a, b, d := EntriesBetween(w, s, from, c - 1), LiveAt(w, s, c - 1), Entries(w, s, c);
    assert Entries(w, s, c - 1) == b + d;
    assert EntriesBetween(w, s, from, c) == a + b;
    ConcatAssociative(a, b, d);
  }

  /** An empty prefix adds nothing. */
  lemma SplitEmpty<X>(a: seq<X>, d: seq<X>)
    requires a == []
    ensures a + d == d
  {
  }

  /** Concatenation is associative. */
  lemma ConcatAssociative<X>(a: seq<X>, b: seq<X>, d: seq<X>)
    ensures a + (b + d) == (a + b) + d
  {
  }

  /** Slots that are not occupied contribute nothing: skipping them leaves the entries as they are. */
  lemma {:induction false} EntriesSkip<T>(w: Width, s: seq<Slot<T>>, from: nat, c: nat)
    requires SlotsWf(w, s) && from <= c <= |s|
    requires forall i :: from <= i < c ==> !s[i].Occupied(w)
    ensures Entries(w, s, from) == Entries(w, s, c)
    decreases c - from
  {
    if from < c {
      assert !s[from].Occupied(w);
      assert LiveAt(w, s, from) == [];
      EntriesSkip(w, s, from + 1, c);
      assert Entries(w, s, from) == [] + Entries(w, s, from + 1);
    }
  }

  /** The entries from `from` do not depend on the slots before `from`. */
  lemma {:induction false} EntriesUnchangedBefore<T>(w: Width, s: seq<Slot<T>>, j: nat, x: Slot<T>, from: nat)
    requires j < from && j < |s| && SlotsWf(w, s) && SlotsWf(w, s[j := x])
    ensures Entries(w, s[j := x], from) == Entries(w, s, from)
    decreases |s| - from
  {
    if from < |s| {
      EntriesUnchangedBefore(w, s, j, x, from + 1);
    }
  }

  /** The entries before `until` do not depend on the slots from `until` on. */
  lemma {:induction false} EntriesBetweenUnchangedAfter<T>(w: Width, s: seq<Slot<T>>, j: nat, x: Slot<T>, from: nat, until: nat)
    requires from <= until <= j < |s| && SlotsWf(w, s) && SlotsWf(w, s[j := x])
    ensures EntriesBetween(w, s[j := x], from, until) == EntriesBetween(w, s, from, until)
    decreases until - from
  {
    if from < until {
      EntriesBetweenUnchangedAfter(w, s, j, x, from, until - 1);
    }
  }

  /** The entries from `from` depend only on the slots from `from` on. */
  lemma {:induction false} EntriesSuffixEqual<T>(w: Width, s: seq<Slot<T>>, t: seq<Slot<T>>, from: nat)
    requires SlotsWf(w, s) && SlotsWf(w, t) && |s| == |t|
    requires forall i :: from <= i < |s| ==> s[i] == t[i]
    ensures Entries(w, s, from) == Entries(w, t, from)
    decreases |s| - from
  {
    if from < |s| {
      EntriesSuffixEqual(w, s, t, from + 1);
    }
  }

  /**
   * Emptying the first occupied slot removes exactly the first live entry:
   * the step `Drain` takes.
   */
  lemma DrainStep<T>(w: Width, s0: seq<Slot<T>>, s1: seq<Slot<T>>, idx: nat)
    requires SlotsWf(w, s0) && SlotsWf(w, s1) && idx < |s0| == |s1|
    requires forall i :: 0 <= i < idx ==> !s0[i].Occupied(w)
    requires s0[idx].Occupied(w) && !s1[idx].Occupied(w)
    requires forall i :: 0 <= i < |s1| && i != idx ==> s1[i] == s0[i]
    ensures Entries(w, s0, 0) != [] && Entries(w, s0, 0)[0] == (Key(idx, s0[idx].Version(w)), ValueAt(w, s0[idx]))
    ensures Entries(w, s1, 0) == Entries(w, s0, 0)[1..]
    ensures forall i :: 0 <= i <= idx ==> !s1[i].Occupied(w)
  {
    assert s1 == s0[idx := s1[idx]];
    EntriesSkip(w, s0, 0, idx);
    EntriesSkip(w, s1, 0, idx + 1);
    EntriesUnchangedBefore(w, s0, idx, s1[idx], idx + 1);
  }

  /** The entry a key reaches in `s`, if it is live. */
  function Lookup<T>(w: Width, s: seq<Slot<T>>, key: Key): (r: Option<T>)
    requires SlotsWf(w, s)
    ensures r.Some? <==> key.index < |s| && s[key.index].Occupied(w) && s[key.index].Version(w) == key.version
    ensures r.Some? ==> s[key.index].entry == Value(r.value)
  {
    if key.index < |s| && s[key.index].Occupied(w) && s[key.index].Version(w) == key.version then
      match s[key.index].entry
      case Value(v) => Some(v)
      case _ => None
    else None
  }

  /** Replacing slot `j` changes what no key of another slot reaches. */
  lemma LookupUpdate<T>(w: Width, s: seq<Slot<T>>, j: nat, x: Slot<T>)
    requires SlotsWf(w, s) && j < |s| && SlotsWf(w, s[j := x])
    ensures forall k: Key :: k.index != j ==> Lookup(w, s[j := x], k) == Lookup(w, s, k)
  {
  }

  /** Appending a slot that is not occupied changes what no key reaches. */
  lemma LookupAppend<T>(w: Width, s: seq<Slot<T>>, x: Slot<T>)
    requires SlotsWf(w, s) && SlotsWf(w, s + [x]) && !x.Occupied(w)
    ensures forall k: Key :: Lookup(w, s + [x], k) == Lookup(w, s, k)
  {
  }

  /** Exactly the occupied slots are listed by `Entries`, each with the key `Lookup` answers to. */
  lemma {:induction false} EntriesAreLive<T>(w: Width, s: seq<Slot<T>>, from: nat, key: Key, v: T)
    requires SlotsWf(w, s)
    ensures (key, v) in Entries(w, s, from) <==> from <= key.index && Lookup(w, s, key) == Some(v)
    decreases |s| - from
  {
    if from < |s| {
      EntriesAreLive(w, s, from + 1, key, v);
    }
  }

  /** Replacing one slot changes the count by that slot's own contribution only. */
  lemma {:induction false} CountUpdate<T>(w: Width, s: seq<Slot<T>>, j: nat, x: Slot<T>, from: nat)
    requires j < |s|
    ensures CountFrom(w, s[j := x], from)
            == CountFrom(w, s, from)
               + (if from <= j then (if x.Occupied(w) then 1 else 0) - (if s[j].Occupied(w) then 1 else 0) else 0)
    decreases |s| - from
  {
    if from < |s| {
      CountUpdate(w, s, j, x, from + 1);
    }
  }

  /** Appending a slot adds its own contribution to the count. */
  lemma {:induction false} CountAppend<T>(w: Width, s: seq<Slot<T>>, x: Slot<T>, from: nat)
    requires from <= |s|
    ensures CountFrom(w, s + [x], from) == CountFrom(w, s, from) + (if x.Occupied(w) then 1 else 0)
    decreases |s| - from
  {
    if from < |s| {
      CountAppend(w, s, x, from + 1);
    } else {
      assert (s + [x])[from] == x;
    }
  }

  /** The count is zero iff no slot is occupied. */
  lemma {:induction false} CountZero<T>(w: Width, s: seq<Slot<T>>, from: nat)
    ensures CountFrom(w, s, from) == 0 <==> forall i :: from <= i < |s| ==> !s[i].Occupied(w)
    decreases |s| - from
  {
    if from < |s| {
      CountZero(w, s, from + 1);
    }
  }

  /** The link stored in the `k`-th free slot: the next one, or one past the last slot. */
  function NextLink(freeList: seq<nat>, k: nat, end: nat): nat
  {
    if k + 1 < |freeList| then freeList[k + 1] else end
  }

  /**
   * The free list: `freeHead` is its first element (one past the last slot
   * when it is empty), every element is a distinct free slot whose entry
   * holds the next element, and the last one holds one past the last slot.
   * Every free slot is on the list or is one `CreateKey` took off the list
   * and has not been filled yet (`pending`).
   */
  ghost predicate FreeListOk<T>(w: Width, s: seq<Slot<T>>, freeHead: nat, freeList: seq<nat>, pending: set<nat>)
  {
    && freeHead == (if freeList == [] then |s| else freeList[0])
    && (forall k :: 0 <= k < |freeList| ==> freeList[k] < |s|)
    && (forall k {:trigger s[freeList[k]]} :: 0 <= k < |freeList| ==> s[freeList[k]].entry == Index(NextLink(freeList, k, |s|)))
    && (forall a, b :: 0 <= a < b < |freeList| ==> freeList[a] != freeList[b])
    && (forall i :: i in pending ==> i < |s| && s[i].entry.Index? && i !in freeList)
    && (forall i :: 0 <= i < |s| && s[i].entry.Index? ==> i in freeList || i in pending)
  }

  /** Replacing one well-formed slot by another keeps every slot well formed. */
  lemma SlotsWfUpdate<T>(w: Width, s: seq<Slot<T>>, j: nat, x: Slot<T>)
    requires SlotsWf(w, s) && j < |s| && x.Wf(w)
    ensures SlotsWf(w, s[j := x])
  {
  }

  /** Overwriting a slot that is not free with another that is not free leaves the free list alone. */
  lemma FreeListAfterFill<T>(w: Width, s: seq<Slot<T>>, fh: nat, fl: seq<nat>, p: set<nat>, j: nat, x: Slot<T>)
    requires FreeListOk(w, s, fh, fl, p)
    requires j < |s| && !s[j].entry.Index? && !x.entry.Index?
    ensures FreeListOk(w, s[j := x], fh, fl, p)
  {
  }

  /** Filling a pending slot takes it out of `pending` and leaves the free list alone. */
  lemma FreeListAfterFillPending<T>(w: Width, s: seq<Slot<T>>, fh: nat, fl: seq<nat>, p: set<nat>, j: nat, x: Slot<T>)
    requires FreeListOk(w, s, fh, fl, p)
    requires j in p && !x.entry.Index?
    ensures FreeListOk(w, s[j := x], fh, fl, p - {j})
  {
  }

  /** Freeing a slot that was not free, linked to the old head, pushes it on the free list. */
  lemma FreeListAfterPush<T>(w: Width, s: seq<Slot<T>>, fh: nat, fl: seq<nat>, p: set<nat>, j: nat, x: Slot<T>)
    requires FreeListOk(w, s, fh, fl, p)
    requires j < |s| && !s[j].entry.Index? && x.entry == Index(fh)
    ensures FreeListOk(w, s[j := x], j, [j] + fl, p)
  {
    assert j !in fl;
    PushLinks(s, fl, j, x);
    PushDistinct(fl, j);
    var s', fl' := s[j := x], [j] + fl;
    forall i | i in p ensures i < |s'| && s'[i].entry.Index? && i !in fl' {
    }
    forall i | 0 <= i < |s'| && s'[i].entry.Index? ensures i in fl' || i in p {
      if i != j {
        assert s[i].entry.Index?;
      }
    }
  }

  /** The links of a free list with a slot pushed on its front, the pushed slot linking to the old head. */
  lemma PushLinks<T>(s: seq<Slot<T>>, fl: seq<nat>, j: nat, x: Slot<T>)
    requires forall k :: 0 <= k < |fl| ==> fl[k] < |s| && s[fl[k]].entry == Index(NextLink(fl, k, |s|))
    requires j < |s| && j !in fl && x.entry == Index(if fl == [] then |s| else fl[0])
    ensures forall k :: 0 <= k < |[j] + fl| ==>
              ([j] + fl)[k] < |s[j := x]| && s[j := x][([j] + fl)[k]].entry == Index(NextLink([j] + fl, k, |s[j := x]|))
  {
    var s', fl' := s[j := x], [j] + fl;
    forall k | 0 <= k < |fl'|
      ensures fl'[k] < |s'| && s'[fl'[k]].entry == Index(NextLink(fl', k, |s'|))
    {
      if k == 0 {
        assert fl'[0] == j;
      } else {
        assert fl'[k] == fl[k - 1] && fl[k - 1] != j;
        assert NextLink(fl', k, |s'|) == NextLink(fl, k - 1, |s|);
      }
    }
  }

  /** Pushing a slot that is not on a list of distinct slots keeps them distinct. */
  lemma PushDistinct(fl: seq<nat>, j: nat)
    requires forall a, b :: 0 <= a < b < |fl| ==> fl[a] != fl[b]
    requires j !in fl
    ensures forall a, b :: 0 <= a < b < |[j] + fl| ==> ([j] + fl)[a] != ([j] + fl)[b]
  {
    var fl' := [j] + fl;
    forall a, b | 0 <= a < b < |fl'| ensures fl'[a] != fl'[b] {
      assert fl'[b] == fl[b - 1];
      if a > 0 {
        assert fl'[a] == fl[a - 1];
      }
    }
  }

  /** Taking the head off the free list makes it pending. */
  lemma FreeListAfterPop<T>(w: Width, s: seq<Slot<T>>, fh: nat, fl: seq<nat>, p: set<nat>)
    requires FreeListOk(w, s, fh, fl, p)
    requires fh < |s|
    ensures fl != [] && fl[0] == fh
    ensures s[fh].entry.Index? && FreeListOk(w, s, s[fh].entry.index, fl[1..], p + {fh})
  {
    assert fl != [];
    var fl' := fl[1..];
    assert s[fh].entry == Index(NextLink(fl, 0, |s|));
    PopLinks(s, fl);
    forall i | i in p + {fh} ensures i < |s| && s[i].entry.Index? && i !in fl' {
      if i == fh {
        PopHeadNotInTail(fl);
      }
    }
    forall i | 0 <= i < |s| && s[i].entry.Index? ensures i in fl' || i in p + {fh} {
      if i !in p && i != fh {
        PopOthersInTail(fl, i);
      }
    }
  }

  /** The links of the tail of a free list are those the list stored after its head. */
  lemma PopLinks<T>(s: seq<Slot<T>>, fl: seq<nat>)
    requires fl != []
    requires forall k :: 0 <= k < |fl| ==> fl[k] < |s| && s[fl[k]].entry == Index(NextLink(fl, k, |s|))
    ensures forall k :: 0 <= k < |fl[1..]| ==> fl[1..][k] < |s| && s[fl[1..][k]].entry == Index(NextLink(fl[1..], k, |s|))
  {
    forall k | 0 <= k < |fl[1..]|
      ensures fl[1..][k] < |s| && s[fl[1..][k]].entry == Index(NextLink(fl[1..], k, |s|))
    {
      assert fl[1..][k] == fl[k + 1];
      assert NextLink(fl[1..], k, |s|) == NextLink(fl, k + 1, |s|);
    }
  }

  /** The head of a list of distinct slots is not in its tail. */
  lemma PopHeadNotInTail(fl: seq<nat>)
    requires fl != [] && forall a, b :: 0 <= a < b < |fl| ==> fl[a] != fl[b]
    ensures fl[0] !in fl[1..]
  {
    forall k | 0 <= k < |fl[1..]| ensures fl[1..][k] != fl[0] {
      assert fl[1..][k] == fl[k + 1];
    }
  }

  /** An element of a list other than its head is in its tail. */
  lemma PopOthersInTail(fl: seq<nat>, i: nat)
    requires fl != [] && i in fl && i != fl[0]
    ensures i in fl[1..]
  {
    var k :| 0 <= k < |fl| && fl[k] == i;
    assert fl[1..][k - 1] == i;
  }

  /** Appending a reserved slot when the free list is empty keeps it empty, ending one further. */
  lemma FreeListAfterAppend<T>(w: Width, s: seq<Slot<T>>, fh: nat, fl: seq<nat>, p: set<nat>, x: Slot<T>)
    requires FreeListOk(w, s, fh, fl, p)
    requires fh >= |s| && x.entry.Reserved?
    ensures fl == [] && fh == |s|
    ensures FreeListOk(w, s + [x], |s| + 1, fl, p)
  {
    assert forall i :: 0 <= i < |s| ==> (s + [x])[i] == s[i];
  }

  class SlotMap<T> {
    const width: Width
    var slots: seq<Slot<T>>
    var freeHead: nat
    var len: nat
    /** The free list, in order from `freeHead`. */
    ghost var freeList: seq<nat>
    /** Free slots that `CreateKey` took off the free list and that are not filled yet. */
    ghost var pending: set<nat>

    ghost predicate Valid()
      reads this
    {
      && |slots| <= IdxMax(width)
      && SlotsWf(width, slots)
      && len == CountFrom(width, slots, 0)
      && FreeListOk(width, slots, freeHead, freeList, pending)
    }

    /** The live entries in slot order. */
    ghost function Contents(): seq<(Key, T)>
      reads this
      requires Valid()
    {
      Entries(width, slots, 0)
    }

    /** `with_capacity`: no slots, `free_head` 0, `len` 0 (the capacity is not observable). */
    constructor WithCapacity(w: Width, capacity: nat)
      ensures Valid() && fresh(this)
      ensures width == w && slots == [] && freeHead == 0 && len == 0
      ensures Contents() == []
    {
      width := w;
      slots := [];
      freeHead := 0;
      len := 0;
      freeList := [];
      pending := {};
    }

    /** `len`: the number of live entries. */
    function Len(): (n: nat)
      reads this
      requires Valid()
      ensures n == |Entries(width, slots, 0)|
    {
      len
    }

    /** `is_empty`: no slot is occupied. */
    function IsEmpty(): (b: bool)
      reads this
      requires Valid()
      ensures b <==> forall i :: 0 <= i < |slots| ==> !slots[i].Occupied(width)
    {
      CountZero(width, slots, 0);
      len == 0
    }

    /** `get`: the value a live key reaches; `None` for any other key. */
    function Get(key: Key): (r: Option<T>)
      reads this
      requires Valid()
      ensures r.Some? <==> key.index < |slots| && slots[key.index].Occupied(width) && slots[key.index].Version(width) == key.version
      ensures r.Some? ==> slots[key.index].entry == Value(r.value)
    {
      Lookup(width, slots, key)
    }

    /** `contains_key`: the slot exists, is occupied and carries the key's version. */
    predicate ContainsKey(key: Key)
      reads this
      requires Valid()
      ensures ContainsKey(key) <==> Get(key).Some?
    {
      key.index < |slots| && slots[key.index].Occupied(width) && slots[key.index].Version(width) == key.version
    }

    /** `Index`: the value of a live key; any other key panics with "Invalid key". */
    function At(key: Key): (v: T)
      reads this
      requires Valid() && ContainsKey(key)
      ensures Get(key) == Some(v)
    {
      Get(key).value
    }

    /**
     * `create_key`. If `freeHead` names a slot, that slot is taken off the
     * free list (it stays free, and is not marked reserved) and the key carries
     * its version. Otherwise a new reserved slot with version 1 is pushed,
     * which panics once the number of slots has reached `Idx::MAX`.
     */
    method CreateKey() returns (key: Key)
      requires Valid()
      requires freeHead < |slots| || |slots| < IdxMax(width)
      modifies this
      ensures Valid()
      ensures len == old(len) && !ContainsKey(key)
      ensures old(freeHead) < old(|slots|) ==>
                && slots == old(slots)
                && key == Key(old(freeHead), old(slots[freeHead].Version(width)))
                && freeHead == old(NextFree(width, slots[freeHead]))
      ensures old(freeHead) >= old(|slots|) ==>
                && slots == old(slots) + [NewSlot(width)]
                && key == Key(old(|slots|), 1)
                && freeHead == old(|slots|) + 1
      ensures forall k: Key :: Get(k) == old(Get(k))
    {
      var idx := freeHead;
      if idx < |slots| {
        FreeListAfterPop(width, slots, freeHead, freeList, pending);
        freeHead := NextFree(width, slots[idx]);
        pending := pending + {idx};
        freeList := freeList[1..];
        key := NewKey(idx, slots[idx].Version(width));
        return;
      }
      var n := |slots|;
      FreeListAfterAppend(width, slots, freeHead, freeList, pending, NewSlot(width));
      CountAppend(width, slots, NewSlot(width), 0);
      LookupAppend(width, slots, NewSlot(width));
      slots := slots + [NewSlot(width)];
      freeHead := 1 + n;
      key := NewKey(idx, 1);
    }

    /**
     * `insert_with_key`. A key whose index is out of range or whose version
     * differs from the slot's gives the value back as `Err`. Otherwise the
     * value is stored, the previous value comes back, and `len` grows iff the
     * slot was not occupied.
     *
     * A slot that is neither occupied nor reserved makes the source reset
     * `free_head` to the slot's stored link. That is right only when the key
     * is the one `create_key` has just taken off the free list, as in
     * `insert`; the precondition states exactly that.
     */
    method InsertWithKey(key: Key, value: T) returns (r: Result<Option<T>, T>)
      requires Valid()
      requires key.index < |slots| && slots[key.index].Version(width) == key.version && slots[key.index].Free(width)
               ==> freeHead == NextFree(width, slots[key.index])
      modifies this
      ensures Valid()
      ensures !(old(key.index < |slots|) && old(slots[key.index].Version(width)) == key.version) ==>
                r == Err(value) && slots == old(slots) && freeHead == old(freeHead) && len == old(len)
      ensures old(key.index < |slots|) && old(slots[key.index].Version(width)) == key.version ==>
                && r == Ok(old(Get(key)))
                && slots == old(slots[key.index := SetValue(width, slots[key.index], value).0])
                && freeHead == old(freeHead)
                && len == old(len) + (if old(slots[key.index].Occupied(width)) then 0 else 1)
                && Get(key) == Some(value)
      ensures forall k: Key :: k.index != key.index ==> Get(k) == old(Get(k))
    {
      if key.index < |slots| {
        var slot := slots[key.index];
        if key.version != slot.Version(width) {
          return Err(value);
        }
        var (s', prev) := SetValue(width, slot, value);
        SlotsWfUpdate(width, slots, key.index, s');
        CountUpdate(width, slots, key.index, s', 0);
        LookupUpdate(width, slots, key.index, s');
        if slot.Free(width) {
          PendingIsNotListed(key.index);
          FreeListAfterFillPending(width, slots, freeHead, freeList, pending, key.index, s');
        } else {
          FreeListAfterFill(width, slots, freeHead, freeList, pending, key.index, s');
        }
        if !slot.Occupied(width) {
          len := len + 1;
          if !slot.Reserved(width) {
            freeHead := NextFree(width, slot);
            pending := pending - {key.index};
          }
        }
        slots := slots[key.index := s'];
        r := Ok(prev);
      } else {
        r := Err(value);
      }
    }

    /** A free slot whose stored link is `freeHead` cannot be on the free list. */
    lemma PendingIsNotListed(i: nat)
      requires Valid()
      requires i < |slots| && slots[i].Free(width) && freeHead == NextFree(width, slots[i])
      ensures i in pending
    {
      forall k | 0 <= k < |freeList|
        ensures NextLink(freeList, k, |slots|) != freeList[0]
      {
      }
    }

    /**
     * `insert`: `create_key` followed by `insert_with_key` with that key. The
     * key was not live before and now reaches the value; `len` grows by one.
     */
    method Insert(value: T) returns (key: Key)
      requires Valid()
      requires freeHead < |slots| || |slots| < IdxMax(width)
      modifies this
      ensures Valid()
      ensures Get(key) == Some(value) && old(Get(key)) == None
      ensures len == old(len) + 1
      ensures forall k: Key :: k != key ==> Get(k) == old(Get(k))
    {
      key := CreateKey();
      var _ := InsertWithKey(key, value);
    }

    /**
     * `remove`, with the corrected version bump. A live key gives its value
     * back; a live or reserved slot gets its version bumped (wrapping from
     * `max_version` to 1, where the code as written leaves version 0; see
     * `OccupiedSlotAtMaxVersionLosesVersion`), becomes free with
     * a link to the old `freeHead`, and becomes the new `freeHead`, so the old
     * key is no longer live and slots are reused last-in first-out. Stale,
     * out-of-range and free-slot keys give `None` and change nothing.
     */
    method Remove(key: Key) returns (r: Option<T>)
      requires Valid()
      modifies this
      ensures Valid()
      ensures r == old(Get(key))
      ensures !ContainsKey(key)
      ensures old(key.index < |slots| && slots[key.index].Version(width) == key.version && !slots[key.index].Free(width)) ==>
                && slots == old(slots[key.index := SetIndex(width, IncrementVersionWrapped(width, slots[key.index]), freeHead).0])
                && freeHead == key.index
                && len == old(len) - (if old(slots[key.index].Occupied(width)) then 1 else 0)
      ensures !old(key.index < |slots| && slots[key.index].Version(width) == key.version && !slots[key.index].Free(width)) ==>
                slots == old(slots) && freeHead == old(freeHead) && len == old(len)
      ensures forall k: Key :: k.index != key.index ==> Get(k) == old(Get(k))
    {
      if key.index < |slots| {
        var slot := slots[key.index];
        if slot.Version(width) != key.version {
          return None;
        }
        if slot.Occupied(width) || slot.Reserved(width) {
          var bumped := IncrementVersionWrapped(width, slot);
          var (s', value) := SetIndex(width, bumped, freeHead);
          RemovedSlotKeepsValidVersion(width, slot, freeHead);
          SlotsWfUpdate(width, slots, key.index, s');
          CountUpdate(width, slots, key.index, s', 0);
          LookupUpdate(width, slots, key.index, s');
          FreeListAfterPush(width, slots, freeHead, freeList, pending, key.index, s');
          if slot.Occupied(width) {
            len := len - 1;
          }
          slots := slots[key.index := s'];
          freeList := [key.index] + freeList;
          freeHead := key.index;
          return value;
        } else {
          return None;
        }
      } else {
        return None;
      }
    }

    /**
     * `get_mut` followed by a write through the reference it returns: a live
     * key's value is replaced and nothing else changes; any other key changes
     * nothing.
     */
    method SetThroughGetMut(key: Key, value: T) returns (found: bool)
      requires Valid()
      modifies this
      ensures Valid()
      ensures found == old(ContainsKey(key))
      ensures found ==> Get(key) == Some(value)
      ensures found ==> slots == old(slots[key.index := SetValue(width, slots[key.index], value).0])
      ensures !found ==> slots == old(slots)
      ensures freeHead == old(freeHead) && len == old(len)
      ensures forall k: Key :: k.index != key.index ==> Get(k) == old(Get(k))
    {
      found := ContainsKey(key);
      if found {
        var (s', _) := SetValue(width, slots[key.index], value);
        SlotsWfUpdate(width, slots, key.index, s');
        CountUpdate(width, slots, key.index, s', 0);
        LookupUpdate(width, slots, key.index, s');
        FreeListAfterFill(width, slots, freeHead, freeList, pending, key.index, s');
        slots := slots[key.index := s'];
      }
    }
  }
}
