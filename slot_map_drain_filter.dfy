/**
 * `DrainFilter`: walks the slots of a mutably borrowed slot map in order,
 * hands each live entry to a predicate that may also rewrite the value in
 * place, and removes and yields the entries the predicate selects. `retain`
 * is a drain filter with the negated predicate that is dropped at once.
 *
 * The predicate is modelled as a function of the key and the value that
 * returns its decision together with the value as it left it behind.
 */
module SlotMapDrainFilter {
  import opened Wrappers
  import opened Slots
  import opened SlotKeys
  import opened SparseSlotMap

  /** What the filter leaves behind of one entry: nothing if selected, else the entry with its rewritten value. */
  function KeptOne<T>(e: (Key, T), pred: (Key, T) -> (bool, T)): (r: seq<(Key, T)>)
    ensures r == [] <==> pred(e.0, e.1).0
    ensures r != [] ==> r == [(e.0, pred(e.0, e.1).1)]
  {
    var (selected, v) := pred(e.0, e.1);
    if selected then [] else [(e.0, v)]
  }

  /** What the filter yields of one entry: the entry with its rewritten value if selected, else nothing. */
  function RemovedOne<T>(e: (Key, T), pred: (Key, T) -> (bool, T)): (r: seq<(Key, T)>)
    ensures r != [] <==> pred(e.0, e.1).0
    ensures r != [] ==> r == [(e.0, pred(e.0, e.1).1)]
  {
    var (selected, v) := pred(e.0, e.1);
    if selected then [(e.0, v)] else []
  }

  /** The entries of `es` the filter leaves in the map, in order, with their rewritten values. */
  function Kept<T>(es: seq<(Key, T)>, pred: (Key, T) -> (bool, T)): (r: seq<(Key, T)>)
    ensures |r| <= |es|
  {
    if es == [] then [] else Kept(es[..|es| - 1], pred) + KeptOne(es[|es| - 1], pred)
  }

  /** The entries of `es` the filter removes and yields, in order, with their rewritten values. */
  function Removed<T>(es: seq<(Key, T)>, pred: (Key, T) -> (bool, T)): (r: seq<(Key, T)>)
    ensures |r| <= |es|
  {
    if es == [] then [] else Removed(es[..|es| - 1], pred) + RemovedOne(es[|es| - 1], pred)
  }

  /** The two halves partition the entries: every entry ends up in exactly one of them. */
  lemma {:induction false} KeptRemovedPartition<T>(es: seq<(Key, T)>, pred: (Key, T) -> (bool, T))
    ensures |Kept(es, pred)| + |Removed(es, pred)| == |es|
    ensures forall i :: 0 <= i < |es| && pred(es[i].0, es[i].1).0 ==> (es[i].0, pred(es[i].0, es[i].1).1) in Removed(es, pred)
    ensures forall i :: 0 <= i < |es| && !pred(es[i].0, es[i].1).0 ==> (es[i].0, pred(es[i].0, es[i].1).1) in Kept(es, pred)
  {
    if es != [] {
      var init := es[..|es| - 1];
      KeptRemovedPartition(init, pred);
      forall i | 0 <= i < |es| - 1
        ensures es[i] == init[i]
      {
      }
    }
  }

  /** Filtering a concatenation keeps what the filter keeps of each part. */
  lemma {:induction false} KeptAppend<T>(a: seq<(Key, T)>, b: seq<(Key, T)>, pred: (Key, T) -> (bool, T))
    ensures Kept(a + b, pred) == Kept(a, pred) + Kept(b, pred)
    decreases |b|
  {
    if b == [] {
      assert a + b == a;
    } else {
      var init, last := b[..|b| - 1], b[|b| - 1];
      KeptAppend(a, init, pred);
      assert (a + b)[..|a + b| - 1] == a + init;
      assert (a + b)[|a + b| - 1] == last;
      assert Kept(a + b, pred) == Kept(a + init, pred) + KeptOne(last, pred);
    }
  }

  /** Filtering a concatenation yields what the filter yields of each part. */
  lemma {:induction false} RemovedAppend<T>(a: seq<(Key, T)>, b: seq<(Key, T)>, pred: (Key, T) -> (bool, T))
    ensures Removed(a + b, pred) == Removed(a, pred) + Removed(b, pred)
    decreases |b|
  {
    if b == [] {
      assert a + b == a;
    } else {
      var init, last := b[..|b| - 1], b[|b| - 1];
      RemovedAppend(a, init, pred);
      assert (a + b)[..|a + b| - 1] == a + init;
      assert (a + b)[|a + b| - 1] == last;
      assert Removed(a + b, pred) == Removed(a + init, pred) + RemovedOne(last, pred);
    }
  }

  /** Filtering a single entry. */
  lemma FilterSingle<T>(e: (Key, T), pred: (Key, T) -> (bool, T))
    ensures Kept([e], pred) == KeptOne(e, pred)
    ensures Removed([e], pred) == RemovedOne(e, pred)
  {
    assert [e][..0] == [];
  }

  /** The filter, negated, as `retain` passes it on. */
  function Negate<T>(keep: (Key, T) -> (bool, T)): (Key, T) -> (bool, T)
  {
    (k, v) => (!keep(k, v).0, keep(k, v).1)
  }

  /**
   * The state of a drain filter that has visited the slots before `current`:
   * those slots hold what the filter left of the entries they held at the
   * start, `yielded` is what it selected of them, and the slots from
   * `current` on are as they were at the start.
   */
  ghost predicate Filtering<T>(w: Width, start: seq<Slot<T>>, s: seq<Slot<T>>, current: nat,
                               pred: (Key, T) -> (bool, T), yielded: seq<(Key, T)>)
  {
    && SlotsWf(w, start) && SlotsWf(w, s) && |start| == |s| && current <= |start|
    && (forall i :: current <= i < |start| ==> s[i] == start[i])
    && EntriesBetween(w, s, 0, current) == Kept(EntriesBetween(w, start, 0, current), pred)
    && yielded == Removed(EntriesBetween(w, start, 0, current), pred)
  }

  /**
   * One slot visited: if what the slot shows now is what the filter makes
   * of what it showed at the start, and what was yielded grew by what the
   * filter selects of it, the filtered prefix grows by one slot.
   */
  lemma FilterStep<T>(w: Width, start: seq<Slot<T>>, s0: seq<Slot<T>>, s1: seq<Slot<T>>, idx: nat,
                      pred: (Key, T) -> (bool, T), y0: seq<(Key, T)>, y1: seq<(Key, T)>)
    requires Filtering(w, start, s0, idx, pred, y0) && idx < |start|
    requires SlotsWf(w, s1) && |s1| == |s0|
    requires forall i :: 0 <= i < |s1| && i != idx ==> s1[i] == s0[i]
    requires LiveAt(w, s1, idx) == Kept(LiveAt(w, start, idx), pred)
    requires y1 == y0 + Removed(LiveAt(w, start, idx), pred)
    ensures Filtering(w, start, s1, idx + 1, pred, y1)
  {
    assert s1 == s0[idx := s1[idx]];
    EntriesBetweenUnchangedAfter(w, s0, idx, s1[idx], 0, idx);
    KeptAppend(EntriesBetween(w, start, 0, idx), LiveAt(w, start, idx), pred);
    RemovedAppend(EntriesBetween(w, start, 0, idx), LiveAt(w, start, idx), pred);
  }

  /**
   * A live slot visited: the slot now shows the entry with the value the
   * filter left, or nothing if the filter selected it, and what was yielded
   * grew by the selected entry.
   */
  lemma LiveStep<T>(w: Width, start: seq<Slot<T>>, s0: seq<Slot<T>>, s1: seq<Slot<T>>, idx: nat,
                    pred: (Key, T) -> (bool, T), y0: seq<(Key, T)>, y1: seq<(Key, T)>, key: Key, selected: bool, value: T)
    requires Filtering(w, start, s0, idx, pred, y0) && idx < |s0| && s0[idx].Occupied(w)
    requires key == Key(idx, s0[idx].Version(w)) && (selected, value) == pred(key, ValueAt(w, s0[idx]))
    requires SlotsWf(w, s1) && |s1| == |s0|
    requires forall i :: 0 <= i < |s1| && i != idx ==> s1[i] == s0[i]
    requires LiveAt(w, s1, idx) == if selected then [] else [(key, value)]
    requires y1 == if selected then y0 + [(key, value)] else y0
    ensures Filtering(w, start, s1, idx + 1, pred, y1)
  {
    assert start[idx] == s0[idx];
    var e := (key, ValueAt(w, s0[idx]));
    assert LiveAt(w, start, idx) == [e];
    assert !selected ==> y1 == y0 + [];
    FilterSingle(e, pred);
    FilterStep(w, start, s0, s1, idx, pred, y0, y1);
  }

  /** Once every slot has been visited, the filtered prefix covers all the entries. */
  lemma FilterDone<T>(w: Width, start: seq<Slot<T>>, s: seq<Slot<T>>, pred: (Key, T) -> (bool, T), yielded: seq<(Key, T)>)
    requires Filtering(w, start, s, |start|, pred, yielded)
    ensures Entries(w, s, 0) == Kept(Entries(w, start, 0), pred)
    ensures yielded == Removed(Entries(w, start, 0), pred)
  {
    EntriesSplit(w, start, 0, |start|);
    EntriesSplit(w, s, 0, |s|);
    assert Entries(w, start, 0) == EntriesBetween(w, start, 0, |start|);
    assert Entries(w, s, 0) == EntriesBetween(w, s, 0, |s|);
  }

  class DrainFilter<T> {
    /** The borrowed map. */
    const owner: SlotMap<T>
    const pred: (Key, T) -> (bool, T)
    var current: nat
    var numLeft: nat
    /** The slots when the drain filter was created. */
    ghost const start: seq<Slot<T>>
    /** The entries yielded so far. */
    ghost var yielded: seq<(Key, T)>

    /**
     * The slots before `current` hold what the filter left of the entries
     * they held at the start, and those entries' selected part has been
     * yielded; the slots from `current` on are untouched.
     */
    ghost predicate Valid()
      reads this, owner
    {
      && owner.Valid()
      && numLeft == owner.len
      && Filtering(owner.width, start, owner.slots, current, pred, yielded)
    }

    /** `SlotMap::drain_filter`: starts at slot 0 with `num_left` set to the map's length. */
    constructor Of(m: SlotMap<T>, filter: (Key, T) -> (bool, T))
      requires m.Valid()
      ensures Valid() && owner == m && pred == filter && start == m.slots && yielded == []
    {
      owner := m;
      pred := filter;
      current := 0;
      numLeft := m.len;
      start := m.slots;
      yielded := [];
    }

    /**
     * `next`: visits the slots from `current` on; each live entry is passed to
     * the predicate and keeps the value the predicate left, and the first one
     * selected is removed and yielded. `None` once the slots are exhausted,
     * when the map holds exactly what the filter keeps of the starting entries.
     */
    method Next() returns (item: Option<(Key, T)>)
      requires Valid()
      modifies this, owner
      ensures Valid()
      ensures item.Some? ==> yielded == old(yielded) + [item.value] && old(current) < current
      ensures item.None? ==> yielded == old(yielded) && current == |start|
      ensures item.None? ==> owner.Contents() == Kept(Entries(owner.width, start, 0), pred)
      ensures item.None? ==> yielded == Removed(Entries(owner.width, start, 0), pred)
    {
      while current < |owner.slots|
        invariant Valid() && yielded == old(yielded) && old(current) <= current
        decreases |owner.slots| - current
      {
        item := Visit();
        if item.Some? {
          return;
        }
      }
      Exhausted();
      return None;
    }

    /** Once every slot is visited, the map holds what the filter keeps and the rest has been yielded. */
    lemma Exhausted()
      requires Valid() && current == |start|
      ensures owner.Contents() == Kept(Entries(owner.width, start, 0), pred)
      ensures yielded == Removed(Entries(owner.width, start, 0), pred)
    {
      FilterDone(owner.width, start, owner.slots, pred, yielded);
    }

    /**
     * The body of the loop in `next`: one slot is visited. A live entry is
     * passed to the predicate and keeps the value the predicate left; it is
     * removed and yielded if the predicate selects it.
     */
    method Visit() returns (item: Option<(Key, T)>)
      requires Valid() && current < |start|
      modifies this, owner
      ensures Valid() && current == old(current) + 1
      ensures item.Some? ==> yielded == old(yielded) + [item.value]
      ensures item.None? ==> yielded == old(yielded)
    {
      var idx := current;
      if owner.slots[idx].Occupied(owner.width) {
        item := VisitLive();
      } else {
        ghost var s0, y0 := owner.slots, yielded;
        current := current + 1;
        assert LiveAt(owner.width, start, idx) == [];
        assert yielded == y0 + [];
        FilterStep(owner.width, start, s0, owner.slots, idx, pred, y0, yielded);
        item := None;
      }
    }

    /** `Visit` on a live entry. */
    method VisitLive() returns (item: Option<(Key, T)>)
      requires Valid() && current < |start| && owner.slots[current].Occupied(owner.width)
      modifies this, owner
      ensures Valid() && current == old(current) + 1
      ensures item.Some? ==> yielded == old(yielded) + [item.value]
      ensures item.None? ==> yielded == old(yielded)
    {
      var key := Key(current, owner.slots[current].Version(owner.width));
      var (selected, value) := pred(key, ValueAt(owner.width, owner.slots[current]));
      if selected {
        YieldLive(key, value);
        item := Some((key, value));
      } else {
        KeepLive(key, value);
        item := None;
      }
    }

    /** A live entry the predicate selects: it is removed and yielded with the value the predicate left. */
    method YieldLive(key: Key, value: T)
      requires Valid() && current < |start| && owner.slots[current].Occupied(owner.width)
      requires key == Key(current, owner.slots[current].Version(owner.width))
      requires pred(key, ValueAt(owner.width, owner.slots[current])) == (true, value)
      modifies this, owner
      ensures Valid() && current == old(current) + 1
      ensures yielded == old(yielded) + [(key, value)]
    {
      ghost var s0, y0, idx := owner.slots, yielded, current;
      WriteBack(key, value);
      var _ := TakeOut(key);
      numLeft := numLeft - 1;
      yielded := yielded + [(key, value)];
      current := current + 1;
      LiveStep(owner.width, start, s0, owner.slots, idx, pred, y0, yielded, key, true, value);
    }

    /** A live entry the predicate does not select: it stays, with the value the predicate left. */
    method KeepLive(key: Key, value: T)
      requires Valid() && current < |start| && owner.slots[current].Occupied(owner.width)
      requires key == Key(current, owner.slots[current].Version(owner.width))
      requires pred(key, ValueAt(owner.width, owner.slots[current])) == (false, value)
      modifies this, owner
      ensures Valid() && current == old(current) + 1
      ensures yielded == old(yielded)
    {
      ghost var s0, idx := owner.slots, current;
      WriteBack(key, value);
      current := current + 1;
      LiveStep(owner.width, start, s0, owner.slots, idx, pred, yielded, yielded, key, false, value);
    }

    /** The write through `value_mut`: the live entry of `key` now holds `value`. */
    method WriteBack(key: Key, value: T)
      requires owner.Valid() && owner.ContainsKey(key)
      modifies owner
      ensures owner.Valid() && |owner.slots| == old(|owner.slots|) && owner.len == old(owner.len)
      ensures LiveAt(owner.width, owner.slots, key.index) == [(key, value)]
      ensures forall i :: 0 <= i < |owner.slots| && i != key.index ==> owner.slots[i] == old(owner.slots)[i]
    {
      var _ := owner.SetThroughGetMut(key, value);
    }

    /** `map.remove(key).unwrap()` on a live key: its value, and the slot is no longer live. */
    method TakeOut(key: Key) returns (v: T)
      requires owner.Valid() && owner.ContainsKey(key)
      modifies owner
      ensures owner.Valid() && |owner.slots| == old(|owner.slots|) && owner.len == old(owner.len) - 1
      ensures old(owner.Get(key)) == Some(v)
      ensures LiveAt(owner.width, owner.slots, key.index) == []
      ensures forall i :: 0 <= i < |owner.slots| && i != key.index ==> owner.slots[i] == old(owner.slots)[i]
    {
      var removed := owner.Remove(key);
      v := removed.value;
    }

    /**
     * `size_hint`: no lower bound, and `num_left` as the upper bound, which is
     * at least the number of entries still to be removed.
     */
    function SizeHint(): (r: (nat, Option<nat>))
      reads this, owner
      requires Valid()
      ensures r.0 == 0 && r.1.Some?
      ensures |Removed(Entries(owner.width, start, current), pred)| <= r.1.value
    {
      EntriesSplit(owner.width, owner.slots, 0, current);
      assert Entries(owner.width, owner.slots, current) == Entries(owner.width, start, current) by {
        EntriesSuffixEqual(owner.width, owner.slots, start, current);
      }
      (0, Some(numLeft))
    }

    /**
     * Dropping the drain filter: it is run to the end, so the map holds
     * exactly what the filter keeps of the starting entries, and everything
     * else has been yielded.
     */
    method Finish()
      requires Valid()
      modifies this, owner
      ensures Valid() && current == |start|
      ensures owner.Contents() == Kept(Entries(owner.width, start, 0), pred)
      ensures yielded == Removed(Entries(owner.width, start, 0), pred)
    {
      var item := Next();
      while item.Some?
        invariant Valid()
        invariant item.None? ==> current == |start|
        invariant item.None? ==> owner.Contents() == Kept(Entries(owner.width, start, 0), pred)
        invariant item.None? ==> yielded == Removed(Entries(owner.width, start, 0), pred)
        decreases |start| - current + (if item.Some? then 1 else 0)
      {
        item := Next();
      }
    }
  }

  /**
   * `retain`: keeps the entries for which `keep` holds, with the values
   * `keep` left them, and removes every other entry.
   */
  method Retain<T>(m: SlotMap<T>, keep: (Key, T) -> (bool, T))
    requires m.Valid()
    modifies m
    ensures m.Valid() && |m.slots| == old(|m.slots|)
    ensures m.Contents() == Kept(old(m.Contents()), Negate(keep))
  {
    var d := new DrainFilter<T>.Of(m, Negate(keep));
    d.Finish();
  }
}
