/**
 * `Drain`: walks the slots of a mutably borrowed slot map in order and
 * removes every occupied slot it reaches, yielding the removed entry.
 * Dropping the drain runs it to the end, which is how `clear` empties the
 * map while keeping its slots for reuse.
 */
module SlotMapDrain {
  import opened Wrappers
  import opened Slots
  import opened SlotKeys
  import opened SparseSlotMap

  class Drain<T> {
    /** The borrowed owner. */
    const owner: SlotMap<T>
    var current: nat
    var numLeft: nat

    /** Every slot before `current` has been drained; `numLeft` follows the map's length. */
    ghost predicate Valid()
      reads this, owner
    {
      && owner.Valid()
      && current <= |owner.slots|
      && numLeft == owner.len
      && (forall i :: 0 <= i < current ==> !owner.slots[i].Occupied(owner.width))
    }

    /** `SlotMap::drain`: starts at slot 0 with `num_left` set to the map's length. */
    constructor Of(m: SlotMap<T>)
      requires m.Valid()
      ensures Valid() && owner == m && current == 0
    {
      owner := m;
      current := 0;
      numLeft := m.len;
    }

    /**
     * `next`: removes and yields the first live entry of the map, or gives
     * `None` (changing nothing) once the slots are exhausted. Only the slot of
     * the yielded key changes.
     */
    method Next() returns (item: Option<(Key, T)>)
      requires Valid()
      modifies this, owner
      ensures Valid() && |owner.slots| == old(|owner.slots|)
      ensures old(owner.Contents()) == [] ==> item == None
      ensures old(owner.Contents()) != [] ==> item == Some(old(owner.Contents())[0]) && owner.Contents() == old(owner.Contents())[1..]
      ensures item.None? ==> owner.slots == old(owner.slots)
      ensures item.Some? ==> item.value.0.index < |owner.slots| && old(owner.slots)[item.value.0.index].Occupied(owner.width)
      ensures item.Some? ==> forall i :: 0 <= i < |owner.slots| && i != item.value.0.index ==> owner.slots[i] == old(owner.slots)[i]
    {
      ghost var s, w := owner.slots, owner.width;
      SkipUnoccupied();
      if current == |owner.slots| {
        EntriesSkip(w, s, 0, current);
        return None;
      }
      var idx := current;
      current := current + 1;
      var key := Key(idx, owner.slots[idx].Version(owner.width));
      EntriesSkip(w, s, 0, idx);
      numLeft := numLeft - 1;
      var removed := owner.Remove(key);
      DrainStep(w, s, owner.slots, idx);
      return Some((key, removed.value));
    }

    /** The loop at the head of `next`: passes over the slots that are not occupied. */
    method SkipUnoccupied()
      requires current <= |owner.slots|
      modifies this
      ensures numLeft == old(numLeft) && old(current) <= current <= |owner.slots|
      ensures forall i :: old(current) <= i < current ==> !owner.slots[i].Occupied(owner.width)
      ensures current < |owner.slots| ==> owner.slots[current].Occupied(owner.width)
    {
      while current < |owner.slots| && !owner.slots[current].Occupied(owner.width)
        invariant old(current) <= current <= |owner.slots| && numLeft == old(numLeft)
        invariant forall i :: old(current) <= i < current ==> !owner.slots[i].Occupied(owner.width)
        decreases |owner.slots| - current
      {
        current := current + 1;
      }
    }

    /** `size_hint`: exact, both bounds are the number of live entries left in the map. */
    function SizeHint(): (r: (nat, Option<nat>))
      reads this, owner
      requires Valid()
      ensures r.0 == |owner.Contents()| && r.1 == Some(|owner.Contents()|)
    {
      (numLeft, Some(numLeft))
    }

    /**
     * Dropping the drain: it is run to the end, so the map is left with no
     * live entry; the slots that were not occupied are left as they were.
     */
    method Finish()
      requires Valid()
      modifies this, owner
      ensures Valid() && owner.Contents() == [] && owner.len == 0
      ensures |owner.slots| == old(|owner.slots|)
      ensures forall i :: 0 <= i < |owner.slots| && !old(owner.slots)[i].Occupied(owner.width) ==> owner.slots[i] == old(owner.slots)[i]
    {
      ghost var s0 := owner.slots;
      var item := Next();
      while item.Some?
        invariant Valid() && |owner.slots| == |s0|
        invariant item.None? ==> owner.Contents() == []
        invariant forall i :: 0 <= i < |owner.slots| && !s0[i].Occupied(owner.width) ==> owner.slots[i] == s0[i]
        decreases |owner.Contents()| + (if item.Some? then 1 else 0)
      {
        item := Next();
      }
    }
  }

  /**
   * `clear`: a drain that is dropped at once. Afterwards no key is live and
   * the length is 0; the number of slots, and every slot that was not
   * occupied, are kept.
   */
  method Clear<T>(m: SlotMap<T>)
    requires m.Valid()
    modifies m
    ensures m.Valid() && m.Contents() == [] && m.len == 0
    ensures forall k: Key :: m.Get(k) == None
    ensures |m.slots| == old(|m.slots|)
    ensures forall i :: 0 <= i < |m.slots| && !old(m.slots)[i].Occupied(m.width) ==> m.slots[i] == old(m.slots)[i]
  {
    var d := new Drain<T>.Of(m);
    d.Finish();
    forall k: Key
      ensures m.Get(k) == None
    {
      if m.Get(k).Some? {
        EntriesAreLive(m.width, m.slots, 0, k, m.Get(k).value);
      }
    }
  }
}
