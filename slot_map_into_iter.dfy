/**
 * `IntoIter`: the consuming iterator over a slot map. It owns the slots,
 * walks them in order and moves the value out of each occupied slot it
 * reaches; the slots it has passed are not looked at again.
 */
module SlotMapIntoIter {
  import opened Wrappers
  import opened Slots
  import opened SlotKeys
  import opened SparseSlotMap

  class IntoIter<T> {
    const width: Width
    /** The owned slots; a slot whose value was moved out is left reserved. */
    var slots: seq<Slot<T>>
    var pos: nat
    var numLeft: nat

    ghost predicate Valid()
      reads this
    {
      && SlotsWf(width, slots)
      && pos <= |slots|
      && numLeft == CountFrom(width, slots, pos)
    }

    /** The entries still to be yielded. */
    ghost function Remaining(): seq<(Key, T)>
      reads this
      requires Valid()
    {
      Entries(width, slots, pos)
    }

    /** `SlotMap::into_iter`: takes the slots over, with `num_left` set to the map's length. */
    constructor Of(m: SlotMap<T>)
      requires m.Valid()
      ensures Valid() && width == m.width && slots == m.slots
      ensures Remaining() == m.Contents()
    {
      width := m.width;
      slots := m.slots;
      pos := 0;
      numLeft := m.len;
    }

    /**
     * `next`, with the corrected `take`: moves the first remaining entry
     * out, or gives `None` once the slots are exhausted. The slot the value
     * came from is left reserved (see `TakeReleasing`); no other slot
     * changes. The code as written leaves that slot flagged occupied, and
     * dropping it panics (see `TakenSlotPanicsOnDrop`).
     */
    method Next() returns (item: Option<(Key, T)>)
      requires Valid()
      modifies this
      ensures Valid() && |slots| == old(|slots|)
      ensures item.Some? ==> item.value.0.index < |slots| && old(slots)[item.value.0.index].Wf(width) && old(slots)[item.value.0.index].Occupied(width)
      ensures old(Remaining()) == [] ==> item == None && Remaining() == [] && slots == old(slots)
      ensures old(Remaining()) != [] ==>
                && item == Some(old(Remaining())[0])
                && Remaining() == old(Remaining())[1..]
                && slots == old(slots)[item.value.0.index := TakeReleasing(width, old(slots)[item.value.0.index]).0]
    {
      while pos < |slots|
        invariant Valid() && slots == old(slots)
        invariant Remaining() == old(Remaining())
        decreases |slots| - pos
      {
        var idx := pos;
        pos := pos + 1;
        if slots[idx].Occupied(width) {
          var key := Key(idx, slots[idx].Version(width));
          numLeft := numLeft - 1;
          var (released, value) := TakeReleasing(width, slots[idx]);
          SlotsWfUpdate(width, slots, idx, released);
          CountUpdate(width, slots, idx, released, pos);
          EntriesUnchangedBefore(width, slots, idx, released, pos);
          slots := slots[idx := released];
          return Some((key, value));
        }
      }
      return None;
    }

    /** `size_hint`: exact, both bounds are the number of entries still to come. */
    function SizeHint(): (r: (nat, Option<nat>))
      reads this
      requires Valid()
      ensures r.0 == |Remaining()| && r.1 == Some(|Remaining()|)
    {
      (numLeft, Some(numLeft))
    }
  }
}
