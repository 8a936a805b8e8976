/**
 * `Iter`: the borrowing iterator over a slot map. It walks the slots in
 * order, skips those that are not occupied and yields each occupied slot's
 * key and value; `numLeft` counts the entries still to come, which makes the
 * size hint exact.
 */
module SlotMapIter {
  import opened Wrappers
  import opened Slots
  import opened SlotKeys
  import opened SparseSlotMap

  class Iter<T> {
    const width: Width
    /** The borrowed slots; nothing changes them while the iterator lives. */
    const slots: seq<Slot<T>>
    /** The position of the enumerating iterator over the slots. */
    var pos: nat
    var numLeft: nat

    ghost predicate Valid()
      reads this
    {
      && SlotsWf(width, slots)
      && pos <= |slots|
      && numLeft == CountFrom(width, slots, pos)
    }

    /** The entries still to be yielded. */
    ghost function Remaining(): seq<(Key, T)>
      reads this
      requires Valid()
    {
      Entries(width, slots, pos)
    }

    /** `SlotMap::iter`: starts at the first slot with `num_left` set to the map's length. */
    constructor Of(m: SlotMap<T>)
      requires m.Valid()
      ensures Valid() && width == m.width && slots == m.slots
      ensures Remaining() == m.Contents()
    {
      width := m.width;
      slots := m.slots;
      pos := 0;
      numLeft := m.len;
    }

    /**
     * `next`: the first remaining entry, or `None` once the slots are
     * exhausted; every later call returns `None` again (the iterator is fused).
     */
    method Next() returns (item: Option<(Key, T)>)
      requires Valid()
      modifies this
      ensures Valid()
      ensures old(Remaining()) == [] ==> item == None && Remaining() == []
      ensures old(Remaining()) != [] ==> item == Some(old(Remaining())[0]) && Remaining() == old(Remaining())[1..]
    {
      while pos < |slots|
        invariant Valid()
        invariant Remaining() == old(Remaining())
        decreases |slots| - pos
      {
        var idx := pos;
        pos := pos + 1;
        if slots[idx].Occupied(width) {
          numLeft := numLeft - 1;
          return Some((Key(idx, slots[idx].Version(width)), ValueAt(width, slots[idx])));
        }
      }
      return None;
    }

    /** `size_hint`: exact, both bounds are the number of entries still to come. */
    function SizeHint(): (r: (nat, Option<nat>))
      reads this
      requires Valid()
      ensures r.0 == |Remaining()| && r.1 == Some(|Remaining()|)
    {
      (numLeft, Some(numLeft))
    }
  }
}
