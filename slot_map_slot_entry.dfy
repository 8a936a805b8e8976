/**
 * The payload of one slot of the sparse slot map: the stored value while the
 * slot is occupied, the index of the next free slot while it is free, and
 * nothing while it is reserved.
 */
module SlotEntries {
  datatype SlotEntry<T> = Value(value: T) | Index(index: nat) | Reserved

  /**
   * `value`, `value_mut`, `into_inner` and `drop`: all four read the stored
   * value and panic with "Expected value" on the other two variants, so the
   * panic is the precondition.
   */
  function ValueOf<T>(e: SlotEntry<T>): (v: T)
    requires e.Value?
    ensures e == Value(v)
  {
    e.value
  }

  /** `index`: the next free index; panics with "Expected index" otherwise. */
  function IndexOf<T>(e: SlotEntry<T>): (i: nat)
    requires e.Index?
    ensures e == Index(i)
  {
    e.index
  }
}
