/**
 * One slot of the sparse slot map. The slot's `version` field packs three
 * things into one unsigned `Idx`: the top bit marks an occupied slot, the bit
 * below it marks a reserved slot, and the remaining bits hold the version.
 * Here that field is `packed`, a natural number below 2^bits, and the flag
 * tests are written as the bit arithmetic they perform.
 */
module Slots {
  import opened Wrappers
  import opened SlotEntries

  /** The two index types the slot map is used with: `u16` (catalog) and `u32` (default). */
  datatype Width = U16 | U32

  /** `Idx::max_value()`. */
  function IdxMax(w: Width): nat
  {
    match w
    case U16 => 0xFFFF
    case U32 => 0xFFFF_FFFF
  }

  /** `occupied_bit`: the top bit of `Idx`. */
  function OccupiedBit(w: Width): (b: nat)
    ensures 2 * b == IdxMax(w) + 1
  {
    match w
    case U16 => 0x8000
    case U32 => 0x8000_0000
  }

  /** `reserved_bit`: the bit below the top bit. */
  function ReservedBit(w: Width): (b: nat)
    ensures 2 * b == OccupiedBit(w)
  {
    match w
    case U16 => 0x4000
    case U32 => 0x4000_0000
  }

  /** `max_version`: every bit except the two flag bits. */
  function MaxVersion(w: Width): (m: nat)
    ensures m + 1 == ReservedBit(w)
    ensures m + ReservedBit(w) + OccupiedBit(w) == IdxMax(w)
  {
    IdxMax(w) - OccupiedBit(w) - ReservedBit(w)
  }

  /*
   * The flag tests and the mask below are written for a packed field that
   * fits in `Idx` (at most `IdxMax`): the top bit is set iff the field is at
   * least `OccupiedBit`, and so on down. `FlagTestsAreBitTests` shows they
   * are the bit tests of the source.
   */

  /** `version & occupied_bit == occupied_bit`. */
  predicate OccupiedBitSet(w: Width, packed: nat)
  {
    packed >= OccupiedBit(w)
  }

  /** The field without its top bit. */
  function LowBits(w: Width, packed: nat): nat
  {
    if packed >= OccupiedBit(w) then packed - OccupiedBit(w) else packed
  }

  /** `version & reserved_bit == reserved_bit`. */
  predicate ReservedBitSet(w: Width, packed: nat)
  {
    LowBits(w, packed) >= ReservedBit(w)
  }

  /** `version & !occupied_bit & !reserved_bit`. */
  function VersionBits(w: Width, packed: nat): nat
  {
    var low := LowBits(w, packed);
    if low >= ReservedBit(w) then low - ReservedBit(w) else low
  }

  /** For every field that fits in `Idx`, the tests above are the bit tests themselves. */
  lemma FlagTestsAreBitTests(w: Width, packed: nat)
    requires packed <= IdxMax(w)
    ensures OccupiedBitSet(w, packed) <==> packed / OccupiedBit(w) % 2 == 1
    ensures ReservedBitSet(w, packed) <==> packed / ReservedBit(w) % 2 == 1
    ensures VersionBits(w, packed) == packed % ReservedBit(w)
  {
    match w
    case U16 =>
    case U32 =>
  }

  /** The packed field with the given flags and version bits. */
  function Pack(w: Width, occupied: bool, reserved: bool, version: nat): nat
  {
    version + (if occupied then OccupiedBit(w) else 0) + (if reserved then ReservedBit(w) else 0)
  }

  /** Reading the flags and the version back out of a packed field gives what was packed. */
  lemma {:induction false} UnpackPack(w: Width, occupied: bool, reserved: bool, version: nat)
    requires version <= MaxVersion(w)
    ensures Pack(w, occupied, reserved, version) <= IdxMax(w)
    ensures OccupiedBitSet(w, Pack(w, occupied, reserved, version)) == occupied
    ensures ReservedBitSet(w, Pack(w, occupied, reserved, version)) == reserved
    ensures VersionBits(w, Pack(w, occupied, reserved, version)) == version
  {
    match w
    case U16 =>
    case U32 =>
  }

  /**
   * Every packed field that fits in `Idx` is its version plus the flag bits
   * that are set, so masking loses nothing else.
   */
  lemma PackUnpack(w: Width, packed: nat)
    requires packed <= IdxMax(w)
    ensures VersionBits(w, packed) <= MaxVersion(w)
    ensures packed == Pack(w, OccupiedBitSet(w, packed), ReservedBitSet(w, packed), VersionBits(w, packed))
  {
  }

  datatype Slot<T> = Slot(entry: SlotEntry<T>, packed: nat)
  {
    /** `occupied()`. */
    predicate Occupied(w: Width) { OccupiedBitSet(w, packed) }

    /** `reserved()`. */
    predicate Reserved(w: Width) { ReservedBitSet(w, packed) }

    /** `free()`: neither flag is set. */
    predicate Free(w: Width) { !Occupied(w) && !Reserved(w) }

    /** `version()`. */
    function Version(w: Width): nat { VersionBits(w, packed) }

    /**
     * What the slot map keeps true of every slot: the field fits `Idx`, the
     * two flags are never set together (the debug assertions of `occupied`
     * and `reserved`), the entry variant agrees with the flags, and the
     * version is not zero, so it can be put in a key.
     */
    ghost predicate Wf(w: Width)
    {
      && packed <= IdxMax(w)
      && !(Occupied(w) && Reserved(w))
      && (Occupied(w) <==> entry.Value?)
      && (Reserved(w) <==> entry.Reserved?)
      && Version(w) != 0
    }
  }

  /** `Slot::new`: a reserved slot with version 1. */
  function NewSlot<T>(w: Width): (s: Slot<T>)
    ensures s.Wf(w) && s.Reserved(w) && s.Version(w) == 1
  {
    UnpackPack(w, false, true, 1);
    Slot(Reserved, Pack(w, false, true, 1))
  }

  /**
   * `index`: the next free index stored in a free slot (the debug assertion
   * that the slot is free is the precondition).
   */
  function NextFree<T>(w: Width, s: Slot<T>): (i: nat)
    requires s.Wf(w) && s.Free(w)
    ensures s.entry == Index(i)
  {
    IndexOf(s.entry)
  }

  /** `value`/`value_mut`: the value of an occupied slot. */
  function ValueAt<T>(w: Width, s: Slot<T>): (v: T)
    requires s.Wf(w) && s.Occupied(w)
    ensures s.entry == Value(v)
  {
    ValueOf(s.entry)
  }

  /**
   * `set_index`: the slot becomes free and stores `index`; the version bits
   * are kept and both flags cleared. The previous value comes back iff the
   * slot was occupied (`into_inner` panics if the occupied flag is set on an
   * entry that holds no value, hence the precondition).
   */
  function SetIndex<T>(w: Width, s: Slot<T>, index: nat): (r: (Slot<T>, Option<T>))
    requires s.packed <= IdxMax(w)
    requires s.Occupied(w) ==> s.entry.Value?
    ensures r.0.entry == Index(index) && r.0.Free(w)
    ensures r.0.Version(w) == s.Version(w) && r.0.packed <= MaxVersion(w)
    ensures r.1.Some? <==> s.Occupied(w)
    ensures s.Occupied(w) ==> r.1 == Some(s.entry.value)
  {
    UnpackPack(w, false, false, s.Version(w));
    (Slot(Index(index), Pack(w, false, false, s.Version(w))), if s.Occupied(w) then Some(ValueOf(s.entry)) else None)
  }

  /**
   * `set_value`: the slot becomes occupied and stores `value`; the version
   * bits are kept and the reserved flag cleared. The previous value comes
   * back iff the slot was occupied.
   */
  function SetValue<T>(w: Width, s: Slot<T>, value: T): (r: (Slot<T>, Option<T>))
    requires s.packed <= IdxMax(w)
    requires s.Occupied(w) ==> s.entry.Value?
    ensures r.0.entry == Value(value) && r.0.Occupied(w) && !r.0.Reserved(w)
    ensures r.0.Version(w) == s.Version(w) && r.0.packed <= IdxMax(w)
    ensures r.1.Some? <==> s.Occupied(w)
    ensures s.Occupied(w) ==> r.1 == Some(s.entry.value)
  {
    UnpackPack(w, true, false, s.Version(w));
    (Slot(Value(value), Pack(w, true, false, s.Version(w))), if s.Occupied(w) then Some(ValueOf(s.entry)) else None)
  }

  /**
   * `take`: moves the value out of an occupied slot, leaving `Reserved` as the
   * entry and the packed field untouched.
   */
  function Take<T>(w: Width, s: Slot<T>): (r: (Slot<T>, T))
    requires s.Wf(w) && s.Occupied(w)
    ensures r.0.entry == Reserved && r.0.packed == s.packed
    ensures s.entry == Value(r.1)
  {
    (s.(entry := Reserved), ValueOf(s.entry))
  }

  /**
   * `Slot::drop` with the enum `SlotEntry` (the build without the `unstable`
   * feature): when `T` needs dropping and the occupied flag is set, the entry
   * is dropped as a value, and `SlotEntry::drop` panics with "Expected value"
   * unless it holds one.
   */
  predicate DropPanics<T>(w: Width, s: Slot<T>, needsDrop: bool)
  {
    needsDrop && s.Occupied(w) && !s.entry.Value?
  }

  /** A well-formed slot is dropped without a panic. */
  lemma WellFormedSlotDropsCleanly<T>(w: Width, s: Slot<T>, needsDrop: bool)
    requires s.Wf(w)
    ensures !DropPanics(w, s, needsDrop)
  {
  }

  /**
   * The discrepancy in `IntoIter::next`: it calls `take` on the occupied slot
   * it moved out of the vector and then lets that slot go out of scope. The
   * occupied flag is still set on the `Reserved` entry `take` left behind, so
   * for every `T` with a destructor the drop panics.
   */
  lemma TakenSlotPanicsOnDrop<T>(w: Width, s: Slot<T>)
    requires s.Wf(w) && s.Occupied(w)
    ensures !Take(w, s).0.Wf(w)
    ensures DropPanics(w, Take(w, s).0, true)
  {
  }

  /**
   * The evidently intended `take`: the value is moved out and the occupied
   * flag is cleared with it, leaving a reserved slot with the same version
   * that drops cleanly.
   */
  function TakeReleasing<T>(w: Width, s: Slot<T>): (r: (Slot<T>, T))
    requires s.Wf(w) && s.Occupied(w)
    ensures s.entry == Value(r.1)
    ensures r.0.Wf(w) && r.0.Reserved(w) && r.0.Version(w) == s.Version(w)
    ensures forall needsDrop :: !DropPanics(w, r.0, needsDrop)
  {
    UnpackPack(w, false, true, s.Version(w));
    (Slot(Reserved, Pack(w, false, true, s.Version(w))), ValueOf(s.entry))
  }

  /**
   * `next_version`, as written: it compares the whole packed field, flag bits
   * included, with `max_version`, and otherwise adds one to the packed field
   * (which would overflow `Idx` only from the all-ones field).
   */
  function NextVersion(w: Width, packed: nat): (n: nat)
    requires packed < IdxMax(w)
    ensures n <= IdxMax(w)
    ensures n != 0
  {
    if packed == MaxVersion(w) then 1 else packed + 1
  }

  /** `increment_version`, as written. */
  function IncrementVersion<T>(w: Width, s: Slot<T>): (t: Slot<T>)
    requires s.packed < IdxMax(w)
    ensures t.entry == s.entry
  {
    s.(packed := NextVersion(w, s.packed))
  }

  /**
   * While a flag is set (which is when `remove` calls `increment_version`),
   * the packed field is above `max_version`, so the wrap-to-1 branch of
   * `next_version` can never be taken there.
   */
  lemma WrapBranchUnreachableWhileFlagged<T>(w: Width, s: Slot<T>)
    requires s.Wf(w) && !s.Free(w)
    ensures s.packed != MaxVersion(w)
    ensures IncrementVersion(w, s).packed == s.packed + 1
  {
  }

  /**
   * Below the largest version, the written `increment_version` does what it is
   * meant to: same flags, version plus one.
   */
  lemma IncrementVersionBelowMax<T>(w: Width, s: Slot<T>)
    requires s.Wf(w) && !s.Free(w) && s.Version(w) < MaxVersion(w)
    ensures IncrementVersion(w, s) == IncrementVersionWrapped(w, s)
  {
  }

  /**
   * The discrepancy, for an occupied slot at the largest version: incrementing
   * the packed field carries into the reserved bit, so both flags end up set
   * (the debug assertion in `occupied` fires), and the `set_index` that
   * follows in `remove` leaves a free slot whose version is 0. The next
   * `create_key` on that slot would build a key with version 0, which
   * `Key::new` forbids.
   */
  lemma OccupiedSlotAtMaxVersionLosesVersion<T>(w: Width, v: T, next: nat)
    ensures var s := Slot(Value(v), MaxVersion(w) + OccupiedBit(w));
            && s.Wf(w) && s.Occupied(w) && s.Version(w) == MaxVersion(w)
            && var t := IncrementVersion(w, s);
            && t.Occupied(w) && t.Reserved(w)
            && SetIndex(w, t, next).0.Version(w) == 0
  {
  }

  /**
   * The same for a reserved slot at the largest version: the carry sets the
   * occupied bit on an entry that holds no value, so the `set_index` in
   * `remove` would call `into_inner` on `Reserved` and panic.
   */
  lemma ReservedSlotAtMaxVersionLooksOccupied<T>(w: Width)
    ensures var s: Slot<T> := Slot(Reserved, MaxVersion(w) + ReservedBit(w));
            && s.Wf(w) && s.Reserved(w) && s.Version(w) == MaxVersion(w)
            && var t := IncrementVersion(w, s);
            && t.Occupied(w) && !t.entry.Value?
  {
  }

  /**
   * The evidently intended increment: the version bits wrap from
   * `max_version` back to 1 and the flags are left as they are.
   */
  function IncrementVersionWrapped<T>(w: Width, s: Slot<T>): (t: Slot<T>)
    requires s.Wf(w)
    ensures t.entry == s.entry && t.Wf(w)
    ensures t.Occupied(w) == s.Occupied(w) && t.Reserved(w) == s.Reserved(w)
    ensures t.Version(w) == if s.Version(w) == MaxVersion(w) then 1 else s.Version(w) + 1
    ensures t.Version(w) != s.Version(w)
  {
    var next := if s.Version(w) == MaxVersion(w) then 1 else s.Version(w) + 1;
    UnpackPack(w, s.Occupied(w), s.Reserved(w), next);
    s.(packed := Pack(w, s.Occupied(w), s.Reserved(w), next))
  }

  /**
   * With the intended increment, removing a live or reserved slot always
   * leaves a free slot whose version is a valid non-zero key version that
   * differs from the one before.
   */
  lemma RemovedSlotKeepsValidVersion<T>(w: Width, s: Slot<T>, next: nat)
    requires s.Wf(w) && !s.Free(w)
    ensures var t := SetIndex(w, IncrementVersionWrapped(w, s), next).0;
            && t.Wf(w) && t.Free(w) && t.Version(w) != s.Version(w)
  {
  }
}
