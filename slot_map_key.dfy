/** Keys of the sparse slot map: a slot index and a non-zero version. */
module SlotKeys {
  /** `Idx::NonZero`: a version stored in a key is never zero. */
  type NonZero = v: nat | v != 0 witness 1

  /**
   * Equality and hashing are derived from both fields, which is exactly
   * datatype equality here.
   */
  datatype Key = Key(index: nat, version: NonZero)

  /**
   * `Key::new`: the debug assertion that the version is not zero is the
   * precondition; `index()` and `version()` give back what was passed in.
   */
  function NewKey(index: nat, version: nat): (k: Key)
    requires version != 0
    ensures k.index == index && k.version == version
  {
    Key(index, version)
  }
}
