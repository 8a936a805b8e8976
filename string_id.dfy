/**
 * `StringId`: the index of an interned string in the reference map, stored
 * plus one in a `NonZeroU32` so that `Option<StringId>` stays four bytes.
 */
module StringIds {
  import opened Bytes

  /** The values a `NonZeroU32` can hold. */
  type NonZeroU32 = x: nat | 1 <= x <= U32Max witness 1

  /** Equality and hashing are on the stored value, which is datatype equality. */
  datatype StringId = StringId(raw: NonZeroU32)

  /**
   * `from_raw_parts(id)`: stores `id + 1`. An `id` of `u32::MAX` overflows
   * and panics, so it is excluded.
   */
  function FromRawParts(id: nat): (r: StringId)
    requires id < U32Max
    ensures r.raw == id + 1
  {
    StringId(id + 1)
  }

  /** `get`: the index back, the stored value minus one. */
  function Get(s: StringId): (r: nat)
    ensures r < U32Max
  {
    s.raw - 1
  }

  /** `get(from_raw_parts(i)) == i`. */
  lemma GetFromRawParts(i: nat)
    requires i < U32Max
    ensures Get(FromRawParts(i)) == i
  {
  }

  /** `from_raw_parts(get(s)) == s`. */
  lemma FromRawPartsGet(s: StringId)
    ensures FromRawParts(Get(s)) == s
  {
  }

  /** Distinct indices give distinct ids. */
  lemma FromRawPartsInjective(i: nat, j: nat)
    requires i < U32Max && j < U32Max
    ensures FromRawParts(i) == FromRawParts(j) <==> i == j
  {
  }
}
