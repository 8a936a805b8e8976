/**
 * Rust's `Ordering` and the orderings the string handles compare with:
 * byte strings lexicographically (how `str` compares), numbers by value,
 * `Option` with `None` first, and pairs field by field.
 */
module Orderings {
  import opened Wrappers
  import opened Bytes
  import opened StringIds

  datatype Ordering = Less | Equal | Greater

  /** `Ordering::reverse`: what comparing the other way round gives. */
  function Reverse(o: Ordering): (r: Ordering)
    ensures r == Equal <==> o == Equal
    ensures r == Less <==> o == Greater
  {
    match o
    case Less => Greater
    case Equal => Equal
    case Greater => Less
  }

  /** `Ordering::then`: the first comparison unless it says `Equal`. */
  function Then(first: Ordering, second: Ordering): Ordering
  {
    if first == Equal then second else first
  }

  /** `Ord` for integers. */
  function CompareNat(a: nat, b: nat): (r: Ordering)
    ensures r == Equal <==> a == b
    ensures r == Less <==> a < b
    ensures r == Greater <==> a > b
  {
    if a < b then Less else if a == b then Equal else Greater
  }

  /** `Ord` for `Option<NonZeroU32>`: `None` comes before every `Some`. */
  function CompareOption(a: Option<NonZeroU32>, b: Option<NonZeroU32>): (r: Ordering)
    ensures r == Equal <==> a == b
    ensures r == Less <==> (a.None? && b.Some?) || (a.Some? && b.Some? && a.value < b.value)
  {
    match (a, b)
    case (None, None) => Equal
    case (None, Some(_)) => Less
    case (Some(_), None) => Greater
    case (Some(x), Some(y)) => CompareNat(x, y)
  }

  /** `Ord` for `str`: byte by byte, a proper prefix first. */
  function CompareBytes(a: Bytes, b: Bytes): Ordering
  {
    if a == [] && b == [] then Equal
    else if a == [] then Less
    else if b == [] then Greater
    else if a[0] < b[0] then Less
    else if a[0] > b[0] then Greater
    else CompareBytes(a[1..], b[1..])
  }

  lemma {:induction false} CompareBytesEqual(a: Bytes, b: Bytes)
    ensures CompareBytes(a, b) == Equal <==> a == b
  {
    if a != [] && b != [] && a[0] == b[0] {
      CompareBytesEqual(a[1..], b[1..]);
      assert a == [a[0]] + a[1..] && b == [b[0]] + b[1..];
    }
  }

  lemma {:induction false} CompareBytesReverse(a: Bytes, b: Bytes)
    ensures CompareBytes(b, a) == Reverse(CompareBytes(a, b))
  {
    if a != [] && b != [] && a[0] == b[0] {
      CompareBytesReverse(a[1..], b[1..]);
    }
  }

  lemma {:induction false} CompareBytesTransitive(a: Bytes, b: Bytes, c: Bytes)
    requires CompareBytes(a, b) == Less && CompareBytes(b, c) == Less
    ensures CompareBytes(a, c) == Less
  {
    if a != [] && b != [] && c != [] && a[0] == b[0] == c[0] {
      CompareBytesTransitive(a[1..], b[1..], c[1..]);
    }
  }

  /** A proper prefix compares before the longer string. */
  lemma {:induction false} PrefixLess(a: Bytes, b: Bytes)
    requires |a| < |b| && a == b[..|a|]
    ensures CompareBytes(a, b) == Less
  {
    if a != [] {
      assert a[1..] == b[1..][..|a| - 1];
      PrefixLess(a[1..], b[1..]);
    }
  }

  /** `Ord` for the pair `(string_part, number)`: the text first, then the number. */
  function ComparePair(a: (Bytes, Option<NonZeroU32>), b: (Bytes, Option<NonZeroU32>)): (r: Ordering)
    ensures r == Equal <==> a == b
  {
    CompareBytesEqual(a.0, b.0);
    Then(CompareBytes(a.0, b.0), CompareOption(a.1, b.1))
  }

  /** Comparing pairs the other way round reverses the answer. */
  lemma ComparePairReverse(a: (Bytes, Option<NonZeroU32>), b: (Bytes, Option<NonZeroU32>))
    ensures ComparePair(b, a) == Reverse(ComparePair(a, b))
  {
    CompareBytesReverse(a.0, b.0);
  }
}
