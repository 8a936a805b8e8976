/**
 * `Text`: a handle on one interned string. Everything it does reads the
 * string behind its id; equality and ordering are those of that string,
 * hashing is on the id alone.
 *
 * As for names, the subsystem is given to the functions here as
 * `strings`, the strings it has interned in id order.
 */
module Texts {
  import opened Wrappers
  import opened Bytes
  import opened StringIds
  import opened StringEntries
  import opened EntryHashTables
  import opened StaticRefVectors
  import opened StringSubsystem
  import opened Orderings
  import Names

  /** A `Text`: `from_raw_parts(id)`, with `id()` its field. */
  datatype Text = Text(id: StringId)

  /** The text's id is one the subsystem has handed out. */
  predicate Resolves(strings: seq<Bytes>, t: Text)
  {
    Get(t.id) < |strings|
  }

  /** `as_str`: `system.string(id)`. */
  function AsStr(strings: seq<Bytes>, t: Text): Bytes
    requires Resolves(strings, t)
  {
    strings[Get(t.id)]
  }

  /** `len`: `system.len(id)`, the byte length of the stored string. */
  function Len(strings: seq<Bytes>, t: Text): (r: nat)
    requires Resolves(strings, t)
    ensures r == |AsStr(strings, t)|
  {
    |strings[Get(t.id)]|
  }

  /** `is_empty`: `system.is_empty(id)`. */
  function IsEmpty(strings: seq<Bytes>, t: Text): (r: bool)
    requires Resolves(strings, t)
    ensures r <==> Len(strings, t) == 0
    ensures r <==> AsStr(strings, t) == []
  {
    strings[Get(t.id)] == []
  }

  /** `Hash`: the id alone. */
  function HashKey(t: Text): (r: StringId)
    ensures r == t.id
  {
    t.id
  }

  /**
   * `==`: the strings. (The fast path taken when both operands are the
   * same value compares ids, which gives the same answer.)
   */
  function Eq(strings: seq<Bytes>, a: Text, b: Text): bool
    requires Resolves(strings, a) && Resolves(strings, b)
  {
    AsStr(strings, a) == AsStr(strings, b)
  }

  /** `cmp`: the strings, byte by byte; the ids play no part. */
  function Compare(strings: seq<Bytes>, a: Text, b: Text): (r: Ordering)
    requires Resolves(strings, a) && Resolves(strings, b)
    ensures r == Equal <==> Eq(strings, a, b)
    ensures r == Reverse(CompareBytes(AsStr(strings, b), AsStr(strings, a)))
  {
    CompareBytesEqual(AsStr(strings, a), AsStr(strings, b));
    CompareBytesReverse(AsStr(strings, b), AsStr(strings, a));
    CompareBytes(AsStr(strings, a), AsStr(strings, b))
  }

  /** The ordering of texts is transitive. */
  lemma CompareTransitive(strings: seq<Bytes>, a: Text, b: Text, c: Text)
    requires Resolves(strings, a) && Resolves(strings, b) && Resolves(strings, c)
    requires Compare(strings, a, b) == Less && Compare(strings, b, c) == Less
    ensures Compare(strings, a, c) == Less
  {
    CompareBytesTransitive(AsStr(strings, a), AsStr(strings, b), AsStr(strings, c));
  }

  /**
   * In a subsystem that interns every string once, two texts are equal
   * exactly when their ids are, so `Hash` (on the id) agrees with `==`.
   */
  lemma EqIffSameId(strings: seq<Bytes>, a: Text, b: Text)
    requires Names.Distinct(strings) && Resolves(strings, a) && Resolves(strings, b)
    ensures Eq(strings, a, b) <==> HashKey(a) == HashKey(b)
  {
    if Eq(strings, a, b) {
      assert strings[Get(a.id)] == strings[Get(b.id)];
      assert Get(a.id) == Get(b.id);
    }
    FromRawPartsGet(a.id);
    FromRawPartsGet(b.id);
  }

  /** `text == other` for a string `other`, and its mirror `other == text`. */
  function EqStr(strings: seq<Bytes>, t: Text, other: Bytes): bool
    requires Resolves(strings, t)
  {
    AsStr(strings, t) == other
  }

  /** `text.partial_cmp(other)` for a string `other`. */
  function CompareStr(strings: seq<Bytes>, t: Text, other: Bytes): (r: Ordering)
    requires Resolves(strings, t)
    ensures r == Equal <==> EqStr(strings, t, other)
  {
    CompareBytesEqual(AsStr(strings, t), other);
    CompareBytes(AsStr(strings, t), other)
  }

  /** `other.partial_cmp(text)`: the reverse ordering. */
  function StrCompare(strings: seq<Bytes>, other: Bytes, t: Text): (r: Ordering)
    requires Resolves(strings, t)
    ensures r == Reverse(CompareStr(strings, t, other))
  {
    CompareBytesReverse(AsStr(strings, t), other);
    CompareBytes(other, AsStr(strings, t))
  }

  /** `From<Text> for Name`: the same id and no number. */
  function ToName(t: Text): (r: Names.Name)
    ensures r.id == t.id && r.number.None?
  {
    Names.Name(t.id, None)
  }

  /**
   * The name made from a text displays as the text, is well-formed, and
   * two such names are equal exactly when the texts are.
   */
  lemma ToNameFacts(strings: seq<Bytes>, a: Text, b: Text)
    requires Resolves(strings, a) && Resolves(strings, b)
    ensures Names.Display(strings, ToName(a)) == AsStr(strings, a)
    ensures Names.WellFormed(strings, ToName(a))
    ensures Names.Eq(strings, ToName(a), ToName(b)) <==> Eq(strings, a, b)
    ensures Names.EqStr(strings, ToName(a), AsStr(strings, b)) <==> Eq(strings, a, b)
  {
  }

  /**
   * `Text::new(s)`: `create_string_id(s)`, corrected. The text reads back
   * as the stored form of `s` (`s` itself up to `MAX_STRING_LENGTH`), every
   * text that already held that string has the same id, and every text
   * holding another string a different one.
   */
  method NewText(s: Bytes, system: Subsystem) returns (t: Text)
    requires system.Valid() && system.Canonical() && |s| < UsizeModulus
    requires |s| > MaxStringLength ==> CharBoundary(s, MaxStringLength)
    requires Found(system.View(), Stored(s), system.hasher(Stored(s))).None? ==>
               PageIndex(system.refs.len) < |system.refs.pages| && system.refs.len < U32Max
    modifies system.table, system.refs, system.alloc, system.tracker
    ensures system.Valid() && system.Canonical()
    ensures Strings(old(system.View())) <= Strings(system.View())
    ensures Resolves(Strings(system.View()), t) && AsStr(Strings(system.View()), t) == Stored(s)
    ensures |s| <= MaxStringLength ==> EqStr(Strings(system.View()), t, s)
    ensures forall other :: Resolves(Strings(old(system.View())), other) ==>
              (AsStr(Strings(old(system.View())), other) == Stored(s) <==> other == t)
  {
    var id := NewStringId(s, system);
    t := Text(id);
    SameTexts(Strings(old(system.View())), Stored(s), t);
  }

  /** An id that only the strings equal to `part` had is the id of exactly the texts holding it. */
  lemma SameTexts(before: seq<Bytes>, part: Bytes, t: Text)
    requires forall j :: 0 <= j < |before| ==> (before[j] == part <==> Get(t.id) == j)
    ensures forall other :: Resolves(before, other) ==> (AsStr(before, other) == part <==> other == t)
  {
    forall other | Resolves(before, other)
      ensures AsStr(before, other) == part <==> other == t
    {
      FromRawPartsGet(other.id);
      FromRawPartsGet(t.id);
    }
  }
}
