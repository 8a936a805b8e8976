/**
 * `Name`: an interned string part plus an optional numeric suffix, so that
 * "foo-1", "foo-2", ... share one `StringId`. `split_string` cuts the
 * suffix off; the accessors and comparisons read the string part from the
 * subsystem.
 *
 * The subsystem a name refers to is given to the functions here as
 * `strings`, the strings it has interned in id order (`Strings(View())`
 * of `StringSubsystem.Subsystem`, which `Subsystem.String` returns).
 */
module Names {
  import opened Wrappers
  import opened Bytes
  import opened StringIds
  import opened StringEntries
  import opened EntryHashTables
  import opened StaticRefVectors
  import opened StringSubsystem
  import opened Orderings

  /** The byte `'0'`. */
  const Zero: byte := 0x30

  /** `u8::is_ascii_digit`. */
  predicate IsDigit(b: byte)
  {
    0x30 <= b <= 0x39
  }

  predicate AllDigits(ds: Bytes)
  {
    forall i :: 0 <= i < |ds| ==> IsDigit(ds[i])
  }

  /** The ASCII digits `'0'` to `'9'`, in order. */
  const Digits: seq<byte> := [0x30, 0x31, 0x32, 0x33, 0x34, 0x35, 0x36, 0x37, 0x38, 0x39]

  /** The value of an ASCII digit. */
  function DigitValue(b: byte): (r: nat)
    requires IsDigit(b)
    ensures r < 10 && Digits[r] == b
  {
    if b == 0x30 then 0 else if b == 0x31 then 1 else if b == 0x32 then 2
    else if b == 0x33 then 3 else if b == 0x34 then 4 else if b == 0x35 then 5
    else if b == 0x36 then 6 else if b == 0x37 then 7 else if b == 0x38 then 8 else 9
  }

  /** The ASCII digit of a value below ten. */
  function DigitOf(d: nat): (r: byte)
    requires d < 10
    ensures IsDigit(r) && DigitValue(r) == d && (r == Zero <==> d == 0)
  {
    Digits[d]
  }

  /** The value of a run of decimal digits, most significant first. */
  function Value(ds: Bytes): nat
    requires AllDigits(ds)
  {
    if ds == [] then 0 else Value(ds[..|ds| - 1]) * 10 + DigitValue(ds[|ds| - 1])
  }

  /** `n.to_string()`: the decimal digits of `n`, with no leading zero. */
  function Decimal(n: nat): (r: Bytes)
    ensures r != [] && AllDigits(r)
    ensures r[0] == Zero <==> n == 0
  {
    if n < 10 then [DigitOf(n)] else Decimal(n / 10) + [DigitOf(n % 10)]
  }

  /** The printed digits read back as the number printed. */
  lemma {:induction false} ValueOfDecimal(n: nat)
    ensures Value(Decimal(n)) == n
  {
    if n >= 10 {
      ValueOfDecimal(n / 10);
      var r := Decimal(n);
      assert r[..|r| - 1] == Decimal(n / 10);
    }
  }

  /** A run of digits that does not start with `'0'` has a value of at least one. */
  lemma {:induction false} ValuePositive(ds: Bytes)
    requires ds != [] && AllDigits(ds) && ds[0] != Zero
    ensures Value(ds) >= 1
  {
    if |ds| > 1 {
      ValuePositive(ds[..|ds| - 1]);
    }
  }

  /** Dividing `10 q + d` by ten gives `q`, remainder `d`. */
  lemma DivMod10(n: nat, q: nat, d: nat)
    requires d < 10 && n == q * 10 + d
    ensures n / 10 == q && n % 10 == d
  {
  }

  /** Printing `10 q + d` prints `q`, then the digit `d`. */
  lemma DecimalStep(n: nat, q: nat, d: nat)
    requires q >= 1 && d < 10 && n == q * 10 + d
    ensures Decimal(n) == Decimal(q) + [DigitOf(d)]
  {
    DivMod10(n, q, d);
    assert n >= 10;
  }

  /** Printing the value of a digit run without leading zero gives the run back. */
  lemma {:induction false} DecimalOfValue(ds: Bytes)
    requires ds != [] && AllDigits(ds) && ds[0] != Zero
    ensures Decimal(Value(ds)) == ds
  {
    if |ds| == 1 {
      assert Value(ds) == DigitValue(ds[0]);
    } else {
      var init := ds[..|ds| - 1];
      DecimalOfValue(init);
      DecimalAppend(init, ds[|ds| - 1]);
      assert init + [ds[|ds| - 1]] == ds;
    }
  }

  /** One more digit after a printed number is printed after it. */
  lemma DecimalAppend(init: Bytes, last: byte)
    requires init != [] && AllDigits(init) && init[0] != Zero && IsDigit(last)
    requires Decimal(Value(init)) == init
    ensures Decimal(Value(init + [last])) == init + [last]
  {
    var ds := init + [last];
    assert ds[..|ds| - 1] == init;
    var q, d := Value(init), DigitValue(last);
    assert ds[|ds| - 1] == last;
    assert Value(ds) == q * 10 + d;
    ValuePositive(init);
    DecimalStep(Value(ds), q, d);
  }

  /** Where the run of ASCII digits that ends at `i` starts. */
  function RunStart(s: Bytes, i: nat): (r: nat)
    requires i <= |s|
    ensures r <= i && (forall j :: r <= j < i ==> IsDigit(s[j])) && (r > 0 ==> !IsDigit(s[r - 1]))
    decreases i
  {
    if i > 0 && IsDigit(s[i - 1]) then RunStart(s, i - 1) else i
  }

  /** The leftmost byte from `i` on that is not `'0'`. */
  function FirstNonZero(s: Bytes, i: nat): (r: Option<nat>)
    requires i <= |s|
    ensures r.Some? ==> i <= r.value < |s| && s[r.value] != Zero && forall j :: i <= j < r.value ==> s[j] == Zero
    ensures r.None? ==> forall j :: i <= j < |s| ==> s[j] == Zero
    decreases |s| - i
  {
    if i == |s| then None else if s[i] != Zero then Some(i) else FirstNonZero(s, i + 1)
  }

  /** `u32::from_str` on a non-empty run of digits: its value, unless that overflows `u32`. */
  function FromStr(ds: Bytes): (r: Option<nat>)
    requires ds != [] && AllDigits(ds)
    ensures r.Some? <==> Value(ds) <= U32Max
    ensures r.Some? ==> r.value == Value(ds)
  {
    var n := Value(ds);
    if n <= U32Max then Some(n) else None
  }

  /** The trailing digits of `p`, if any, are all `'0'`: nothing of `p` would be split off. */
  predicate ZeroRun(p: Bytes)
  {
    FirstNonZero(p, RunStart(p, |p|)).None?
  }

  /** What a number adds to the displayed form of a name. */
  function Suffix(number: Option<NonZeroU32>): Bytes
  {
    if number.Some? then Decimal(number.value) else []
  }

  /**
   * `split_string(s)`: the suffix starts at the leftmost non-zero digit of
   * the trailing run of ASCII digits; with no such digit, or a suffix
   * that overflows `u32`, nothing is split. The parts always join back to
   * `s`, and the printed suffix has no leading zero.
   */
  function Split(s: Bytes): (r: (Bytes, Option<NonZeroU32>))
    ensures r.0 + Suffix(r.1) == s
    ensures r.1.None? ==> r.0 == s
  {
    var start := RunStart(s, |s|);
    match FirstNonZero(s, start)
    case None => (s, None)
    case Some(k) =>
      DigitSuffix(s, k);
      var number := FromStr(s[k..]);
      if number.Some? then (s[..k], Some(number.value)) else (s, None)
  }

  /** A run of digits from a non-zero one to the end prints back as itself. */
  lemma DigitSuffix(s: Bytes, k: nat)
    requires k < |s| && s[k] != Zero && forall j :: k <= j < |s| ==> IsDigit(s[j])
    ensures AllDigits(s[k..]) && s[k..][0] != Zero && Value(s[k..]) >= 1
    ensures Decimal(Value(s[k..])) == s[k..] && s[..k] + s[k..] == s
  {
    ValuePositive(s[k..]);
    DecimalOfValue(s[k..]);
  }

  /**
   * `split_string` is the loop of the source: it walks back over the
   * trailing digits, remembering the last non-zero one it passed.
   */
  method SplitString(s: Bytes) returns (prefix: Bytes, number: Option<NonZeroU32>)
    ensures prefix == Split(s).0 && number == Split(s).1
  {
    var lastValid: Option<nat> := None;
    var i: nat := |s|;
    while i > 0 && IsDigit(s[i - 1])
      invariant i <= |s| && RunStart(s, i) == RunStart(s, |s|)
      invariant lastValid == FirstNonZero(s, i)
    {
      if s[i - 1] != Zero {
        lastValid := Some(i - 1);
      }
      i := i - 1;
    }
    match lastValid {
      case None =>
        prefix, number := s, None;
      case Some(idx) =>
        var digits := s[idx..];
        match FromStr(digits) {
          case None =>
            prefix, number := s, None;
          case Some(n) =>
            ValuePositive(digits);
            prefix, number := s[..idx], Some(n);
        }
    }
  }

  /** Digits appended to the end of a run do not move the start of the run. */
  lemma {:induction false} RunStartOverDigits(s: Bytes, j: nat, i: nat)
    requires j <= i <= |s| && forall k :: j <= k < i ==> IsDigit(s[k])
    ensures RunStart(s, i) == RunStart(s, j)
    decreases i - j
  {
    if j < i {
      RunStartOverDigits(s, j, i - 1);
    }
  }

  /** The start of a run depends only on the bytes before its end. */
  lemma {:induction false} RunStartPrefix(s: Bytes, n: nat, i: nat)
    requires i <= n <= |s|
    ensures RunStart(s[..n], i) == RunStart(s, i)
  {
    if i > 0 {
      RunStartPrefix(s, n, i - 1);
    }
  }

  /** The first non-zero byte is the first one past a stretch of zeros. */
  lemma {:induction false} FirstNonZeroAt(s: Bytes, i: nat, k: nat)
    requires i <= k < |s| && s[k] != Zero && forall j :: i <= j < k ==> s[j] == Zero
    ensures FirstNonZero(s, i) == Some(k)
    decreases k - i
  {
    if i < k {
      FirstNonZeroAt(s, i + 1, k);
    }
  }

  /** Past `i` there are only zeros: no non-zero byte is found. */
  lemma {:induction false} FirstNonZeroNone(s: Bytes, i: nat)
    requires i <= |s| && forall j :: i <= j < |s| ==> s[j] == Zero
    ensures FirstNonZero(s, i).None?
    decreases |s| - i
  {
    if i < |s| {
      FirstNonZeroNone(s, i + 1);
    }
  }

  /** What `split_string` leaves as the prefix never has a suffix of its own to split. */
  lemma SplitPrefixZeroRun(s: Bytes)
    requires Split(s).1.Some?
    ensures ZeroRun(Split(s).0)
  {
    var start := RunStart(s, |s|);
    var k := FirstNonZero(s, start).value;
    var p := s[..k];
    assert p == Split(s).0;
    RunStartOverDigits(s, k, |s|);
    RunStartPrefix(s, k, k);
    assert RunStart(p, |p|) == start;
    FirstNonZeroNone(p, start);
  }

  /**
   * The converse round trip: a number printed after a string whose own
   * trailing digits are all zeros is split off again exactly.
   */
  lemma SplitJoin(p: Bytes, n: NonZeroU32)
    requires ZeroRun(p)
    ensures Split(p + Decimal(n)) == (p, Some(n))
  {
    var d := Decimal(n);
    var s := p + d;
    var start := RunStart(p, |p|);
    RunStartOverDigits(s, |p|, |s|);
    assert s[..|p|] == p;
    RunStartPrefix(s, |p|, |p|);
    assert RunStart(s, |s|) == start;
    FirstNonZeroAt(s, start, |p|);
    assert s[|p|..] == d && s[..|p|] == p;
    ValueOfDecimal(n);
  }

  /** `split_string` never maps two strings to the same parts. */
  lemma SplitInjective(s1: Bytes, s2: Bytes)
    ensures Split(s1) == Split(s2) <==> s1 == s2
  {
  }

  /** A `Name`: `from_raw_parts(id, number)`, with `id()` and `number()` its fields. */
  datatype Name = Name(id: StringId, number: Option<NonZeroU32>)

  /** The name's id is one the subsystem has handed out. */
  predicate Resolves(strings: seq<Bytes>, name: Name)
  {
    Get(name.id) < |strings|
  }

  /** `string_part`: `system.string(id)`. */
  function StringPart(strings: seq<Bytes>, name: Name): Bytes
    requires Resolves(strings, name)
  {
    strings[Get(name.id)]
  }

  /** `Display`: the string part, then the number if there is one. */
  function Display(strings: seq<Bytes>, name: Name): Bytes
    requires Resolves(strings, name)
  {
    StringPart(strings, name) + Suffix(name.number)
  }

  /**
   * A name as `Name::new` builds them: a string part with nothing to
   * split off whenever a number is present.
   */
  predicate WellFormed(strings: seq<Bytes>, name: Name)
  {
    Resolves(strings, name) && (name.number.Some? ==> ZeroRun(StringPart(strings, name)))
  }

  /** `as_str`: the string part borrowed when there is no number, the displayed form otherwise. */
  function AsStr(strings: seq<Bytes>, name: Name): (r: Bytes)
    requires Resolves(strings, name)
    ensures r == Display(strings, name)
  {
    if name.number.Some? then StringPart(strings, name) + Decimal(name.number.value)
    else StringPart(strings, name)
  }

  /** `len`: the string part's length plus the number of digits of the number. */
  function Len(strings: seq<Bytes>, name: Name): (r: nat)
    requires Resolves(strings, name)
    ensures r == |Display(strings, name)|
  {
    var len := |StringPart(strings, name)|;
    if name.number.Some? then len + |Decimal(name.number.value)| else len
  }

  /** `is_empty`: never with a number, otherwise when the string part is empty. */
  function IsEmpty(strings: seq<Bytes>, name: Name): (r: bool)
    requires Resolves(strings, name)
    ensures r <==> Display(strings, name) == []
    ensures r <==> Len(strings, name) == 0
  {
    if name.number.Some? then false else StringPart(strings, name) == []
  }

  /** `Hash`: the id, then the number. */
  function HashKey(name: Name): (r: (StringId, Option<NonZeroU32>))
    ensures r.0 == name.id && r.1 == name.number
  {
    (name.id, name.number)
  }

  /**
   * `==`: the `(string_part, number)` pairs. (The fast path taken when
   * both operands are the same value gives the same answer.)
   */
  function Eq(strings: seq<Bytes>, a: Name, b: Name): bool
    requires Resolves(strings, a) && Resolves(strings, b)
  {
    (StringPart(strings, a), a.number) == (StringPart(strings, b), b.number)
  }

  /** `cmp`: the `(string_part, number)` pairs, text first, `None` before any number. */
  function Compare(strings: seq<Bytes>, a: Name, b: Name): (r: Ordering)
    requires Resolves(strings, a) && Resolves(strings, b)
    ensures r == Equal <==> Eq(strings, a, b)
  {
    ComparePair((StringPart(strings, a), a.number), (StringPart(strings, b), b.number))
  }

  /** No string is interned twice. */
  predicate Distinct(strings: seq<Bytes>)
  {
    forall i, j :: 0 <= i < j < |strings| ==> strings[i] != strings[j]
  }

  /**
   * In a subsystem that interns every string once, two names are equal
   * exactly when their ids and numbers are, so `Hash` (on id and number)
   * agrees with `==`.
   */
  lemma EqualIffSameKey(strings: seq<Bytes>, a: Name, b: Name)
    requires Distinct(strings) && Resolves(strings, a) && Resolves(strings, b)
    ensures Eq(strings, a, b) <==> HashKey(a) == HashKey(b)
  {
    if Eq(strings, a, b) {
      assert strings[Get(a.id)] == strings[Get(b.id)];
      assert Get(a.id) == Get(b.id);
    }
    FromRawPartsGet(a.id);
    FromRawPartsGet(b.id);
  }

  /** Comparing the other way round reverses the ordering. */
  lemma CompareReverse(strings: seq<Bytes>, a: Name, b: Name)
    requires Resolves(strings, a) && Resolves(strings, b)
    ensures Compare(strings, b, a) == Reverse(Compare(strings, a, b))
  {
    ComparePairReverse((StringPart(strings, a), a.number), (StringPart(strings, b), b.number));
  }

  /**
   * `name == other` for a string `other`: with a number, the pair against
   * `split_string(other)`; without, the string part against `other`.
   */
  function EqStr(strings: seq<Bytes>, name: Name, other: Bytes): bool
    requires Resolves(strings, name)
  {
    if name.number.Some? then (StringPart(strings, name), name.number) == Split(other)
    else StringPart(strings, name) == other
  }

  /** `other == name`, the mirrored implementation: the same answer. */
  function StrEq(strings: seq<Bytes>, other: Bytes, name: Name): (r: bool)
    requires Resolves(strings, name)
    ensures r == EqStr(strings, name, other)
  {
    if name.number.Some? then Split(other) == (StringPart(strings, name), name.number)
    else other == StringPart(strings, name)
  }

  /** `name.partial_cmp(other)` for a string `other`, split the same way as `==`. */
  function CompareStr(strings: seq<Bytes>, name: Name, other: Bytes): (r: Ordering)
    requires Resolves(strings, name)
    ensures r == Equal <==> EqStr(strings, name, other)
  {
    CompareBytesEqual(StringPart(strings, name), other);
    if name.number.Some? then ComparePair((StringPart(strings, name), name.number), Split(other))
    else CompareBytes(StringPart(strings, name), other)
  }

  /** `other.partial_cmp(name)`, the mirrored implementation: the reverse ordering. */
  function StrCompare(strings: seq<Bytes>, other: Bytes, name: Name): (r: Ordering)
    requires Resolves(strings, name)
    ensures r == Reverse(CompareStr(strings, name, other))
  {
    CompareBytesReverse(StringPart(strings, name), other);
    ComparePairReverse((StringPart(strings, name), name.number), Split(other));
    if name.number.Some? then ComparePair(Split(other), (StringPart(strings, name), name.number))
    else CompareBytes(other, StringPart(strings, name))
  }

  /** For a well-formed name, comparing with a string is comparing with the displayed form. */
  lemma EqStrIffDisplay(strings: seq<Bytes>, name: Name, other: Bytes)
    requires WellFormed(strings, name)
    ensures EqStr(strings, name, other) <==> Display(strings, name) == other
  {
    if name.number.Some? {
      SplitJoin(StringPart(strings, name), name.number.value);
    }
  }

  /** `name` is what `Name::new(s)` gives when the string part is stored whole. */
  predicate MadeFrom(strings: seq<Bytes>, name: Name, s: Bytes)
  {
    Resolves(strings, name) && (StringPart(strings, name), name.number) == Split(s)
  }

  /**
   * Names made from two strings are equal exactly when the strings are,
   * and a name made from `s` displays as `s` and is well-formed.
   */
  lemma MadeFromFacts(strings: seq<Bytes>, a: Name, s1: Bytes, b: Name, s2: Bytes)
    requires MadeFrom(strings, a, s1) && MadeFrom(strings, b, s2)
    ensures Eq(strings, a, b) <==> s1 == s2
    ensures Display(strings, a) == s1 && WellFormed(strings, a)
  {
    SplitInjective(s1, s2);
    if a.number.Some? {
      SplitPrefixZeroRun(s1);
    }
  }

  /**
   * `Name::new(s)`: splits `s` (with `Split`, which `SplitString`
   * computes) and interns the string part alone, through the corrected
   * `create_string_id`. Every name that already had that
   * string part shares the new name's id, which is how "foo-123" and
   * "foo-456" get the same id; a string part up to `MAX_STRING_LENGTH`
   * displays as `s` again.
   */
  method NewName(s: Bytes, system: Subsystem) returns (name: Name)
    requires system.Valid() && system.Canonical() && |s| < UsizeModulus
    requires |Split(s).0| > MaxStringLength ==> CharBoundary(Split(s).0, MaxStringLength)
    requires Found(system.View(), Stored(Split(s).0), system.hasher(Stored(Split(s).0))).None? ==>
               PageIndex(system.refs.len) < |system.refs.pages| && system.refs.len < U32Max
    modifies system.table, system.refs, system.alloc, system.tracker
    ensures system.Valid() && system.Canonical()
    ensures Strings(old(system.View())) <= Strings(system.View())
    ensures Resolves(Strings(system.View()), name) && name.number == Split(s).1
    ensures StringPart(Strings(system.View()), name) == Stored(Split(s).0)
    ensures |Split(s).0| <= MaxStringLength ==> MadeFrom(Strings(system.View()), name, s)
    ensures forall other :: (Resolves(Strings(old(system.View())), other) &&
              StringPart(Strings(old(system.View())), other) == Stored(Split(s).0)) ==> other.id == name.id
  {
    var parts := Split(s);
    var id := NewStringId(parts.0, system);
    name := Name(id, parts.1);
    SharedIds(Strings(old(system.View())), Strings(system.View()), Stored(parts.0), id);
  }

  /** An id that equal strings interned before share is the id of every name with that string part. */
  lemma SharedIds(before: seq<Bytes>, after: seq<Bytes>, part: Bytes, id: StringId)
    requires forall j :: 0 <= j < |before| ==> (before[j] == part <==> Get(id) == j)
    ensures forall other :: (Resolves(before, other) && StringPart(before, other) == part) ==> other.id == id
  {
    forall other | Resolves(before, other) && StringPart(before, other) == part
      ensures other.id == id
    {
      FromRawPartsGet(other.id);
      FromRawPartsGet(id);
    }
  }
}
