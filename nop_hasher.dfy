/**
 * The `NopHasher`: a hasher that does no hashing. Every write overwrites a
 * single `u64` with the value written, so `finish` returns the last integer
 * that was hashed, widened to 64 bits.
 */
module NopHash {
  import opened Bytes

  /** The byte order of the target, which decides what "native endian" means. */
  datatype Endian = Little | Big

  /**
   * Signed integers are kept as their two's complement bit patterns: an
   * `i8` is a `bv8`, an `i64` a `bv64`, and `i as u64` on an `i64` keeps
   * the bits as they are.
   */
  type I8 = bv8
  type I16 = bv16
  type I32 = bv32
  type I64 = bv64

  /** `u64::from_le_bytes`. */
  function FromLeBytes(b: Bytes): bv64
    requires |b| == 8
  {
    (b[0] as bv64) | (b[1] as bv64 << 8) | (b[2] as bv64 << 16) | (b[3] as bv64 << 24)
      | (b[4] as bv64 << 32) | (b[5] as bv64 << 40) | (b[6] as bv64 << 48) | (b[7] as bv64 << 56)
  }

  /** `u64::to_le_bytes`. */
  function LeBytes(v: bv64): (r: Bytes)
    ensures |r| == 8
  {
    [(v & 0xFF) as byte, ((v >> 8) & 0xFF) as byte, ((v >> 16) & 0xFF) as byte, ((v >> 24) & 0xFF) as byte,
     ((v >> 32) & 0xFF) as byte, ((v >> 40) & 0xFF) as byte, ((v >> 48) & 0xFF) as byte, ((v >> 56) & 0xFF) as byte]
  }

  /** The bytes in the opposite order. */
  function Reversed(b: Bytes): (r: Bytes)
    requires |b| == 8
    ensures |r| == 8 && forall k :: 0 <= k < 8 ==> r[k] == b[7 - k]
  {
    [b[7], b[6], b[5], b[4], b[3], b[2], b[1], b[0]]
  }

  /** `u64::from_ne_bytes` on a target with byte order `e`. */
  function FromNeBytes(e: Endian, b: Bytes): bv64
    requires |b| == 8
  {
    match e
    case Little => FromLeBytes(b)
    case Big => FromLeBytes(Reversed(b))
  }

  /** `u64::to_ne_bytes` on a target with byte order `e`. */
  function NeBytes(e: Endian, v: bv64): (r: Bytes)
    ensures |r| == 8
  {
    match e
    case Little => LeBytes(v)
    case Big => Reversed(LeBytes(v))
  }

  /** `u64::swap_bytes`. */
  function SwapBytes(v: bv64): bv64
  {
    FromLeBytes(Reversed(LeBytes(v)))
  }

  /** `u64::to_le` on a target with byte order `e`. */
  function ToLe(e: Endian, v: bv64): bv64
  {
    if e == Little then v else SwapBytes(v)
  }

  /** `u64::to_be` on a target with byte order `e`. */
  function ToBe(e: Endian, v: bv64): bv64
  {
    if e == Big then v else SwapBytes(v)
  }

  /** `i8 as i64`: the sign bit copied into the upper 56 bits. */
  function Sext8(i: I8): (r: I64)
    ensures r & 0xFF == i as bv64
    ensures r >> 7 == if i >> 7 == 0 then 0 else 0x1FF_FFFF_FFFF_FFFF
  {
    if i >> 7 == 0 then i as bv64 else i as bv64 | 0xFFFF_FFFF_FFFF_FF00
  }

  /** `i16 as i64`: the sign bit copied into the upper 48 bits. */
  function Sext16(i: I16): (r: I64)
    ensures r & 0xFFFF == i as bv64
    ensures r >> 15 == if i >> 15 == 0 then 0 else 0x1_FFFF_FFFF_FFFF
  {
    if i >> 15 == 0 then i as bv64 else i as bv64 | 0xFFFF_FFFF_FFFF_0000
  }

  /** `i32 as i64`: the sign bit copied into the upper 32 bits. */
  function Sext32(i: I32): (r: I64)
    ensures r & 0xFFFF_FFFF == i as bv64
    ensures r >> 31 == if i >> 31 == 0 then 0 else 0x1_FFFF_FFFF
  {
    if i >> 31 == 0 then i as bv64 else i as bv64 | 0xFFFF_FFFF_0000_0000
  }

  lemma Reversed2(b: Bytes)
    requires |b| == 8
    ensures Reversed(Reversed(b)) == b
  {
  }

  /** Reading the little-endian bytes of a value gives the value back. */
  lemma LeRoundTrip(v: bv64)
    ensures FromLeBytes(LeBytes(v)) == v
  {
  }

  /** Writing out the value read from eight bytes gives the bytes back. */
  lemma LeBytesRoundTrip(b: Bytes)
    requires |b| == 8
    ensures LeBytes(FromLeBytes(b)) == b
  {
  }

  /** `from_ne_bytes(to_ne_bytes(v)) == v` on either byte order. */
  lemma NeRoundTrip(e: Endian, v: bv64)
    ensures FromNeBytes(e, NeBytes(e, v)) == v
  {
    LeRoundTrip(v);
    if e == Big {
      Reversed2(LeBytes(v));
    }
  }

  /** `to_ne_bytes(from_ne_bytes(b)) == b` on either byte order. */
  lemma NeBytesRoundTrip(e: Endian, b: Bytes)
    requires |b| == 8
    ensures NeBytes(e, FromNeBytes(e, b)) == b
  {
    if e == Little {
      LeBytesRoundTrip(b);
    } else {
      LeBytesRoundTrip(Reversed(b));
      Reversed2(b);
    }
  }

  /** Swapping the bytes twice changes nothing. */
  lemma SwapSwap(v: bv64)
    ensures SwapBytes(SwapBytes(v)) == v
  {
    LeBytesRoundTrip(Reversed(LeBytes(v)));
    Reversed2(LeBytes(v));
    LeRoundTrip(v);
  }

  /** The hasher: the last value written. */
  class NopHasher {
    const endian: Endian
    var value: bv64

    /** `NopHasher::default()` on a target with byte order `e`. */
    constructor Default(e: Endian)
      ensures endian == e && value == 0
    {
      endian := e;
      value := 0;
    }

    /** `finish`: the value last written. */
    function Finish(): bv64
      reads this
    {
      value
    }

    /**
     * `write`: the eight bytes are copied over the value, so they become its
     * native-endian representation. Fewer than eight bytes fail the debug
     * assertion (and would read past the slice without it).
     */
    method Write(bytes: Bytes)
      requires |bytes| == 8
      modifies this
      ensures value == FromNeBytes(endian, bytes)
      ensures NeBytes(endian, value) == bytes
    {
      value := FromNeBytes(endian, bytes);
      NeBytesRoundTrip(endian, bytes);
    }

    /** `write_u64` (the trait's default): the native-endian bytes of `i`, written. */
    method WriteU64(i: bv64)
      modifies this
      ensures value == i && Finish() == i
    {
      Write(NeBytes(endian, i));
      NeRoundTrip(endian, i);
    }

    /** `write_u8`: zero-extended. */
    method WriteU8(i: bv8)
      modifies this
      ensures value >> 8 == 0 && value & 0xFF == i as bv64
    {
      WriteU64(i as bv64);
    }

    /** `write_u16`: zero-extended. */
    method WriteU16(i: bv16)
      modifies this
      ensures value >> 16 == 0 && value & 0xFFFF == i as bv64
    {
      WriteU64(i as bv64);
    }

    /** `write_u32`: zero-extended. */
    method WriteU32(i: bv32)
      modifies this
      ensures value >> 32 == 0 && value & 0xFFFF_FFFF == i as bv64
    {
      WriteU64(i as bv64);
    }

    /** `write_usize`: a `usize` is 64 bits wide, so unchanged. */
    method WriteUsize(i: bv64)
      modifies this
      ensures value == i
    {
      WriteU64(i);
    }

    /** `write_i64` (the trait's default): `i as u64`, the same bits. */
    method WriteI64(i: I64)
      modifies this
      ensures value == i
    {
      WriteU64(i);
    }

    /** `write_i8`: sign-extended to 64 bits. */
    method WriteI8(i: I8)
      modifies this
      ensures value == Sext8(i)
    {
      WriteI64(Sext8(i));
    }

    /** `write_i16`: sign-extended to 64 bits. */
    method WriteI16(i: I16)
      modifies this
      ensures value == Sext16(i)
    {
      WriteI64(Sext16(i));
    }

    /** `write_i32`: sign-extended to 64 bits. */
    method WriteI32(i: I32)
      modifies this
      ensures value == Sext32(i)
    {
      WriteI64(Sext32(i));
    }

    /** `write_isize`: an `isize` is 64 bits wide, so `i as i64` keeps it. */
    method WriteIsize(i: I64)
      modifies this
      ensures value == i
    {
      WriteI64(i);
    }
  }

  /** The unsigned examples: 10 of every width hashes to 10. */
  method HashTenUnsigned(e: Endian) returns (r: seq<bv64>)
    ensures r == [10, 10, 10, 10, 10]
  {
    var h := new NopHasher.Default(e);
    h.WriteU8(10);
    var a := h.Finish();
    h.WriteU16(10);
    var b := h.Finish();
    h.WriteU32(10);
    var c := h.Finish();
    h.WriteU64(10);
    var d := h.Finish();
    h.WriteUsize(10);
    r := [a, b, c, d, h.Finish()];
  }

  /** The signed examples: 10 of every width hashes to 10. */
  method HashTenSigned(e: Endian) returns (r: seq<bv64>)
    ensures r == [10, 10, 10, 10, 10]
  {
    var h := new NopHasher.Default(e);
    h.WriteI8(10);
    var a := h.Finish();
    h.WriteI16(10);
    var b := h.Finish();
    h.WriteI32(10);
    var c := h.Finish();
    h.WriteI64(10);
    var d := h.Finish();
    h.WriteIsize(10);
    r := [a, b, c, d, h.Finish()];
  }

  /** -10 of every signed width (bit patterns 0xF6, 0xFFF6, ...) hashes to `-10_i64 as u64`. */
  method HashMinusTen(e: Endian) returns (r: seq<bv64>)
    ensures r == [0xFFFF_FFFF_FFFF_FFF6, 0xFFFF_FFFF_FFFF_FFF6, 0xFFFF_FFFF_FFFF_FFF6, 0xFFFF_FFFF_FFFF_FFF6, 0xFFFF_FFFF_FFFF_FFF6]
  {
    var h := new NopHasher.Default(e);
    h.WriteI8(0xF6);
    var a := h.Finish();
    h.WriteI16(0xFFF6);
    var b := h.Finish();
    h.WriteI32(0xFFFF_FFF6);
    var c := h.Finish();
    h.WriteI64(0xFFFF_FFFF_FFFF_FFF6);
    var d := h.Finish();
    h.WriteIsize(0xFFFF_FFFF_FFFF_FFF6);
    r := [a, b, c, d, h.Finish()];
  }

  /** The array examples: eight bytes hashed as a slice are read in native byte order. */
  method HashArrays(e: Endian) returns (le: bv64, be: bv64)
    ensures le == ToLe(e, 0x1234_5678_9ABC_DEF0)
    ensures be == ToBe(e, 0x1234_5678_9ABC_DEF0)
  {
    var h := new NopHasher.Default(e);
    h.Write([0xF0, 0xDE, 0xBC, 0x9A, 0x78, 0x56, 0x34, 0x12]);
    le := h.Finish();
    h := new NopHasher.Default(e);
    h.Write([0x12, 0x34, 0x56, 0x78, 0x9A, 0xBC, 0xDE, 0xF0]);
    be := h.Finish();
  }
}
