/**
 * The `Murmur3` hasher: MurmurHash3 x86_32 over a 32-bit running seed.
 * Each `write` mixes the bytes four at a time into the seed and then
 * finalises the seed, so the state after one `write` is the seed for the
 * next.
 *
 * Every statement proved below is an equation between named functions;
 * the bit arithmetic stays inside their bodies.
 */
module Murmur3Hash {
  import opened Bytes

  const C1: bv32 := 0xCC9E_2D51
  const C2: bv32 := 0x1B87_3593
  const M: bv32 := 5
  const N: bv32 := 0xE654_6B64

  /** A four-byte chunk read as a little-endian `u32`. */
  function Le32(chunk: Bytes): bv32
    requires |chunk| == 4
  {
    (chunk[0] as bv32) | (chunk[1] as bv32 << 8) | (chunk[2] as bv32 << 16) | (chunk[3] as bv32 << 24)
  }

  /** The block mix: multiply by C1, rotate left by 15, multiply by C2. */
  function MixK(k: bv32): bv32
  {
    (k * C1).RotateLeft(15) * C2
  }

  /** A key mixed and xored into the seed. */
  function XorMix(seed: bv32, k: bv32): bv32
  {
    seed ^ MixK(k)
  }

  /** What `write_chunk` leaves in the seed. */
  function MixChunk(seed: bv32, chunk: Bytes): bv32
    requires |chunk| == 4
  {
    XorMix(seed, Le32(chunk))
  }

  /** The step a full block adds after the mix: rotate by 13, times 5, plus N. */
  function Round(seed: bv32): bv32
  {
    seed.RotateLeft(13) * M + N
  }

  /** A 1 to 3 byte tail padded with zero bytes to a chunk. */
  function Pad(tail: Bytes): (r: Bytes)
    requires 1 <= |tail| <= 3
    ensures |r| == 4 && r[..|tail|] == tail
    ensures forall i :: |tail| <= i < 4 ==> r[i] == 0
  {
    tail + seq(4 - |tail|, _ => 0)
  }

  /** `bytes.len() as u32`: the length truncated to 32 bits. */
  function LenU32(n: nat): bv32
  {
    (n % 0x1_0000_0000) as bv32
  }

  /** The final avalanche, fmix32. */
  function Fmix(h: bv32): bv32
  {
    var h1 := h ^ (h >> 16);
    var h2 := h1 * 0x85EB_CA6B;
    var h3 := h2 ^ (h2 >> 13);
    var h4 := h3 * 0xC2B2_AE35;
    h4 ^ (h4 >> 16)
  }

  /** The length xored in, then fmix32. */
  function Finalize(h: bv32, len: nat): bv32
  {
    Fmix(h ^ LenU32(len))
  }

  /*
   * The textbook formulation of MurmurHash3 x86_32: all full blocks first,
   * counted by index, then the tail key built with shifts and xors, then
   * the length and fmix32.
   */

  /** One full block of the textbook loop. */
  function Block(h: bv32, block: Bytes): bv32
    requires |block| == 4
  {
    Round(XorMix(h, Le32(block)))
  }

  /** The seed after the first `n` full blocks. */
  function Blocks(seed: bv32, bytes: Bytes, n: nat): bv32
    requires 4 * n <= |bytes|
  {
    if n == 0 then seed else Block(Blocks(seed, bytes, n - 1), bytes[4 * (n - 1)..4 * n])
  }

  /** The tail key, built as `k1 ^= tail[2] << 16; k1 ^= tail[1] << 8; k1 ^= tail[0]`. */
  function TailK(tail: Bytes): bv32
    requires |tail| < 4
  {
    (if |tail| >= 3 then tail[2] as bv32 << 16 else 0)
      ^ (if |tail| >= 2 then tail[1] as bv32 << 8 else 0)
      ^ (if |tail| >= 1 then tail[0] as bv32 else 0)
  }

  /** The mixed tail key xored in. */
  function TailMix(h: bv32, tail: Bytes): bv32
    requires |tail| < 4
  {
    XorMix(h, TailK(tail))
  }

  /** The seed after all full blocks and the tail. */
  function Tail(seed: bv32, bytes: Bytes): bv32
  {
    var nblocks := |bytes| / 4;
    var h := Blocks(seed, bytes, nblocks);
    var tail := bytes[4 * nblocks..];
    if |tail| == 0 then h else TailMix(h, tail)
  }

  /** MurmurHash3 x86_32 of `bytes` with seed `seed`. */
  function MurmurHash3(seed: bv32, bytes: Bytes): bv32
  {
    Finalize(Tail(seed, bytes), |bytes|)
  }

  /** Zero padding a tail and reading it little-endian is the tail key. */
  lemma PaddedTailIsTailK(tail: Bytes)
    requires 1 <= |tail| <= 3
    ensures Le32(Pad(tail)) == TailK(tail)
  {
    var p := Pad(tail);
    assert p[3] == 0;
    if |tail| == 1 {
      assert p[1] == 0 && p[2] == 0;
    } else if |tail| == 2 {
      assert p[2] == 0;
    }
  }

  lemma BlocksNext(seed: bv32, bytes: Bytes, n: nat)
    requires 4 * (n + 1) <= |bytes|
    ensures Blocks(seed, bytes, n + 1) == Block(Blocks(seed, bytes, n), bytes[4 * n..4 * (n + 1)])
  {
  }

  lemma TailExact(seed: bv32, bytes: Bytes)
    requires |bytes| % 4 == 0
    ensures Tail(seed, bytes) == Blocks(seed, bytes, |bytes| / 4)
  {
    assert bytes[4 * (|bytes| / 4)..] == [];
  }

  lemma TailPartial(seed: bv32, bytes: Bytes)
    requires |bytes| % 4 != 0
    ensures Tail(seed, bytes) == TailMix(Blocks(seed, bytes, |bytes| / 4), bytes[4 * (|bytes| / 4)..])
  {
  }

  /**
   * The loop of `write` has absorbed `bytes[..i]` into `h`: at a block
   * boundary `h` is the textbook blocks so far, past one it is the tail.
   */
  ghost predicate Absorbed(seed: bv32, bytes: Bytes, i: nat, h: bv32)
  {
    i <= |bytes|
    && (i % 4 == 0 ==> h == Blocks(seed, bytes, i / 4))
    && (i % 4 != 0 ==> i == |bytes| && h == Tail(seed, bytes))
  }

  /** A full chunk at a block boundary is the next textbook block. */
  lemma FullChunk(seed: bv32, bytes: Bytes, i: nat, j: nat, h: bv32, h': bv32)
    requires Absorbed(seed, bytes, i, h) && i % 4 == 0 && j == i + 4 && j <= |bytes|
    requires h' == Round(MixChunk(h, bytes[i..j]))
    ensures Absorbed(seed, bytes, j, h')
  {
    var n := i / 4;
    assert 4 * n == i && 4 * (n + 1) == j && j / 4 == n + 1;
    BlocksNext(seed, bytes, n);
    BlockIsChunk(h, bytes[i..j]);
  }

  lemma BlockIsChunk(h: bv32, block: Bytes)
    requires |block| == 4
    ensures Block(h, block) == Round(MixChunk(h, block))
  {
  }

  /** The padded chunk mixes in the tail key. */
  lemma MixPadded(h: bv32, tail: Bytes)
    requires 1 <= |tail| <= 3
    requires Le32(Pad(tail)) == TailK(tail)
    ensures MixChunk(h, Pad(tail)) == TailMix(h, tail)
  {
  }

  /** A 1 to 3 byte chunk after the last full block is the textbook tail. */
  lemma PartialChunk(seed: bv32, bytes: Bytes, i: nat, tail: Bytes, h: bv32, h': bv32)
    requires Absorbed(seed, bytes, i, h) && i % 4 == 0 && i < |bytes| < i + 4
    requires tail == bytes[i..] && h' == MixChunk(h, Pad(tail))
    ensures Absorbed(seed, bytes, |bytes|, h')
  {
    assert |bytes| / 4 == i / 4 && 4 * (|bytes| / 4) == i;
    PaddedTailIsTailK(bytes[i..]);
    MixPadded(h, bytes[i..]);
    TailPartial(seed, bytes);
  }

  /** Once every byte is absorbed, `h` is the seed before finalisation. */
  lemma AbsorbedAll(seed: bv32, bytes: Bytes, h: bv32)
    requires Absorbed(seed, bytes, |bytes|, h)
    ensures h == Tail(seed, bytes)
  {
    if |bytes| % 4 == 0 {
      TailExact(seed, bytes);
    }
  }

  /** "Hello World!" as bytes. */
  const HelloWorld: Bytes := [0x48, 0x65, 0x6C, 0x6C, 0x6F, 0x20, 0x57, 0x6F, 0x72, 0x6C, 0x64, 0x21]

  /** The example in the hasher's documentation: "Hello World!" with seed 0 hashes to 3691591037. */
  lemma HelloWorldHash(bytes: Bytes)
    requires bytes == HelloWorld
    ensures MurmurHash3(0, bytes) == 3691591037
  {
    BlocksOfHelloWorld(bytes);
    WholeBlocks(0, bytes, 3);
    FinalizeHelloWorld(Blocks(0, bytes, 3), |bytes|);
  }

  /** Input made of `n` whole blocks: the hash is the blocks, then the length and fmix32. */
  lemma WholeBlocks(seed: bv32, bytes: Bytes, n: nat)
    requires |bytes| == 4 * n
    ensures MurmurHash3(seed, bytes) == Finalize(Blocks(seed, bytes, n), |bytes|)
  {
    TailExact(seed, bytes);
  }

  lemma BlocksOfHelloWorld(bytes: Bytes)
    requires bytes == HelloWorld
    ensures |bytes| == 12 && Blocks(0, bytes, 3) == 0xAA52_AFC5
  {
    assert bytes[0..4] == [0x48, 0x65, 0x6C, 0x6C];
    assert bytes[4..8] == [0x6F, 0x20, 0x57, 0x6F];
    assert bytes[8..12] == [0x72, 0x6C, 0x64, 0x21];
    HelloWorldBlocks();
    BlocksNext(0, bytes, 0);
    BlocksNext(0, bytes, 1);
    BlocksNext(0, bytes, 2);
  }

  lemma HelloWorldBlocks()
    ensures Block(0, [0x48, 0x65, 0x6C, 0x6C]) == 0xCB5B_EC36
    ensures Block(0xCB5B_EC36, [0x6F, 0x20, 0x57, 0x6F]) == 0x1199_FB6B
    ensures Block(0x1199_FB6B, [0x72, 0x6C, 0x64, 0x21]) == 0xAA52_AFC5
  {
    assert Le32([0x48, 0x65, 0x6C, 0x6C]) == 0x6C6C_6548;
    assert Le32([0x6F, 0x20, 0x57, 0x6F]) == 0x6F57_206F;
    assert Le32([0x72, 0x6C, 0x64, 0x21]) == 0x2164_6C72;
  }

  lemma FinalizeHelloWorld(h: bv32, len: nat)
    requires h == 0xAA52_AFC5 && len == 12
    ensures Finalize(h, len) == 3691591037
  {
    LenTwelve(len);
    var x := h ^ LenU32(len);
    FmixHelloWorld(x);
  }

  lemma LenTwelve(len: nat)
    requires len == 12
    ensures LenU32(len) == 12
  {
  }

  lemma FmixHelloWorld(h: bv32)
    requires h == 0xAA52_AFC9
    ensures Fmix(h) == 3691591037
  {
  }

  /** The hasher: one 32-bit seed. */
  class Murmur3 {
    var seed: bv32

    /** `Murmur3::default()`: seed 0. */
    constructor Default()
      ensures seed == 0
    {
      seed := 0;
    }

    /** `finish`: the seed widened to 64 bits. */
    function Finish(): (r: bv64)
      reads this
      ensures r < 0x1_0000_0000 && r as bv32 == seed
    {
      seed as bv64
    }

    /** `write_chunk`: mixes one little-endian block into the seed. */
    method WriteChunk(chunk: Bytes)
      requires |chunk| == 4
      modifies this
      ensures seed == MixChunk(old(seed), chunk)
    {
      var k := Le32(chunk);
      seed := XorMix(seed, k);
    }

    /**
     * `write`: every chunk of `bytes.chunks(4)` in turn (a partial chunk is
     * zero padded and gets no round step), then the length and fmix32.
     */
    method Write(bytes: Bytes)
      modifies this
      ensures seed == MurmurHash3(old(seed), bytes)
    {
      ghost var s0 := seed;
      var i := 0;
      while i < |bytes|
        invariant Absorbed(s0, bytes, i, seed)
        decreases |bytes| - i
      {
        i := WriteNextChunk(s0, bytes, i);
      }
      AbsorbedAll(s0, bytes, seed);
      seed := Finalize(seed, |bytes|);
    }

    /** One turn of the loop of `write`: the next chunk of `bytes.chunks(4)` is absorbed. */
    method WriteNextChunk(ghost s0: bv32, bytes: Bytes, i: nat) returns (j: nat)
      requires i < |bytes| && Absorbed(s0, bytes, i, seed)
      modifies this
      ensures i < j && Absorbed(s0, bytes, j, seed)
    {
      if |bytes| - i >= 4 {
        WriteBlock(s0, bytes, i);
        j := i + 4;
      } else {
        WriteTail(s0, bytes, i);
        j := |bytes|;
      }
    }

    /** A full chunk: mixed in, then the round step. */
    method WriteBlock(ghost s0: bv32, bytes: Bytes, i: nat)
      requires i + 4 <= |bytes| && Absorbed(s0, bytes, i, seed)
      modifies this
      ensures Absorbed(s0, bytes, i + 4, seed)
    {
      ghost var h := seed;
      WriteChunk(bytes[i..i + 4]);
      seed := Round(seed);
      FullChunk(s0, bytes, i, i + 4, h, seed);
    }

    /** The last, partial chunk: zero padded and mixed in, with no round step. */
    method WriteTail(ghost s0: bv32, bytes: Bytes, i: nat)
      requires i < |bytes| < i + 4 && Absorbed(s0, bytes, i, seed)
      modifies this
      ensures Absorbed(s0, bytes, |bytes|, seed)
    {
      ghost var h := seed;
      WriteChunk(Pad(bytes[i..]));
      PartialChunk(s0, bytes, i, bytes[i..], h, seed);
    }
  }

  /** The hash the string subsystem uses by default: MurmurHash3 with seed 0, widened to 64 bits. */
  function DefaultHash(bytes: Bytes): (r: bv64)
    ensures r < 0x1_0000_0000 && r as bv32 == MurmurHash3(0, bytes)
  {
    MurmurHash3(0, bytes) as bv64
  }

  /**
   * `Hash::hash_slice(bytes, &mut hasher)` then `finish()`: a `u8` slice
   * is written whole, in one `write`, so the result is the 32-bit
   * MurmurHash3 of the bytes, seeded with the hasher's state.
   */
  method HashSliceFinish(hasher: Murmur3, bytes: Bytes) returns (r: bv64)
    modifies hasher
    ensures r == MurmurHash3(old(hasher.seed), bytes) as bv64
  {
    hasher.Write(bytes);
    r := hasher.Finish();
  }

  /** The same with a fresh hasher from `BuildHasherDefault<Murmur3>`: `DefaultHash`. */
  method HashSlice(bytes: Bytes) returns (r: bv64)
    ensures r == DefaultHash(bytes)
  {
    var hasher := new Murmur3.Default();
    r := HashSliceFinish(hasher, bytes);
  }
}
