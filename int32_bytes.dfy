/** Bytes and the in-memory image of a native C `int`.

    The helper-command records copy a native `int` into a `char` buffer with
    `memcpy(..., &x, sizeof(int))`. On the x86_64 build target an `int` is a
    32-bit two's-complement value stored least significant byte first, so
    that copy yields the four little-endian bytes of `x` modulo 2^32.
 */
module Int32Bytes {

  /** One `char` of a buffer or of a `std::string`, as an unsigned octet. */
  newtype byte = b: int | 0 <= b < 256

  const Int32Min: int := -0x8000_0000
  const Int32Max: int := 0x7FFF_FFFF

  /** A C `int` on the build target. */
  newtype int32 = x: int | Int32Min <= x <= Int32Max

  /** `sizeof(int)` on the build target. */
  const IntSize: nat := 4

  /** 256 to the power `n`: one more than the largest value `n` bytes hold. */
  function Pow256(n: nat): (r: nat)
    ensures r >= 1
  {
    if n == 0 then 1 else 256 * Pow256(n - 1)
  }

  /** The `n` low-order bytes of `u`, least significant first. */
  function LittleEndian(u: nat, n: nat): (r: seq<byte>)
    ensures |r| == n
  {
    if n == 0 then [] else [(u % 256) as byte] + LittleEndian(u / 256, n - 1)
  }

  /** The unsigned value of a little-endian byte sequence. */
  function FromLittleEndian(b: seq<byte>): (u: nat)
    ensures u < Pow256(|b|)
  {
    if b == [] then 0
    else
      var rest := FromLittleEndian(b[1..]);
      assert 256 * rest <= 256 * (Pow256(|b| - 1) - 1);
      b[0] as nat + 256 * rest
  }

  /** Reading back the `n` bytes of a value that fits in them gives the value. */
  lemma {:induction false} FromLittleEndianOfLittleEndian(u: nat, n: nat)
    requires u < Pow256(n)
    ensures FromLittleEndian(LittleEndian(u, n)) == u
  {
    if n > 0 {
      FromLittleEndianOfLittleEndian(u / 256, n - 1);
      assert LittleEndian(u, n)[1..] == LittleEndian(u / 256, n - 1);
    }
  }

  /** Every byte sequence is the little-endian image of its own value. */
  lemma {:induction false} LittleEndianOfFromLittleEndian(b: seq<byte>)
    ensures LittleEndian(FromLittleEndian(b), |b|) == b
  {
    if b != [] {
      var u, rest := FromLittleEndian(b), FromLittleEndian(b[1..]);
      assert u == b[0] as int + 256 * rest;
      assert u % 256 == b[0] as int && u / 256 == rest;
      LittleEndianOfFromLittleEndian(b[1..]);
    }
  }

  /** The bit pattern of `x` read as an unsigned 32-bit number. */
  function Unsigned(x: int32): (u: nat)
    ensures u == x as int % 0x1_0000_0000
  {
    if x < 0 then x as int + 0x1_0000_0000 else x as int
  }

  /** The `int` whose bit pattern is the unsigned 32-bit number `u`. */
  function Signed(u: nat): (x: int32)
    requires u < 0x1_0000_0000
    ensures Unsigned(x) == u
  {
    if u < 0x8000_0000 then u as int32 else (u - 0x1_0000_0000) as int32
  }

  /** The four bytes `memcpy(dst, &x, sizeof(int))` writes. */
  function EncodeInt32(x: int32): (r: seq<byte>)
    ensures |r| == IntSize
  {
    LittleEndian(Unsigned(x), IntSize)
  }

  /** The native `int` stored in four bytes of memory. */
  function DecodeInt32(b: seq<byte>): (x: int32)
    requires |b| == IntSize
  {
    assert Pow256(IntSize) == 0x1_0000_0000;
    Signed(FromLittleEndian(b))
  }

  /** Decoding the bytes of an `int` returns that `int`. */
  lemma Int32RoundTrip(x: int32)
    ensures DecodeInt32(EncodeInt32(x)) == x
  {
    assert Pow256(IntSize) == 0x1_0000_0000;
    FromLittleEndianOfLittleEndian(Unsigned(x), IntSize);
  }

  /** Any four bytes are the image of the `int` they decode to. */
  lemma Int32BytesRoundTrip(b: seq<byte>)
    requires |b| == IntSize
    ensures EncodeInt32(DecodeInt32(b)) == b
  {
    LittleEndianOfFromLittleEndian(b);
  }

  /** Different `int`s have different byte images. */
  lemma EncodeInt32Injective(x: int32, y: int32)
    ensures EncodeInt32(x) == EncodeInt32(y) <==> x == y
  {
    if EncodeInt32(x) == EncodeInt32(y) {
      Int32RoundTrip(x);
      Int32RoundTrip(y);
    }
  }
}
