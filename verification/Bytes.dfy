/** Bytes, 16-bit halves, and the machine-integer conversions the drivers rely on. */
module Bytes {

  type byte = bv8
  type half = bv16

  /** The implicit conversion of a `uint16_t` to a `uint8_t`. */
  function Lo(x: half): byte {
    (x & 0xFF) as byte
  }

  function Hi(x: half): byte {
    (x >> 8) as byte
  }

  function Join(hi: byte, lo: byte): half {
    ((hi as half) << 8) | (lo as half)
  }

  lemma JoinSplits(x: half)
    ensures Join(Hi(x), Lo(x)) == x
  {
  }

  /** High byte first, as numbers. */
  lemma JoinValue(hi: byte, lo: byte)
    ensures Join(hi, lo) == hi as half * 256 + lo as half
  {
  }

  lemma OrZero(b: byte)
    ensures b | 0 == b && 0 | b == b
  {
  }

  /** The small fixed-size buffers the headers are packed in. */
  datatype Four = Four(b0: byte, b1: byte, b2: byte, b3: byte) {
    function ToSeq(): (s: seq<byte>)
      ensures |s| == 4
    {
      [b0, b1, b2, b3]
    }
  }

  datatype Six = Six(b0: byte, b1: byte, b2: byte, b3: byte, b4: byte, b5: byte) {
    function ToSeq(): (s: seq<byte>)
      ensures |s| == 6
    {
      [b0, b1, b2, b3, b4, b5]
    }
  }

  /** Six bytes of a longer sequence. */
  function SixAt(s: seq<byte>, i: nat): Six
    requires i + 6 <= |s|
  {
    Six(s[i], s[i + 1], s[i + 2], s[i + 3], s[i + 4], s[i + 5])
  }

  function FourAt(s: seq<byte>, i: nat): Four
    requires i + 4 <= |s|
  {
    Four(s[i], s[i + 1], s[i + 2], s[i + 3])
  }
}

/** `size_t`, `long` and `int` of the drivers: 64, 64 and 32 bits wide. */
module MachineInts {

  const TWO_31: int := 0x8000_0000
  const TWO_32: int := 0x1_0000_0000
  const TWO_63: int := 0x8000_0000_0000_0000
  const TWO_64: int := 0x1_0000_0000_0000_0000

  /** The value an expression of type `size_t` wraps to. */
  function Size(x: int): (r: nat)
    ensures r < 0x1_0000_0000_0000_0000 && (r - x) % 0x1_0000_0000_0000_0000 == 0
  {
    x % TWO_64
  }

  /** Conversion of a `size_t` to `long int`. */
  function Long(x: nat): (r: int)
    requires x < TWO_64
    ensures -TWO_63 <= r < TWO_63 && (r == x || r == x - TWO_64)
  {
    if x < TWO_63 then x else x - TWO_64
  }

  /** Conversion of a `size_t` to `int`. */
  function Int(x: nat): (r: int)
    ensures -0x8000_0000 <= r < 0x8000_0000 && (r - x) % 0x1_0000_0000 == 0
  {
    var low := x % TWO_32;
    if low < TWO_31 then low else low - TWO_32
  }

  /** The unsigned subtraction that is stored into a `long` yields the mathematical
      difference exactly when that difference fits in a `long`. */
  lemma RemainderIsExact(have: nat, want: nat)
    requires have < TWO_64 && want < TWO_64
    ensures Long(Size(have - want)) == have - want <==> -TWO_63 <= have - want < TWO_63
  {
  }

  /** The bytes produced since the last write are counted correctly through an `int` running
      total exactly while that total stays below 2^31. */
  lemma IntTotalIsExact(now: nat, before: nat)
    requires before <= now < TWO_63
    ensures Size(now - Int(before)) == now - before <==> before < TWO_31
  {
  }
}
