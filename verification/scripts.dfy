/** Integer narrowing and bitfield expansion helpers of client/scripts.go. */
module Scripts {
  import opened Binary

  /** Go's int32(x): keep the low 32 bits and read them as two's complement. */
  function ToInt32(x: int): (r: int)
    ensures -0x8000_0000 <= r < 0x8000_0000
    ensures (x - r) % Two32 == 0
    ensures -0x8000_0000 <= x < 0x8000_0000 ==> r == x
  {
    var low := x % Two32;
    if low >= 0x8000_0000 then low - Two32 else low
  }

  /** Go's int arithmetic on 64-bit targets: keep the low 64 bits and read
      them as two's complement. */
  function ToInt64(x: int): (r: GoInt)
    ensures (x - r) % Two64 == 0
    ensures -0x8000_0000_0000_0000 <= x < 0x8000_0000_0000_0000 ==> r == x
  {
    var low := x % Two64;
    if low >= 0x8000_0000_0000_0000 then low - Two64 else low
  }

  /** Go's int16(x): keep the low 16 bits and read them as two's complement. */
  function ToInt16(x: int): (r: int)
    ensures -0x8000 <= r < 0x8000
    ensures (x - r) % Two16 == 0
    ensures -0x8000 <= x < 0x8000 ==> r == x
  {
    var low := x % Two16;
    if low >= 0x8000 then low - Two16 else low
  }

  /** convertIntToUint64: int64(i) is the identity on a 64-bit int, and
      uint64(.) re-reads the two's-complement bits, i.e. reduces modulo 2^64. */
  function ConvertIntToUint64(i: GoInt): (r: Uint64)
    ensures r == i % Two64
    ensures 0 <= i ==> r == i
    ensures i < 0 ==> r == Two64 + i
  {
    var rep64Int := i;
    if rep64Int < 0 then rep64Int + Two64 else rep64Int
  }

  /** convertIntToUint32: narrowing to int32 then re-reading as uint32 is
      reduction modulo 2^32, so -1 becomes 0xFFFFFFFF. */
  function ConvertIntToUint32(i: GoInt): (r: Uint32)
    ensures r == i % Two32
    ensures 0 <= i < Two32 ==> r == i
    ensures i == -1 ==> r == 0xFFFF_FFFF
  {
    var rep32Int := ToInt32(i);
    if rep32Int < 0 then rep32Int + Two32 else rep32Int
  }

  /** convertIntToUint16: reduction modulo 2^16. */
  function ConvertIntToUint16(i: GoInt): (r: Uint16)
    ensures r == i % Two16
    ensures 0 <= i < Two16 ==> r == i
  {
    var rep16Int := ToInt16(i);
    if rep16Int < 0 then rep16Int + Two16 else rep16Int
  }

  /** Bit k of b, counting from the least significant bit: the low bit of
      b shifted right k times (`b >> k & 1`). */
  function BitOf(b: byte, k: nat): (r: int)
    requires k < 8
    ensures r == 0 || r == 1
  {
    if k == 0 then b % 2 else BitOf(b / 2, k - 1)
  }

  /** The eight bits of one byte, most significant first: `b >> (7-j) & 1`. */
  function ByteBits(b: byte): (r: seq<int>)
    ensures |r| == 8
    ensures forall j :: 0 <= j < 8 ==> r[j] == BitOf(b, 7 - j)
  {
    [BitOf(b, 7), BitOf(b, 6), BitOf(b, 5), BitOf(b, 4), BitOf(b, 3), BitOf(b, 2), BitOf(b, 1), BitOf(b, 0)]
  }

  /** getBitsFromByteSlice: eight entries per byte, byte 0 first; the
      entries 8i .. 8i+8 are the bits of byte i, most significant first, so
      the high bit of byte 0 is entry 0. */
  function GetBitsFromByteSlice(bs: seq<byte>): (r: seq<int>)
    ensures |r| == 8 * |bs|
    ensures forall i :: 0 <= i < |bs| ==> r[8 * i .. 8 * i + 8] == ByteBits(bs[i])
  {
    if |bs| == 0 then [] else
      var tail := GetBitsFromByteSlice(bs[1..]);
      BitsAfterFirstByte(bs, tail);
      ByteBits(bs[0]) + tail
  }

  /** The step of the expansion: the bits of the first byte put in front of
      the expansion of the rest keep every later byte's eight entries. */
  lemma BitsAfterFirstByte(bs: seq<byte>, tail: seq<int>)
    requires |bs| > 0 && |tail| == 8 * (|bs| - 1)
    requires forall i :: 0 <= i < |bs| - 1 ==> tail[8 * i .. 8 * i + 8] == ByteBits(bs[1..][i])
    ensures forall i :: 0 <= i < |bs| ==> (ByteBits(bs[0]) + tail)[8 * i .. 8 * i + 8] == ByteBits(bs[i])
  {
    var head := ByteBits(bs[0]);
    forall i | 0 <= i < |bs|
      ensures (head + tail)[8 * i .. 8 * i + 8] == ByteBits(bs[i])
    {
      if i == 0 {
        SliceBefore(head, tail, 0, 8);
      } else {
        SliceAfter(head, tail, 8 * (i - 1), 8 * (i - 1) + 8);
        assert bs[1..][i - 1] == bs[i];
      }
    }
  }

  /** Entry 8i+j of the expansion is bit 7-j of byte i. */
  lemma GetBitsAt(bs: seq<byte>, i: nat, j: nat)
    requires i < |bs| && j < 8
    ensures GetBitsFromByteSlice(bs)[8 * i + j] == BitOf(bs[i], 7 - j)
  {
    var r := GetBitsFromByteSlice(bs);
    var bits := r[8 * i .. 8 * i + 8];
    assert bits == ByteBits(bs[i]);
    assert r[8 * i + j] == bits[j];
  }

  /** The byte whose bits, most significant first, are b[0..8]. */
  function PackByte(bits: seq<int>): (r: int)
    requires |bits| == 8
  {
    bits[0] * 128 + bits[1] * 64 + bits[2] * 32 + bits[3] * 16
    + bits[4] * 8 + bits[5] * 4 + bits[6] * 2 + bits[7]
  }

  /** The inverse of getBitsFromByteSlice: pack each run of eight entries,
      most significant first, into a byte. */
  function PackBits(bits: seq<int>): (r: seq<int>)
    requires |bits| % 8 == 0
    ensures |r| == |bits| / 8
  {
    if |bits| == 0 then [] else [PackByte(bits[..8])] + PackBits(bits[8..])
  }

  lemma Halve(x: nat)
    ensures x == 2 * (x / 2) + x % 2 && 0 <= x % 2 < 2
  {
  }

  /** A byte is the sum of its bits, each times its weight. */
  lemma PackByteBits(b: byte)
    ensures PackByte(ByteBits(b)) == b
  {
    var q1 := b / 2;
    var q2 := q1 / 2;
    var q3 := q2 / 2;
    var q4 := q3 / 2;
    var q5 := q4 / 2;
    var q6 := q5 / 2;
    var q7 := q6 / 2;
    ByteBitsOfHalves(b, q1, q2, q3, q4, q5, q6, q7);
    Halve(b); Halve(q1); Halve(q2); Halve(q3); Halve(q4); Halve(q5); Halve(q6);
    BinarySum(b, q1, q2, q3, q4, q5, q6, q7, b % 2, q1 % 2, q2 % 2, q3 % 2, q4 % 2, q5 % 2, q6 % 2);
    assert q7 % 2 == q7;
  }

  /** Seven halving steps of a byte, each with its remainder, add back up
      to the byte, and the last quotient is a single bit. */
  lemma BinarySum(b: int, q1: int, q2: int, q3: int, q4: int, q5: int, q6: int, q7: int,
                  r0: int, r1: int, r2: int, r3: int, r4: int, r5: int, r6: int)
    requires b < 256 && 0 <= q7
    requires b == 2 * q1 + r0 && q1 == 2 * q2 + r1 && q2 == 2 * q3 + r2 && q3 == 2 * q4 + r3
    requires q4 == 2 * q5 + r4 && q5 == 2 * q6 + r5 && q6 == 2 * q7 + r6
    requires 0 <= r0 < 2 && 0 <= r1 < 2 && 0 <= r2 < 2 && 0 <= r3 < 2
    requires 0 <= r4 < 2 && 0 <= r5 < 2 && 0 <= r6 < 2
    ensures q7 < 2
    ensures 128 * q7 + 64 * r6 + 32 * r5 + 16 * r4 + 8 * r3 + 4 * r2 + 2 * r1 + r0 == b
  {
  }

  /** The bits of b, most significant first, are the low bits of b halved
      seven times, six times, ..., not at all. */
  lemma ByteBitsOfHalves(b: byte, q1: byte, q2: byte, q3: byte, q4: byte, q5: byte, q6: byte, q7: byte)
    requires q1 == b / 2 && q2 == q1 / 2 && q3 == q2 / 2 && q4 == q3 / 2
    requires q5 == q4 / 2 && q6 == q5 / 2 && q7 == q6 / 2
    ensures ByteBits(b) == [q7 % 2, q6 % 2, q5 % 2, q4 % 2, q3 % 2, q2 % 2, q1 % 2, b % 2]
  {
    assert BitOf(b, 7) == BitOf(q1, 6) == BitOf(q2, 5) == BitOf(q3, 4) == BitOf(q4, 3)
        == BitOf(q5, 2) == BitOf(q6, 1) == BitOf(q7, 0);
    assert BitOf(b, 6) == BitOf(q1, 5) == BitOf(q2, 4) == BitOf(q3, 3) == BitOf(q4, 2)
        == BitOf(q5, 1) == BitOf(q6, 0);
    assert BitOf(b, 5) == BitOf(q1, 4) == BitOf(q2, 3) == BitOf(q3, 2) == BitOf(q4, 1) == BitOf(q5, 0);
    assert BitOf(b, 4) == BitOf(q1, 3) == BitOf(q2, 2) == BitOf(q3, 1) == BitOf(q4, 0);
    assert BitOf(b, 3) == BitOf(q1, 2) == BitOf(q2, 1) == BitOf(q3, 0);
    assert BitOf(b, 2) == BitOf(q1, 1) == BitOf(q2, 0);
    assert BitOf(b, 1) == BitOf(q1, 0);
  }

  /** Packing the expansion of a byte string gives the byte string back, so
      the expansion loses no information. */
  lemma {:induction false} PackGetBits(bs: seq<byte>)
    ensures PackBits(GetBitsFromByteSlice(bs)) == bs
  {
    if |bs| > 0 {
      var r := GetBitsFromByteSlice(bs);
      assert r[..8] == ByteBits(bs[0]);
      assert r[8..] == GetBitsFromByteSlice(bs[1..]);
      PackByteBits(bs[0]);
      PackGetBits(bs[1..]);
    }
  }
}
