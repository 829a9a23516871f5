/** Byte strings and the BigInteger conversions the code uses on them. */
module Bytes {
  import opened Arith

  type byte = b: int | 0 <= b < 256

  /** `b | 0x01`: sets bit 0. */
  function SetLowBit(b: byte): (r: byte)
    ensures r % 2 == 1 && r - b in {0, 1}
  {
    if b % 2 == 1 then b else b + 1
  }

  /** `b | 0x80`: sets bit 7. */
  function SetHighBit(b: byte): (r: byte)
    ensures r >= 128 && r - b in {0, 128}
  {
    if b >= 128 then b else b + 128
  }

  /** `new BigInteger(bytes, isUnsigned: true)`: the bytes as an unsigned number, least
      significant byte first (.NET's default order). */
  function LittleEndian(b: seq<byte>): nat
  {
    if b == [] then 0 else b[0] + 256 * LittleEndian(b[1..])
  }

  /** `new BigInteger(bytes, isUnsigned: true, isBigEndian: true)`: most significant byte first. */
  function BigEndian(b: seq<byte>): nat
  {
    if b == [] then 0 else BigEndian(b[..|b| - 1]) * 256 + b[|b| - 1]
  }

  /** `n.ToByteArray(isUnsigned: true, isBigEndian: true)` for n >= 0: the shortest
      big-endian form, with zero written as the single byte 0. */
  function UnsignedBigEndianBytes(n: nat): (b: seq<byte>)
    ensures |b| >= 1
    ensures |b| == 1 || b[0] != 0
  {
    if n < 256 then [n] else UnsignedBigEndianBytes(n / 256) + [n % 256]
  }

  /** `v.ToByteArray().Length`: the length of the shortest two's-complement little-endian
      form of v; every number needs at least one byte. */
  function SignedByteLength(v: int): (k: nat)
    ensures k >= 1
    ensures -Pow(256, k) <= 2 * v < Pow(256, k)
    ensures k == 1 || 2 * v >= Pow(256, k - 1) || 2 * v < -Pow(256, k - 1)
    decreases Abs(v)
  {
    if -128 <= v < 128 then 1
    else
      var k' := SignedByteLength(v / 256);
      assert Pow(256, k' + 1) == 256 * Pow(256, k');
      1 + k'
  }

  // ---------------------------------------------------------------------------------------
  // Little-endian bounds, used on the prime candidates

  /** A number of n bytes is below 256^n. */
  lemma {:induction false} LittleEndianBelow(b: seq<byte>)
    ensures LittleEndian(b) < Pow(256, |b|)
    decreases |b|
  {
    if b != [] {
      LittleEndianBelow(b[1..]);
      assert Pow(256, |b|) == 256 * Pow(256, |b[1..]|);
    }
  }

  /** The last byte carries weight 256^(n-1). */
  lemma {:induction false} LittleEndianLast(b: seq<byte>)
    requires |b| >= 1
    ensures LittleEndian(b) == LittleEndian(b[..|b| - 1]) + b[|b| - 1] * Pow(256, |b| - 1)
    decreases |b|
  {
    if |b| > 1 {
      LittleEndianLast(b[1..]);
      assert b[1..][..|b| - 2] == b[..|b| - 1][1..];
      assert Pow(256, |b| - 1) == 256 * Pow(256, |b| - 2);
    }
  }

  /** A non-zero last byte puts the number at or above 256^(n-1). */
  lemma LittleEndianAtLeast(b: seq<byte>)
    requires |b| >= 1 && b[|b| - 1] >= 1
    ensures LittleEndian(b) >= Pow(256, |b| - 1)
  {
    LittleEndianLast(b);
    PowPositive(256, |b| - 1);
  }

  /** The first byte is the number's remainder modulo 256. */
  lemma LittleEndianLowByte(b: seq<byte>)
    requires |b| >= 1
    ensures LittleEndian(b) % 256 == b[0]
  {
    AddMultiple(LittleEndian(b[1..]), 256, b[0]);
    SmallMod(b[0], 256);
  }

  // ---------------------------------------------------------------------------------------
  // Big-endian round trip, used by the key codec

  /** Reading back the bytes that ToByteArray wrote gives the number again. */
  lemma {:induction false} UnsignedBigEndianRoundTrip(n: nat)
    ensures BigEndian(UnsignedBigEndianBytes(n)) == n
    decreases n
  {
    if n >= 256 {
      UnsignedBigEndianRoundTrip(n / 256);
      var b := UnsignedBigEndianBytes(n);
      assert b[..|b| - 1] == UnsignedBigEndianBytes(n / 256);
    }
  }

  /** The value of a big-endian string is the sum of each byte times its weight 256^(n-1-i). */
  function WeightedSum(b: seq<byte>, i: nat): int
    requires i <= |b|
    decreases |b| - i
  {
    if i == |b| then 0 else b[i] * Pow(256, |b| - 1 - i) + WeightedSum(b, i + 1)
  }

  lemma {:induction false} BigEndianIsWeightedSum(b: seq<byte>)
    ensures BigEndian(b) == WeightedSum(b, 0)
    decreases |b|
  {
    if b != [] {
      var front := b[..|b| - 1];
      BigEndianIsWeightedSum(front);
      WeightedSumShift(b, 0);
    }
  }

  /** Dropping the last byte divides every weight by 256. */
  lemma {:induction false} WeightedSumShift(b: seq<byte>, i: nat)
    requires i < |b|
    ensures WeightedSum(b, i) == WeightedSum(b[..|b| - 1], i) * 256 + b[|b| - 1]
    decreases |b| - i
  {
    var front := b[..|b| - 1];
    if i == |b| - 1 {
      assert WeightedSum(b, i) == b[i] * Pow(256, 0) + WeightedSum(b, i + 1);
    } else {
      WeightedSumShift(b, i + 1);
      assert Pow(256, |b| - 1 - i) == Pow(256, |front| - 1 - i) * 256;
      assert front[i] == b[i];
    }
  }
}
