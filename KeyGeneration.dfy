/** ElGamal key generation: a random probable prime p of bitLength/8 bytes, the fixed
    generator 2, a private exponent x drawn from [2, p-2] and the public value y = g^x mod p. */
module KeyGeneration {
  import opened Wrappers
  import opened Arith
  import opened Bytes
  import opened CryptoUtils

  datatype PublicKey = PublicKey(p: int, g: int, y: int)
  datatype PrivateKey = PrivateKey(x: int)
  datatype KeyPair = KeyPair(publicKey: PublicKey, privateKey: PrivateKey)

  /** Witness rounds GenerateLargePrime asks of the primality test. */
  const PrimeTestRounds := 20

  // =======================================================================================
  // Prime candidates

  /** The two patches as the code writes them, in its order: `bytes[^1] |= 0x01`, then
      `bytes[0] |= 0x80`. The bytes are read least significant first, so these set the low
      bit of the most significant byte and the high bit of the least significant one. */
  function Patched(b: seq<byte>): (c: seq<byte>)
    requires |b| >= 1
    ensures |c| == |b|
    ensures c[0] >= 128 && c[|c| - 1] >= 1
    ensures |c| > 1 ==> c[|c| - 1] % 2 == 1 && c[1..|c| - 1] == b[1..|b| - 1]
  {
    var last := b[|b| - 1 := SetLowBit(b[|b| - 1])];
    last[0 := SetHighBit(last[0])]
  }

  /** The candidate built from L random bytes with the patches as written. Its most
      significant byte is at least 1, so it has more than 8(L-1) bits; its low byte is at
      least 128. It may be even, and may have up to 7 bits fewer than 8L. */
  function Candidate(b: seq<byte>): (c: nat)
    requires |b| >= 1
    ensures Pow(256, |b| - 1) <= c < Pow(256, |b|)
    ensures c % 256 >= 128 && c >= 128
  {
    var patched := Patched(b);
    LittleEndianBelow(patched);
    LittleEndianAtLeast(patched);
    LittleEndianLowByte(patched);
    LittleEndian(patched)
  }

  /** The attempts of GenerateLargePrime: L fresh bytes per candidate, then the primality test
      with its own draws; the first candidate the test accepts is the result. */
  ghost function PrimeSearch(L: nat, rng: seq<byte>): (o: Option<(nat, seq<byte>)>)
    requires L >= 1
    ensures o.Some? ==> |o.value.1| < |rng|
    decreases |rng|
  {
    if |rng| < L then None
    else
      var candidate := Candidate(rng[..L]);
      match MillerRabin(candidate, PrimeTestRounds, rng[L..])
      case None => None
      case Some((accepted, rest)) =>
        if accepted then Some((candidate, rest)) else PrimeSearch(L, rest)
  }

  /** The search result is a candidate that the primality test accepted: it lies in
      [256^(L-1), 256^L), its low byte is at least 128, and, being at least 128 and accepted,
      it is odd. */
  lemma {:induction false} SearchResultBounds(L: nat, rng: seq<byte>)
    requires L >= 1 && PrimeSearch(L, rng).Some?
    ensures Pow(256, L - 1) <= PrimeSearch(L, rng).value.0 < Pow(256, L)
    ensures PrimeSearch(L, rng).value.0 % 256 >= 128
    ensures PrimeSearch(L, rng).value.0 % 2 == 1 && PrimeSearch(L, rng).value.0 >= 128
    decreases |rng|
  {
    var candidate := Candidate(rng[..L]);
    var o := MillerRabin(candidate, PrimeTestRounds, rng[L..]);
    if o.value.0 {
      assert PrimeSearch(L, rng).value.0 == candidate;
      AcceptsOnlyOdd(candidate, PrimeTestRounds, rng[L..]);
    } else {
      assert PrimeSearch(L, rng) == PrimeSearch(L, o.value.1);
      SearchResultBounds(L, o.value.1);
    }
  }

  /** The search result passed IsProbablyPrime(p, 20) on some part of the stream. */
  lemma {:induction false} SearchResultPassed(L: nat, rng: seq<byte>)
    requires L >= 1 && PrimeSearch(L, rng).Some?
    ensures exists t :: MillerRabin(PrimeSearch(L, rng).value.0, PrimeTestRounds, t) == Some((true, PrimeSearch(L, rng).value.1))
    decreases |rng|
  {
    var candidate := Candidate(rng[..L]);
    var o := MillerRabin(candidate, PrimeTestRounds, rng[L..]);
    var result := PrimeSearch(L, rng).value;
    if o.value.0 {
      assert result == (candidate, o.value.1);
      assert MillerRabin(result.0, PrimeTestRounds, rng[L..]) == Some((true, result.1));
    } else {
      assert PrimeSearch(L, rng) == PrimeSearch(L, o.value.1);
      SearchResultPassed(L, o.value.1);
    }
  }

  /** A prime candidate is never passed over: if the attempt's bytes give a prime, the search
      stops there (unless the stream runs out during the test). */
  lemma PrimeCandidateTaken(L: nat, rng: seq<byte>)
    requires L >= 1 && |rng| >= L && IsPrime(Candidate(rng[..L]))
    requires MillerRabin(Candidate(rng[..L]), PrimeTestRounds, rng[L..]).Some?
    ensures PrimeSearch(L, rng).Some? && PrimeSearch(L, rng).value.0 == Candidate(rng[..L])
  {
    PrimeNeverRejected(Candidate(rng[..L]), PrimeTestRounds, rng[L..]);
    SearchStops(L, rng);
  }

  lemma SearchStops(L: nat, rng: seq<byte>)
    requires L >= 1 && |rng| >= L
    requires MillerRabin(Candidate(rng[..L]), PrimeTestRounds, rng[L..]).Some?
    requires MillerRabin(Candidate(rng[..L]), PrimeTestRounds, rng[L..]).value.0
    ensures PrimeSearch(L, rng) == Some((Candidate(rng[..L]), MillerRabin(Candidate(rng[..L]), PrimeTestRounds, rng[L..]).value.1))
  {
  }

  // =======================================================================================
  // GenerateLargePrime

  /** Applies the two patches to the attempt's bytes in place, in the code's order. */
  method PatchInPlace(bytes: array<byte>)
    requires bytes.Length >= 1
    modifies bytes
    ensures bytes[..] == Patched(old(bytes[..]))
  {
    bytes[bytes.Length - 1] := SetLowBit(bytes[bytes.Length - 1]);
    bytes[0] := SetHighBit(bytes[0]);
  }

  /** `new byte[bitLength / 8]`: a negative length throws OverflowException; a zero length
      gets through to `bytes[^1]`, which throws IndexOutOfRangeException. */
  method GenerateLargePrime(bitLength: int, rng: seq<byte>) returns (o: Outcome<nat>, rest: seq<byte>)
    ensures bitLength <= -8 ==> o == Threw(Overflow) && rest == rng
    ensures -8 < bitLength < 8 ==> o == Threw(IndexOutOfRange)
    ensures bitLength >= 8 ==> !o.Threw?
    ensures bitLength >= 8 ==> (o.Done? <==> PrimeSearch(bitLength / 8, rng).Some?)
    ensures o.Done? ==> bitLength >= 8 && PrimeSearch(bitLength / 8, rng) == Some((o.value, rest))
    ensures o.Done? ==> o.value % 2 == 1 && o.value >= 128
    ensures o.Done? ==> Pow(256, bitLength / 8 - 1) <= o.value < Pow(256, bitLength / 8)
    ensures o.Done? ==> o.value % 256 >= 128
    ensures |rest| <= |rng|
  {
    var L := Quot(bitLength, 8);
    if L < 0 {
      return Threw(Overflow), rng;
    }
    var bytes := new byte[L];
    rest := rng;
    ghost var goal := if L >= 1 then PrimeSearch(L, rng) else None;
    while true
      invariant |rest| <= |rng|
      invariant L >= 1 ==> PrimeSearch(L, rest) == goal
      decreases |rest|
    {
      var ok, afterBytes := GetBytes(bytes, rest);
      if !ok {
        return Exhausted, rest;
      }
      if L == 0 {
        return Threw(IndexOutOfRange), afterBytes;
      }
      ghost var drawn := bytes[..];
      PatchInPlace(bytes);
      var prime := LittleEndian(bytes[..]);
      assert prime == Candidate(rest[..L]) by {
        assert drawn == rest[..L];
      }
      var accepted, afterTest := IsProbablyPrime(prime, PrimeTestRounds, afterBytes);
      if accepted.None? {
        return Exhausted, afterTest;
      }
      rest := afterTest;
      if accepted.value {
        SearchResultBounds(L, rng);
        return Done(prime), rest;
      }
    }
  }

  // =======================================================================================
  // GenerateKeyPair

  /** FindGenerator: the code always uses 2, whatever p is. */
  function FindGenerator(p: int): (g: int)
    ensures g == 2
  {
    2
  }

  /** The relations GenerateKeyPair establishes between the parts of a key pair: the public
      value is the generator raised to the private exponent, which lies in [2, p-2]. */
  ghost predicate WellFormed(keys: KeyPair)
  {
    var p, g, y, x := keys.publicKey.p, keys.publicKey.g, keys.publicKey.y, keys.privateKey.x;
    p >= 5 && 2 <= x <= p - 2 && y == ModPow(g, x, p) && 0 <= y < p
  }

  method GenerateKeyPair(bitLength: int, rng: seq<byte>) returns (o: Outcome<KeyPair>, rest: seq<byte>)
    ensures bitLength < 8 ==> o.Threw?
    ensures o.Done? ==> bitLength >= 8 && PrimeSearch(bitLength / 8, rng).Some?
    ensures o.Done? ==> o.value.publicKey.p == PrimeSearch(bitLength / 8, rng).value.0
    ensures o.Done? ==> o.value.publicKey.p % 2 == 1 && o.value.publicKey.g == 2
    ensures o.Done? ==> WellFormed(o.value)
    ensures |rest| <= |rng|
  {
    var prime;
    prime, rest := GenerateLargePrime(bitLength, rng);
    if !prime.Done? {
      return if prime.Threw? then Threw(prime.fault) else Exhausted, rest;
    }
    var p := prime.value;
    var g := FindGenerator(p);
    var x, afterX := GenerateRandomInRange(2, p - 2, rest);
    if x.None? {
      return Exhausted, afterX;
    }
    rest := afterX;
    var y := ModPow(g, x.value, p);
    ModPowIsMod(g, x.value, p);
    o := Done(KeyPair(PublicKey(p, g, y), PrivateKey(x.value)));
  }

  // =======================================================================================
  // The bit patches: as written and as intended

  /** As written: all-zero random bytes give a candidate that is even and has fewer than
      8L bits (here L = 2: 0x0180 = 384, below 2^15 = 128 * 256). */
  lemma PatchedCandidateMayBeEvenAndShort()
    ensures Candidate([0, 0]) == 384
    ensures Candidate([0, 0]) % 2 == 0 && Candidate([0, 0]) < 128 * Pow(256, 1)
  {
    assert Patched([0, 0]) == [128, 1];
    assert LittleEndian([128, 1]) == 128 + 256 * LittleEndian([1]);
    assert LittleEndian([1]) == 1 + 256 * LittleEndian([]);
  }

  /** The patches as intended: bit 0 of the least significant byte (the first) and bit 7 of
      the most significant one (the last). */
  function IntendedPatched(b: seq<byte>): (c: seq<byte>)
    requires |b| >= 1
    ensures |c| == |b|
    ensures c[0] % 2 == 1 && c[|c| - 1] >= 128
    ensures |c| > 2 ==> c[1..|c| - 1] == b[1..|b| - 1]
  {
    var low := b[0 := SetLowBit(b[0])];
    low[|b| - 1 := SetHighBit(low[|b| - 1])]
  }

  /** With the intended patches every candidate of L bytes is odd and has exactly 8L bits:
      it lies in [128 * 256^(L-1), 256^L). */
  lemma IntendedCandidateBounds(b: seq<byte>)
    requires |b| >= 1
    ensures LittleEndian(IntendedPatched(b)) % 2 == 1
    ensures 128 * Pow(256, |b| - 1) <= LittleEndian(IntendedPatched(b)) < Pow(256, |b|)
  {
    IntendedOdd(b);
    IntendedLength(b);
  }

  lemma IntendedOdd(b: seq<byte>)
    requires |b| >= 1
    ensures LittleEndian(IntendedPatched(b)) % 2 == 1
  {
    var c := IntendedPatched(b);
    LittleEndianLowByte(c);
    ModOfModPower(LittleEndian(c));
  }

  lemma IntendedLength(b: seq<byte>)
    requires |b| >= 1
    ensures 128 * Pow(256, |b| - 1) <= LittleEndian(IntendedPatched(b)) < Pow(256, |b|)
  {
    var c := IntendedPatched(b);
    LittleEndianBelow(c);
    LittleEndianLast(c);
    PowPositive(256, |b| - 1);
    MulMonotone(c[|b| - 1], 128, Pow(256, |b| - 1));
  }

  lemma MulMonotone(x: int, y: int, t: int)
    requires x >= y && t >= 0
    ensures x * t >= y * t
  {
    assert x * t - y * t == (x - y) * t;
  }

  lemma ModOfModPower(v: int)
    ensures v % 256 % 2 == v % 2
  {
    assert v == 256 * (v / 256) + v % 256;
    AddMultiple(128 * (v / 256), 2, v % 256);
  }
}
