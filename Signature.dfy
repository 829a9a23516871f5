/** ElGamal signatures over a 32-byte digest: Sign draws an ephemeral k coprime to p-1 and
    solves k*s = h - x*r (mod p-1) for s; Verify checks g^h = y^r * r^s (mod p). The digest
    stands for SHA-256 of the message, which is not part of this model. */
module ElGamalSignature {
  import opened Wrappers
  import opened Arith
  import opened Bytes
  import opened CryptoUtils
  import opened KeyGeneration
  import Fermat

  datatype Signature = Signature(r: int, s: int)

  /** The output of SHA-256: 32 bytes. */
  type Digest = d: seq<byte> | |d| == 32 witness seq(32, _ => 0)

  /** HashToNumber: the digest read as an unsigned little-endian number, so below 2^256. */
  function HashToNumber(digest: Digest): (h: nat)
    ensures h < Pow(2, 256)
  {
    LittleEndianBelow(digest);
    PowMul(2, 8, 32);
    LittleEndian(digest)
  }

  // =======================================================================================
  // Modular inverses, as a mathematical function

  /** The inverse of a modulo m, which ModInverse computes. */
  ghost function Inverse(a: int, m: int): (inv: int)
    requires m > 1 && 1 <= a < m && Gcd(a, m) == 1
    ensures 0 < inv < m && (a * inv) % m == 1
  {
    InverseExists(a, m);
    var inv :| 0 < inv < m && (a * inv) % m == 1; inv
  }

  lemma InverseExists(a: int, m: int)
    requires m > 1 && 1 <= a < m && Gcd(a, m) == 1
    ensures exists inv :: 0 < inv < m && (a * inv) % m == 1
  {
    var u, v := Bezout(a, m);
    var inv := u % m;
    MulMod(a, u, m);
    SmallMod(a, m);
    AddMultiple(v, m, a * u);
    assert (a * u) % m == 1 by {
      assert v * m + a * u == 1;
      SmallMod(1, m);
    }
    assert (a * inv) % m == ((a % m) * (u % m)) % m by {
      MulMod(a, inv, m);
      Fermat.ModOfMod(u, m);
    }
    assert inv != 0;
  }

  /** An inverse modulo m is unique among 0..m-1. */
  lemma InverseUnique(a: int, m: int, i: int, j: int)
    requires m > 1 && 0 <= i < m && 0 <= j < m
    requires (a * i) % m == 1 && (a * j) % m == 1
    ensures i == j
  {
    MulMod(i, a * j, m);
    MulMod(j, a * i, m);
    SmallMod(i, m);
    SmallMod(j, m);
    assert i * (a * j) == j * (a * i);
  }

  // =======================================================================================
  // Sign

  /** The inner do-while of Sign: k is drawn from [2, p-2] until gcd(k, p-1) = 1. */
  function DrawCoprime(p: int, rng: seq<byte>): (o: Option<(nat, seq<byte>)>)
    ensures o.Some? ==> 2 <= o.value.0 <= p - 2 && Gcd(o.value.0, p - 1) == 1
    ensures o.Some? ==> |o.value.1| < |rng|
    decreases |rng|
  {
    match RandomInRange(2, p - 2, rng)
    case None => None
    case Some((k, rest)) =>
      if Gcd(k, p - 1) == 1 then Some((k, rest)) else DrawCoprime(p, rest)
  }

  /** s from lines 44-45: C#'s truncated remainder, shifted up by p-1 when negative. */
  function SValue(h: int, x: int, r: int, kInv: int, p: int): (s: int)
    requires p > 1
    ensures 0 <= s < p - 1
    ensures (s - (h - x * r) * kInv) % (p - 1) == 0
  {
    var s := Rem((h - x * r) * kInv, p - 1);
    if s < 0 then
      assert (s + (p - 1) - (h - x * r) * kInv) % (p - 1) == 0 by {
        AddMultiple(1, p - 1, s - (h - x * r) * kInv);
        NegateMultiple((h - x * r) * kInv - s, p - 1);
      }
      s + (p - 1)
    else
      assert (s - (h - x * r) * kInv) % (p - 1) == 0 by {
        NegateMultiple((h - x * r) * kInv - s, p - 1);
      }
      s
  }

  /** The attempts of Sign: a coprime k, r = g^k mod p, then s; an s of zero starts over
      with a new k. The result holds the k that was used, the signature and what is left
      of the stream. */
  ghost function SignAttempts(h: nat, keys: KeyPair, rng: seq<byte>): (o: Option<(nat, Signature, seq<byte>)>)
    ensures o.Some? ==> |o.value.2| < |rng|
    decreases |rng|
  {
    var p, g, x := keys.publicKey.p, keys.publicKey.g, keys.privateKey.x;
    match DrawCoprime(p, rng)
    case None => None
    case Some((k, rest)) =>
      var r := ModPow(g, k, p);
      var s := SValue(h, x, r, Inverse(k, p - 1), p);
      if s == 0 then SignAttempts(h, keys, rest) else Some((k, Signature(r, s), rest))
  }

  method Sign(digest: Digest, keyPair: KeyPair, rng: seq<byte>) returns (o: Option<Signature>, rest: seq<byte>)
    ensures o.Some? <==> SignAttempts(HashToNumber(digest), keyPair, rng).Some?
    ensures o.Some? ==> SignAttempts(HashToNumber(digest), keyPair, rng).value.1 == o.value
    ensures o.Some? ==> SignAttempts(HashToNumber(digest), keyPair, rng).value.2 == rest
    ensures |rest| <= |rng|
  {
    var p, g, x := keyPair.publicKey.p, keyPair.publicKey.g, keyPair.privateKey.x;
    var h := HashToNumber(digest);
    ghost var goal := SignAttempts(h, keyPair, rng);
    rest := rng;
    while true
      invariant |rest| <= |rng|
      invariant SignAttempts(h, keyPair, rest) == goal
      decreases |rest|
    {
      var k: nat;
      var inner := rest;
      while true
        invariant |inner| <= |rest|
        invariant DrawCoprime(p, inner) == DrawCoprime(p, rest)
        decreases |inner|
      {
        var drawn, afterDraw := GenerateRandomInRange(2, p - 2, inner);
        if drawn.None? {
          return None, afterDraw;
        }
        DrawStep(p, inner, drawn.value, afterDraw);
        inner := afterDraw;
        k := drawn.value;
        if Gcd(k, p - 1) == 1 {
          break;
        }
      }
      var r := ModPow(g, k, p);
      var kInv := ModInverse(k, p - 1);
      InverseUnique(k, p - 1, kInv, Inverse(k, p - 1));
      var s := SValue(h, x, r, kInv, p);
      AttemptStep(h, keyPair, rest, k, inner);
      rest := inner;
      if s != 0 {
        return Some(Signature(r, s)), rest;
      }
    }
  }

  /** One draw of the inner loop: a coprime k ends it, any other k leaves the outcome to
      the rest of the stream. */
  lemma DrawStep(p: int, rng: seq<byte>, k: int, rest: seq<byte>)
    requires RandomInRange(2, p - 2, rng) == Some((k, rest))
    ensures DrawCoprime(p, rng) == if Gcd(k, p - 1) == 1 then Some((k, rest)) else DrawCoprime(p, rest)
  {
  }

  /** One attempt of Sign: a drawn k either yields the signature or, when s is zero, leaves
      the remaining attempts to the rest of the stream. */
  lemma AttemptStep(h: nat, keys: KeyPair, rng: seq<byte>, k: nat, rest: seq<byte>)
    requires DrawCoprime(keys.publicKey.p, rng) == Some((k, rest))
    ensures var p, g, x := keys.publicKey.p, keys.publicKey.g, keys.privateKey.x;
      var r := ModPow(g, k, p);
      var s := SValue(h, x, r, Inverse(k, p - 1), p);
      SignAttempts(h, keys, rng) == if s == 0 then SignAttempts(h, keys, rest) else Some((k, Signature(r, s), rest))
  {
  }

  // =======================================================================================
  // Verify

  /** Verify: r outside (0, p) is refused; a negative s makes BigInteger.ModPow throw;
      otherwise g^h mod p is compared with (y^r mod p) * (r^s mod p) mod p. */
  function Verify(digest: Digest, sig: Signature, pub: PublicKey): (result: Result<bool>)
    ensures sig.r <= 0 || sig.r >= pub.p ==> result == Ok(false)
    ensures 0 < sig.r < pub.p && sig.s < 0 ==> result == Err(ArgumentOutOfRange)
    ensures 0 < sig.r < pub.p && sig.s >= 0 ==> result.Ok?
    ensures 0 < sig.r < pub.p && sig.s >= 0 && pub.g >= 0 && pub.y >= 0 ==>
      (result == Ok(true) <==>
       Pow(pub.g, HashToNumber(digest)) % pub.p == (Pow(pub.y, sig.r) * Pow(sig.r, sig.s)) % pub.p)
  {
    var p, g, y, r, s := pub.p, pub.g, pub.y, sig.r, sig.s;
    if r <= 0 || r >= p then Ok(false)
    else if s < 0 then Err(ArgumentOutOfRange)
    else
      var h := HashToNumber(digest);
      var left := ModPow(g, h, p);
      var right := Rem(ModPow(y, r, p) * ModPow(r, s, p), p);
      if g >= 0 && y >= 0 then
        VerificationEquation(g, h, y, r, s, p);
        Ok(left == right)
      else
        Ok(left == right)
  }

  /** With non-negative bases the truncated remainders are the mathematical ones. */
  lemma VerificationEquation(g: int, h: nat, y: int, r: nat, s: nat, p: int)
    requires g >= 0 && y >= 0 && p > 1
    ensures ModPow(g, h, p) == Rem(ModPow(y, r, p) * ModPow(r, s, p), p) <==>
            Pow(g, h) % p == (Pow(y, r) * Pow(r, s)) % p
  {
    ModPowIsMod(g, h, p);
    ModPowIsMod(y, r, p);
    ModPowIsMod(r, s, p);
    var a, b := ModPow(y, r, p), ModPow(r, s, p);
    ProductRem(a, b, p);
    MulMod(Pow(y, r), Pow(r, s), p);
  }

  lemma ProductRem(a: int, b: int, p: int)
    requires 0 <= a && 0 <= b && p > 1
    ensures Rem(a * b, p) == (a * b) % p
  {
    assert a * b >= 0;
  }

  // =======================================================================================
  // Properties of Sign

  /** What an accepted attempt with nonce k guarantees: k lies in [2, p-2] and is coprime to
      p-1; r = g^k mod p; 0 < s < p-1; and k*s = h - x*r (mod p-1). */
  ghost predicate SignedWith(h: nat, keys: KeyPair, k: nat, sig: Signature)
  {
    var p, g, x := keys.publicKey.p, keys.publicKey.g, keys.privateKey.x;
    2 <= k <= p - 2 && Gcd(k, p - 1) == 1 && sig.r == ModPow(g, k, p) &&
    (g >= 0 ==> 0 <= sig.r < p) &&
    0 < sig.s < p - 1 && (k * sig.s - (h - x * sig.r)) % (p - 1) == 0
  }

  /** Every signature Sign returns comes with the nonce it was made with, and SignedWith
      holds of the two. */
  lemma {:induction false} SignedWithNonce(h: nat, keys: KeyPair, rng: seq<byte>)
    requires SignAttempts(h, keys, rng).Some?
    ensures SignedWith(h, keys, SignAttempts(h, keys, rng).value.0, SignAttempts(h, keys, rng).value.1)
    decreases |rng|
  {
    var p, g, x := keys.publicKey.p, keys.publicKey.g, keys.privateKey.x;
    var (k, rest) := DrawCoprime(p, rng).value;
    var s := SValue(h, x, ModPow(g, k, p), Inverse(k, p - 1), p);
    if s == 0 {
      assert SignAttempts(h, keys, rng) == SignAttempts(h, keys, rest);
      SignedWithNonce(h, keys, rest);
    } else {
      assert SignAttempts(h, keys, rng).value == (k, Signature(ModPow(g, k, p), s), rest);
      AcceptedAttempt(h, keys, k);
    }
  }

  /** One attempt whose s is not zero. */
  lemma AcceptedAttempt(h: nat, keys: KeyPair, k: nat)
    requires var p := keys.publicKey.p; 2 <= k <= p - 2 && Gcd(k, p - 1) == 1
    requires var p, g, x := keys.publicKey.p, keys.publicKey.g, keys.privateKey.x;
      SValue(h, x, ModPow(g, k, p), Inverse(k, p - 1), p) != 0
    ensures var p, g, x := keys.publicKey.p, keys.publicKey.g, keys.privateKey.x;
      var r := ModPow(g, k, p);
      SignedWith(h, keys, k, Signature(r, SValue(h, x, r, Inverse(k, p - 1), p)))
  {
    var p, g, x := keys.publicKey.p, keys.publicKey.g, keys.privateKey.x;
    var r := ModPow(g, k, p);
    var kInv := Inverse(k, p - 1);
    if g >= 0 {
      ModPowIsMod(g, k, p);
    }
    NonceCancels(k, kInv, SValue(h, x, r, kInv, p), h - x * r, p - 1);
  }

  /** s = c * kInv (mod m) and k * kInv = 1 (mod m) give k*s = c (mod m). */
  lemma NonceCancels(k: int, kInv: int, s: int, c: int, m: int)
    requires m > 0 && (k * kInv) % m == 1 && (s - c * kInv) % m == 0
    ensures (k * s - c) % m == 0
  {
    var t := (s - c * kInv) / m;
    assert s == c * kInv + m * t;
    assert k * s - c == c * (k * kInv - 1) + m * (k * t);
    ModOfDifference(k * kInv, m);
    var u := (k * kInv - 1) / m;
    assert k * kInv - 1 == m * u;
    assert k * s - c == m * (c * u + k * t);
    MultipleMod(c * u + k * t, m);
  }

  // =======================================================================================
  // Sign, then Verify

  /** For a prime p that does not divide g, exponents that agree modulo p-1 give the same
      power of g modulo p (Fermat's little theorem). */
  lemma ExponentsModOrder(g: int, e1: nat, e2: nat, p: int)
    requires IsPrime(p) && g % p != 0 && e1 >= e2 && (e1 - e2) % (p - 1) == 0
    ensures Pow(g, e1) % p == Pow(g, e2) % p
  {
    var t := (e1 - e2) / (p - 1);
    assert e1 == e2 + (p - 1) * t;
    PowAdd(g, e2, (p - 1) * t);
    PowMul(g, p - 1, t);
    Fermat.Fermat(p, g);
    PowOneMod(Pow(g, p - 1), t, p);
    MulMod(Pow(g, e2), Pow(Pow(g, p - 1), t), p);
    Fermat.ModOfMod(Pow(g, e2), p);
    SmallMod(1, p);
  }

  /** (g^a mod p)^b = g^(a*b) (mod p). */
  lemma PowerOfResidue(g: int, a: nat, b: nat, p: int)
    requires p > 0
    ensures Pow(Pow(g, a) % p, b) % p == Pow(g, a * b) % p
  {
    PowModBase(Pow(g, a), b, p);
    PowMul(g, a, b);
  }

  /** The signature Sign produces with a well-formed key over a prime p not dividing g is
      accepted by Verify with the matching public key. */
  lemma SignThenVerify(digest: Digest, keys: KeyPair, rng: seq<byte>)
    requires WellFormed(keys) && IsPrime(keys.publicKey.p)
    requires keys.publicKey.g >= 0 && keys.publicKey.g % keys.publicKey.p != 0
    requires SignAttempts(HashToNumber(digest), keys, rng).Some?
    ensures Verify(digest, SignAttempts(HashToNumber(digest), keys, rng).value.1, keys.publicKey) == Ok(true)
  {
    var h := HashToNumber(digest);
    var p, g, y, x := keys.publicKey.p, keys.publicKey.g, keys.publicKey.y, keys.privateKey.x;
    var (k, sig, _) := SignAttempts(h, keys, rng).value;
    SignedWithNonce(h, keys, rng);
    ModPowIsMod(g, k, p);
    ModPowIsMod(g, x, p);
    assert sig.r != 0 by {
      PowNotDivisible(p, g, k);
    }
    SignatureEquation(g, x, y, k, sig.r, sig.s, h, p);
    VerificationEquation(g, h, y, sig.r, sig.s, p);
  }

  /** With y = g^x, r = g^k and k*s = h - x*r (mod p-1), both sides of the verification
      equation are g^h modulo p. */
  lemma SignatureEquation(g: int, x: nat, y: int, k: nat, r: nat, s: nat, h: nat, p: int)
    requires IsPrime(p) && g >= 0 && g % p != 0
    requires y == Pow(g, x) % p && r == Pow(g, k) % p
    requires (k * s - (h - x * r)) % (p - 1) == 0
    ensures (Pow(y, r) * Pow(r, s)) % p == Pow(g, h) % p
  {
    CombinedPowers(g, x, y, k, r, s, p);
    SignedExponent(h, x, r, k, s, g, p);
  }

  /** y^r * r^s = g^(x r + k s) (mod p) when y = g^x and r = g^k modulo p. */
  lemma CombinedPowers(g: int, x: nat, y: int, k: nat, r: nat, s: nat, p: int)
    requires p > 1 && y == Pow(g, x) % p && r == Pow(g, k) % p
    ensures (Pow(y, r) * Pow(r, s)) % p == Pow(g, x * r + k * s) % p
  {
    PowerOfResidue(g, x, r, p);
    PowerOfResidue(g, k, s, p);
    MulMod(Pow(y, r), Pow(r, s), p);
    MulMod(Pow(g, x * r), Pow(g, k * s), p);
    PowAdd(g, x * r, k * s);
  }

  /** From k*s = h - x*r (mod p-1): g^(x r + k s) = g^h (mod p). */
  lemma SignedExponent(h: nat, x: nat, r: nat, k: nat, s: nat, g: int, p: int)
    requires IsPrime(p) && g % p != 0 && (k * s - (h - x * r)) % (p - 1) == 0
    ensures Pow(g, x * r + k * s) % p == Pow(g, h) % p
  {
    var e := x * r + k * s;
    assert e - h == k * s - (h - x * r);
    if e >= h {
      ExponentsModOrder(g, e, h, p);
    } else {
      NegateMultiple(e - h, p - 1);
      ExponentsModOrder(g, h, e, p);
    }
  }
}
