/** CryptoUtils: the rejection sampler over random bytes, the modular inverse (iterative
    extended Euclid) and the Miller-Rabin primality test.

    The operating system's random generator is an injected stream of bytes `rng`; every
    method that draws from it returns what is left (`rest`). The source's retry loops are
    unbounded; here they stop with `None` when the stream runs out. */
module CryptoUtils {
  import opened Wrappers
  import opened Arith
  import opened Bytes
  import Fermat

  // =======================================================================================
  // GenerateRandomInRange

  /** The draw loop of GenerateRandomInRange: blocks of `width` bytes are read from the
      stream and decoded as unsigned little-endian numbers until one is below `range`. */
  function RejectionSample(range: int, width: nat, rng: seq<byte>): (o: Option<(nat, seq<byte>)>)
    requires width >= 1
    ensures o.Some? ==> o.value.0 < range && |o.value.1| < |rng|
    decreases |rng|
  {
    if |rng| < width then None
    else
      var v := LittleEndian(rng[..width]);
      if v < range then Some((v, rng[width..]))
      else
        RejectionSample(range, width, rng[width..])
  }

  /** GenerateRandomInRange(min, max): the first accepted draw, shifted up by min. The block
      width is the length of `range.ToByteArray()` (two's complement, so one byte more
      than the unsigned form when the top bit is set). */
  function RandomInRange(min: int, max: int, rng: seq<byte>): (o: Option<(int, seq<byte>)>)
    ensures o.Some? ==> min <= o.value.0 <= max && |o.value.1| < |rng|
  {
    var range := max - min + 1;
    match RejectionSample(range, SignedByteLength(range), rng)
    case None => None
    case Some((v, rest)) => Some((v + min, rest))
  }

  /** Fills `bytes` from the stream, as RandomNumberGenerator.GetBytes does; false when the
      stream holds too few bytes. */
  method GetBytes(bytes: array<byte>, rng: seq<byte>) returns (ok: bool, rest: seq<byte>)
    modifies bytes
    ensures ok == (|rng| >= bytes.Length)
    ensures ok ==> bytes[..] == rng[..bytes.Length] && rest == rng[bytes.Length..]
    ensures !ok ==> rest == rng && bytes[..] == old(bytes[..])
  {
    ok := |rng| >= bytes.Length;
    rest := rng;
    if ok {
      forall i | 0 <= i < bytes.Length {
        bytes[i] := rng[i];
      }
      rest := rng[bytes.Length..];
    }
  }

  method GenerateRandomInRange(min: int, max: int, rng: seq<byte>) returns (res: Option<int>, rest: seq<byte>)
    ensures res.Some? ==> min <= res.value <= max
    ensures res.Some? <==> RandomInRange(min, max, rng).Some?
    ensures res.Some? ==> RandomInRange(min, max, rng) == Some((res.value, rest))
    ensures |rest| <= |rng|
  {
    var range := max - min + 1;
    var byteCount := SignedByteLength(range);
    var bytes := new byte[byteCount];
    var result: nat;
    rest := rng;
    while true
      invariant |rest| <= |rng|
      invariant RejectionSample(range, byteCount, rest) == RejectionSample(range, byteCount, rng)
      decreases |rest|
    {
      var ok, rest' := GetBytes(bytes, rest);
      if !ok {
        return None, rest;
      }
      rest := rest';
      result := LittleEndian(bytes[..]);
      if result < range {
        break;
      }
    }
    res := Some(result + min);
  }

  /** With min > max the range is empty or negative, no draw is ever accepted, and the
      source's loop never ends: only running out of randomness stops the model. */
  lemma {:induction false} EmptyRangeNeverReturns(range: int, width: nat, rng: seq<byte>)
    requires range <= 0 && width >= 1
    ensures RejectionSample(range, width, rng) == None
    decreases |rng|
  {
    if |rng| >= width {
      EmptyRangeNeverReturns(range, width, rng[width..]);
    }
  }

  lemma NoValueInEmptyRange(min: int, max: int, rng: seq<byte>)
    requires max < min
    ensures RandomInRange(min, max, rng) == None
  {
    EmptyRangeNeverReturns(max - min + 1, SignedByteLength(max - min + 1), rng);
  }

  // =======================================================================================
  // ModInverse

  /** The iterative extended Euclid of the source. Throughout the loop a and m are
      positive, so C#'s truncating `/` and `%` agree with Dafny's. The coefficients keep
      a = x1*a0 (mod m0) and m = x0*a0 (mod m0); when a reaches 1, x1 is the inverse. */
  method ModInverse(a: int, m: int) returns (inv: int)
    requires m >= 1
    requires m == 1 || (1 <= a < m && Gcd(a, m) == 1)
    ensures m == 1 ==> inv == 0
    ensures m > 1 ==> 0 < inv < m && (a * inv) % m == 1
  {
    var m0, x0, x1 := m, 0, 1;
    if m == 1 {
      return 0;
    }
    var a', m' := a, m;
    ghost var k0, k1 := 1, 0;
    while a' > 1
      invariant 1 <= a' && 0 <= m'
      invariant Gcd(a', m') == 1
      invariant a' == x1 * a + k1 * m0 && m' == x0 * a + k0 * m0
      invariant x0 * x1 <= 0
      invariant Abs(x1) * m' + Abs(x0) * a' == m0
      invariant Abs(x1) * a' <= m0
      invariant m' > a' ==> x0 == 0
      decreases m'
    {
      assert m' > 0;
      var q := a' / m';
      DivideNonNegative(a', m');
      CoefficientsStep(a', m', x0, x1, m0, q, a' % m');
      Combination(a, m0, a', m', x0, x1, k0, k1, q);
      var t := m';
      m' := a' % m';
      a' := t;
      t := x0;
      x0, k0, k1 := x1 - q * x0, k1 - q * k0, k0;
      x1 := t;
    }
    assert a' == 1;
    ModInverseRange(a, m0, x1, k1);
    if x1 < 0 {
      ShiftInverse(a, m0, x1);
      x1 := x1 + m0;
    }
    return x1;
  }

  /** One step of the loop keeps the coefficients of opposite signs and bounded by m0. */
  lemma CoefficientsStep(a: int, m: int, x0: int, x1: int, m0: int, q: int, r: int)
    requires m > 0 && a == q * m + r && q >= 0 && 0 <= r < m
    requires x0 * x1 <= 0 && Abs(x1) * m + Abs(x0) * a == m0 && (m > a ==> x0 == 0)
    ensures (x1 - q * x0) * x0 <= 0
    ensures Abs(x0) * r + Abs(x1 - q * x0) * m == m0
    ensures Abs(x0) * m <= m0
  {
    var d := x1 - q * x0;
    StepSigns(x0, x1, q);
    assert Abs(x0) * r + Abs(d) * m == Abs(x1) * m + Abs(x0) * (q * m + r) by {
      RegroupCoefficients(Abs(x0), Abs(x1), q, m, r);
    }
    NonNegativeProduct(Abs(x1), m);
    if m <= a {
      MulMonotoneRight(Abs(x0), m, a);
    }
  }

  /** With x0 and x1 of opposite signs, x1 - q*x0 is of the sign opposite to x0 and its
      size is |x1| + q*|x0|. */
  lemma StepSigns(x0: int, x1: int, q: int)
    requires x0 * x1 <= 0 && q >= 0
    ensures (x1 - q * x0) * x0 <= 0
    ensures Abs(x1 - q * x0) == Abs(x1) + q * Abs(x0)
  {
    if x0 > 0 {
      assert x1 <= 0;
      NonNegativeProduct(q, x0);
    } else if x0 < 0 {
      assert x1 >= 0;
      NonNegativeProduct(q, -x0);
    }
  }

  lemma RegroupCoefficients(u: int, v: int, q: int, m: int, r: int)
    ensures u * r + (v + q * u) * m == v * m + u * (q * m + r)
  {
  }

  lemma NonNegativeProduct(a: int, b: int)
    requires a >= 0 && b >= 0
    ensures a * b >= 0
  {
  }

  lemma MulMonotoneRight(a: int, b: int, c: int)
    requires a >= 0 && b <= c
    ensures a * b <= a * c
  {
    NonNegativeProduct(a, c - b);
  }

  /** The remainder a - q*m is the matching combination of the two tracked ones. */
  lemma Combination(a0: int, m0: int, a: int, m: int, x0: int, x1: int, k0: int, k1: int, q: int)
    requires a == x1 * a0 + k1 * m0 && m == x0 * a0 + k0 * m0
    ensures a - q * m == (x1 - q * x0) * a0 + (k1 - q * k0) * m0
  {
  }

  lemma DivideNonNegative(a: int, m: int)
    requires a >= 0 && m > 0
    ensures a == (a / m) * m + a % m && a / m >= 0 && 0 <= a % m < m
  {
    ModUnique(a, m, a / m, a % m);
  }

  /** Adding the modulus to an inverse gives an inverse. */
  lemma ShiftInverse(a: int, m: int, x: int)
    requires m > 0 && (a * x) % m == 1
    ensures (a * (x + m)) % m == 1
  {
    assert a * (x + m) == a * m + a * x;
    AddMultiple(a, m, a * x);
  }

  lemma ModInverseRange(a: int, m0: int, x1: int, k1: int)
    requires m0 > 1 && 1 == x1 * a + k1 * m0 && Abs(x1) <= m0
    ensures (a * x1) % m0 == 1 && x1 != 0 && -m0 < x1 < m0
  {
    ModUnique(a * x1, m0, -k1, 1);
    if x1 == 0 || x1 == m0 || x1 == -m0 {
      MultipleMod(if x1 == 0 then 0 else if x1 == m0 then a + k1 else k1 - a, m0);
    }
  }

  // =======================================================================================
  // IsProbablyPrime

  function Pow2(k: nat): nat
  {
    if k == 0 then 1 else 2 * Pow2(k - 1)
  }

  /** The halving loop writes m = d * 2^r with d odd: OddPart is d, TwoAdicity is r. */
  function OddPart(m: nat): nat
    requires m > 0
    decreases m
  {
    if m % 2 == 0 then OddPart(m / 2) else m
  }

  function TwoAdicity(m: nat): nat
    requires m > 0
    decreases m
  {
    if m % 2 == 0 then 1 + TwoAdicity(m / 2) else 0
  }

  /** What the halving loop leaves: d odd, d * 2^r = m, and r >= 1 when m is even. */
  lemma {:induction false} OddPartFactor(m: nat)
    requires m > 0
    ensures OddPart(m) % 2 == 1
    ensures OddPart(m) * Pow2(TwoAdicity(m)) == m
    ensures m % 2 == 0 ==> TwoAdicity(m) >= 1
    decreases m
  {
    if m % 2 == 0 {
      OddPartFactor(m / 2);
      assert Pow2(TwoAdicity(m)) == 2 * Pow2(TwoAdicity(m / 2));
    }
  }

  lemma HalveStep(d: nat, r: nat)
    requires d > 0 && d % 2 == 0
    ensures d / 2 > 0 && (d / 2) * Pow2(r + 1) == d * Pow2(r)
    ensures OddPart(d / 2) == OddPart(d) && TwoAdicity(d) == 1 + TwoAdicity(d / 2)
  {
    assert Pow2(r + 1) == 2 * Pow2(r);
    assert d == 2 * (d / 2);
  }

  /** x squared modulo n, i times over: the inner loop's `x = ModPow(x, 2, n)`. */
  function Squarings(x: int, n: int, i: nat): int
    requires n > 0
  {
    if i == 0 then x else ModPow(Squarings(x, n, i - 1), 2, n)
  }

  /** Witness a finds no evidence that n is composite: a^d mod n is 1 or n - 1, or one of
      the next r - 1 squarings reaches n - 1. */
  ghost predicate Passes(n: int, a: int, d: nat, r: nat)
    requires n > 0
  {
    var x := ModPow(a, d, n);
    x == 1 || x == n - 1 || exists i :: 1 <= i < r && Squarings(x, n, i) == n - 1
  }

  /** The witness rounds of IsProbablyPrime, each witness drawn with RandomInRange(2, n-2);
      the first witness that does not pass ends the test with false. */
  ghost function WitnessRounds(n: int, d: nat, r: nat, count: nat, rng: seq<byte>): (o: Option<(bool, seq<byte>)>)
    requires n > 0
    ensures o.Some? ==> |o.value.1| <= |rng|
    decreases count
  {
    if count == 0 then Some((true, rng))
    else
      match RandomInRange(2, n - 2, rng)
      case None => None
      case Some((a, rest)) =>
        if Passes(n, a, d, r) then WitnessRounds(n, d, r, count - 1, rest) else Some((false, rest))
  }

  lemma NextRound(n: int, d: nat, r: nat, count: nat, rng: seq<byte>, a: int, rest: seq<byte>)
    requires n > 0 && count > 0 && RandomInRange(2, n - 2, rng) == Some((a, rest))
    ensures WitnessRounds(n, d, r, count, rng) ==
      if Passes(n, a, d, r) then WitnessRounds(n, d, r, count - 1, rest) else Some((false, rest))
  {
  }

  lemma OutOfRandomness(n: int, d: nat, r: nat, count: nat, rng: seq<byte>)
    requires n > 0 && count > 0 && RandomInRange(2, n - 2, rng).None?
    ensures WitnessRounds(n, d, r, count, rng).None?
  {
  }

  /** IsProbablyPrime(n, iterations) with its witnesses drawn from rng. */
  ghost function MillerRabin(n: int, iterations: int, rng: seq<byte>): (o: Option<(bool, seq<byte>)>)
    ensures o.Some? ==> |o.value.1| <= |rng|
  {
    if n < 2 then Some((false, rng))
    else if n == 2 || n == 3 then Some((true, rng))
    else if n % 2 == 0 then Some((false, rng))
    else WitnessRounds(n, OddPart(n - 1), TwoAdicity(n - 1), if iterations < 0 then 0 else iterations, rng)
  }

  /** IsProbablyPrime's halving loop: n - 1 = d * 2^r with d odd. */
  method SplitPowerOfTwo(m: nat) returns (d: nat, r: nat)
    requires m > 0
    ensures d % 2 == 1 && d * Pow2(r) == m
    ensures d == OddPart(m) && r == TwoAdicity(m)
  {
    d, r := m, 0;
    while d % 2 == 0
      invariant d > 0 && d * Pow2(r) == m
      invariant OddPart(d) == OddPart(m) && r + TwoAdicity(d) == TwoAdicity(m)
      decreases d
    {
      HalveStep(d, r);
      d := d / 2;
      r := r + 1;
    }
  }

  /** One pass of the witness loop for the witness a: the squaring loop with its early exit. */
  method CheckWitness(n: int, a: int, d: nat, r: nat) returns (pass: bool)
    requires n > 0
    ensures pass == Passes(n, a, d, r)
  {
    var x := ModPow(a, d, n);
    if x == 1 || x == n - 1 {
      return true;
    }
    ghost var x0 := x;
    var continueWitnessLoop := false;
    var j := 0;
    while j < r - 1
      invariant 0 <= j && (j <= r - 1 || r == 0)
      invariant x == Squarings(x0, n, j)
      invariant forall i :: 1 <= i <= j ==> Squarings(x0, n, i) != n - 1
    {
      x := ModPow(x, 2, n);
      assert x == Squarings(x0, n, j + 1);
      if x == n - 1 {
        assert 1 <= j + 1 < r;
        continueWitnessLoop := true;
        break;
      }
      j := j + 1;
    }
    return continueWitnessLoop;
  }

  method IsProbablyPrime(n: int, iterations: int, rng: seq<byte>) returns (verdict: Option<bool>, rest: seq<byte>)
    ensures n < 2 ==> verdict == Some(false) && rest == rng
    ensures (n == 2 || n == 3) ==> verdict == Some(true) && rest == rng
    ensures n > 3 && n % 2 == 0 ==> verdict == Some(false) && rest == rng
    ensures verdict.Some? <==> MillerRabin(n, iterations, rng).Some?
    ensures verdict.Some? ==> MillerRabin(n, iterations, rng) == Some((verdict.value, rest))
    ensures |rest| <= |rng|
  {
    rest := rng;
    if n < 2 {
      return Some(false), rest;
    }
    if n == 2 || n == 3 {
      return Some(true), rest;
    }
    if n % 2 == 0 {
      return Some(false), rest;
    }

    var d, r := SplitPowerOfTwo(n - 1);
    verdict, rest := WitnessLoop(n, d, r, iterations, rng);
  }

  /** The witness loop of IsProbablyPrime: `iterations` random witnesses, stopping at the
      first one that does not pass. */
  method WitnessLoop(n: int, d: nat, r: nat, iterations: int, rng: seq<byte>) returns (verdict: Option<bool>, rest: seq<byte>)
    requires n > 0
    ensures var rounds := if iterations < 0 then 0 else iterations;
      (verdict.Some? <==> WitnessRounds(n, d, r, rounds, rng).Some?) &&
      (verdict.Some? ==> WitnessRounds(n, d, r, rounds, rng) == Some((verdict.value, rest)))
    ensures |rest| <= |rng|
  {
    rest := rng;
    var rounds: nat := if iterations < 0 then 0 else iterations;
    ghost var goal := WitnessRounds(n, d, r, rounds, rng);
    ghost var left: nat := rounds;
    var i := 0;
    while i < iterations
      invariant 0 <= i <= rounds && left == rounds - i
      invariant |rest| <= |rng|
      invariant WitnessRounds(n, d, r, left, rest) == goal
    {
      var done, outcome, rest' := WitnessRound(n, d, r, left, rest);
      rest := rest';
      if done {
        return outcome, rest;
      }
      i, left := i + 1, left - 1;
    }
    return Some(true), rest;
  }

  /** One pass of the witness loop's body: draw a witness in [2, n-2] and test it. `done`
      when the stream ran out or the witness did not pass. */
  method WitnessRound(n: int, d: nat, r: nat, ghost count: nat, rng: seq<byte>) returns (done: bool, verdict: Option<bool>, rest: seq<byte>)
    requires n > 0 && count > 0
    ensures done ==> (verdict.Some? <==> WitnessRounds(n, d, r, count, rng).Some?)
    ensures done && verdict.Some? ==> WitnessRounds(n, d, r, count, rng) == Some((verdict.value, rest))
    ensures !done ==> WitnessRounds(n, d, r, count, rng) == WitnessRounds(n, d, r, count - 1, rest)
    ensures |rest| <= |rng|
  {
    var a;
    a, rest := GenerateRandomInRange(2, n - 2, rng);
    if a.None? {
      OutOfRandomness(n, d, r, count, rng);
      return true, None, rest;
    }
    NextRound(n, d, r, count, rng, a.value, rest);
    var pass := CheckWitness(n, a.value, d, r);
    if !pass {
      return true, Some(false), rest;
    }
    return false, None, rest;
  }

  // =======================================================================================
  // A prime is never rejected

  lemma ModPowSquare(y: int, n: int)
    requires n > 0
    ensures ModPow(y, 2, n) == (y * y) % n
  {
    assert Pow(y, 2) == y * y;
    assert y * y >= 0;
  }

  /** The k-th squaring of a^d is a^(d * 2^k) modulo n. */
  lemma {:induction false} SquaringsArePowers(a: int, d: nat, n: int, k: nat)
    requires a >= 0 && n > 0
    ensures Squarings(ModPow(a, d, n), n, k) == Pow(a, d * Pow2(k)) % n
    decreases k
  {
    if k == 0 {
      ModPowIsMod(a, d, n);
    } else {
      SquaringsArePowers(a, d, n, k - 1);
      SquareStep(Pow(a, d * Pow2(k - 1)), n);
      DoubleExponent(a, d, k);
    }
  }

  lemma SquareStep(x: int, n: int)
    requires n > 0
    ensures ModPow(x % n, 2, n) == (x * x) % n
  {
    ModPowSquare(x % n, n);
    MulMod(x, x, n);
    Fermat.ModOfMod(x, n);
  }

  lemma DoubleExponent(a: int, d: nat, k: nat)
    requires k > 0
    ensures Pow(a, d * Pow2(k)) == Pow(a, d * Pow2(k - 1)) * Pow(a, d * Pow2(k - 1))
  {
    var e := d * Pow2(k - 1);
    assert Pow2(k) == 2 * Pow2(k - 1);
    assert d * Pow2(k) == e + e;
    PowAdd(a, e, e);
  }

  lemma {:induction false} SquaringsInRange(x: int, n: int, k: nat)
    requires n > 0 && 0 <= x < n
    ensures 0 <= Squarings(x, n, k) < n
    decreases k
  {
    if k > 0 {
      SquaringsInRange(x, n, k - 1);
      ModPowSquare(Squarings(x, n, k - 1), n);
    }
  }

  /** Going down from a squaring that equals 1: the first step away from 1 must be at n-1. */
  lemma {:induction false} LastStepBeforeOne(x: int, n: int, k: nat) returns (i: nat)
    requires IsPrime(n) && 0 <= x < n && x != 1 && Squarings(x, n, k) == 1
    ensures i < k && Squarings(x, n, i) == n - 1
    decreases k
  {
    var y := Squarings(x, n, k - 1);
    SquaringsInRange(x, n, k - 1);
    ModPowSquare(y, n);
    SquareRootsOfOne(n, y);
    if y == n - 1 {
      i := k - 1;
    } else {
      i := LastStepBeforeOne(x, n, k - 1);
    }
  }

  /** Every witness in [2, n-2] passes for a prime n >= 5. */
  lemma PrimePasses(n: int, a: int)
    requires IsPrime(n) && n >= 5 && n % 2 == 1 && 2 <= a <= n - 2
    ensures Passes(n, a, OddPart(n - 1), TwoAdicity(n - 1))
  {
    var d, r := OddPart(n - 1), TwoAdicity(n - 1);
    OddPartFactor(n - 1);
    var x := ModPow(a, d, n);
    ModPowIsMod(a, d, n);
    SquaringsArePowers(a, d, n, r);
    SmallMod(a, n);
    Fermat.Fermat(n, a);
    if x != 1 {
      var i := LastStepBeforeOne(x, n, r);
      assert i == 0 ==> x == n - 1;
    }
  }

  lemma {:induction false} PrimeSurvivesRounds(n: int, count: nat, rng: seq<byte>)
    requires IsPrime(n) && n >= 5 && n % 2 == 1
    ensures WitnessRounds(n, OddPart(n - 1), TwoAdicity(n - 1), count, rng) != Some((false, []))
    ensures forall rest :: WitnessRounds(n, OddPart(n - 1), TwoAdicity(n - 1), count, rng) != Some((false, rest))
    decreases count
  {
    if count > 0 {
      match RandomInRange(2, n - 2, rng)
      case None =>
      case Some((a, rest)) =>
        PrimePasses(n, a);
        PrimeSurvivesRounds(n, count - 1, rest);
    }
  }

  /** What the test accepts is 2, 3 or an odd number of at least 5: even candidates are
      always filtered out. */
  lemma AcceptsOnlyOdd(n: int, iterations: int, rng: seq<byte>)
    requires MillerRabin(n, iterations, rng).Some? && MillerRabin(n, iterations, rng).value.0
    ensures n == 2 || n == 3 || (n >= 5 && n % 2 == 1)
  {
  }

  /** Miller-Rabin never rejects a prime, whatever witnesses the random stream supplies. */
  lemma PrimeNeverRejected(n: int, iterations: int, rng: seq<byte>)
    requires IsPrime(n)
    ensures MillerRabin(n, iterations, rng).Some? ==> MillerRabin(n, iterations, rng).value.0
  {
    if n > 3 {
      assert n % 2 != 0;
      PrimeSurvivesRounds(n, if iterations < 0 then 0 else iterations, rng);
    }
  }
}
