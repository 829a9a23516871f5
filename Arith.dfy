/** Exact integer arithmetic that the ElGamal code takes from System.Numerics.BigInteger:
    powers, the C# remainder operator, BigInteger.ModPow, the greatest common divisor,
    and the facts about primes that the primality test and the signature scheme rely on. */
module Arith {

  function Pow(b: int, e: nat): int
    decreases e
  {
    if e == 0 then 1 else b * Pow(b, e - 1)
  }

  function Abs(x: int): nat
  {
    if x < 0 then -x else x
  }

  /** `a % m` as C# computes it on BigInteger: the quotient is truncated toward zero, so a
      non-zero remainder has the sign of the dividend. Dafny's own `%` is Euclidean. */
  function Rem(a: int, m: int): (r: int)
    requires m != 0
    ensures Abs(r) < Abs(m)
    ensures r == 0 || (r < 0 <==> a < 0)
    ensures (a - r) % Abs(m) == 0
  {
    if a >= 0 then
      ModOfDifference(a, Abs(m));
      a % Abs(m)
    else
      ModOfDifference(-a, Abs(m));
      assert a - -((-a) % Abs(m)) == -(-a - (-a) % Abs(m));
      NegateMultiple(-a - (-a) % Abs(m), Abs(m));
      -((-a) % Abs(m))
  }

  /** `a / m` as C# computes it on int and BigInteger, for a positive divisor: the quotient
      is truncated toward zero. */
  function Quot(a: int, m: int): int
    requires m > 0
  {
    if a >= 0 then a / m else -((-a) / m)
  }

  /** BigInteger.ModPow(b, e, m): the remainder (C# sign convention) of b^e by m. The
      library throws for a negative exponent; callers here check that first. */
  function ModPow(b: int, e: nat, m: int): int
    requires m != 0
  {
    Rem(Pow(b, e), m)
  }

  /** BigInteger.GreatestCommonDivisor on non-negative arguments (Euclid's recursion). */
  function Gcd(a: nat, b: nat): nat
    decreases b
  {
    if b == 0 then a else Gcd(b, a % b)
  }

  ghost predicate IsPrime(p: int)
  {
    p >= 2 && forall k :: 2 <= k < p ==> p % k != 0
  }

  // ---------------------------------------------------------------------------------------
  // Division and remainder

  lemma ModUnique(x: int, d: int, q: int, r: int)
    requires d > 0 && x == d * q + r && 0 <= r < d
    ensures x / d == q && x % d == r
  {
    var q0, r0 := x / d, x % d;
    assert d * (q - q0) == r0 - r;
    SmallMultiple(d, q - q0, r0 - r);
  }

  lemma Division(b: int, m: int)
    requires b >= 0 && m > 0
    ensures (b / m) * m + b % m == b && 0 <= (b / m) * m <= b
  {
  }



  lemma SmallMod(x: int, m: int)
    requires 0 <= x < m
    ensures x % m == x && x / m == 0
  {
    ModUnique(x, m, 0, x);
  }

  /** The only multiple of d strictly between -d and d is 0. */
  lemma SmallMultiple(d: int, k: int, z: int)
    requires d > 0 && d * k == z && -d < z < d
    ensures k == 0
  {
  }

  lemma ModOfDifference(a: int, m: int)
    requires m > 0
    ensures (a - a % m) % m == 0
  {
    ModUnique(a - a % m, m, a / m, 0);
  }

  lemma NegateMultiple(x: int, m: int)
    requires m > 0 && x % m == 0
    ensures (-x) % m == 0
  {
    ModUnique(-x, m, -(x / m), 0);
  }

  lemma MultipleMod(k: int, m: int)
    requires m > 0
    ensures (k * m) % m == 0 && (m * k) % m == 0
  {
    ModUnique(k * m, m, k, 0);
  }

  lemma AddMultiple(k: int, m: int, z: int)
    requires m > 0
    ensures (k * m + z) % m == z % m
  {
    ModUnique(k * m + z, m, k + z / m, z % m);
  }

  lemma MulMod(x: int, y: int, m: int)
    requires m > 0
    ensures (x * y) % m == ((x % m) * (y % m)) % m
  {
    var qx, rx := x / m, x % m;
    var qy, ry := y / m, y % m;
    assert x * y == (qx * y + rx * qy) * m + rx * ry by {
      assert x == m * qx + rx && y == m * qy + ry;
    }
    AddMultiple(qx * y + rx * qy, m, rx * ry);
  }

  lemma AddMod(x: int, y: int, m: int)
    requires m > 0
    ensures (x + y) % m == ((x % m) + (y % m)) % m
  {
    assert x + y == (x / m + y / m) * m + (x % m + y % m);
    AddMultiple(x / m + y / m, m, x % m + y % m);
  }

  /** Two numbers with the same remainder differ by a multiple of the modulus, and back. */
  lemma SameModDifference(a: int, b: int, m: int)
    requires m > 0
    ensures a % m == b % m <==> (a - b) % m == 0
  {
    var qa, ra, qb, rb := a / m, a % m, b / m, b % m;
    assert a - b == (qa - qb) * m + (ra - rb);
    if ra == rb {
      MultipleMod(qa - qb, m);
    }
    if (a - b) % m == 0 {
      var t := (a - b) / m;
      assert m * (t - qa + qb) == ra - rb;
      SmallMultiple(m, t - qa + qb, ra - rb);
    }
  }

  lemma DivisorAtMost(x: int, g: int)
    requires x > 0 && g > 0 && x % g == 0
    ensures g <= x
  {
    assert x == g * (x / g);
    MultipleAtLeast(g, x / g);
  }

  lemma MultipleAtLeast(g: int, k: int)
    requires g > 0 && g * k > 0
    ensures g * k >= g
  {
  }

  // ---------------------------------------------------------------------------------------
  // Powers

  lemma PowNonNegative(b: int, e: nat)
    requires b >= 0
    ensures Pow(b, e) >= 0
    decreases e
  {
    if e > 0 {
      PowNonNegative(b, e - 1);
    }
  }

  lemma PowPositive(b: int, e: nat)
    requires b > 0
    ensures Pow(b, e) > 0
    decreases e
  {
    if e > 0 {
      PowPositive(b, e - 1);
    }
  }

  lemma {:induction false} PowAdd(b: int, e1: nat, e2: nat)
    ensures Pow(b, e1 + e2) == Pow(b, e1) * Pow(b, e2)
    decreases e1
  {
    if e1 > 0 {
      PowAdd(b, e1 - 1, e2);
      assert Pow(b, e1 + e2) == b * Pow(b, e1 - 1 + e2);
    }
  }

  lemma {:induction false} PowMul(b: int, e1: nat, e2: nat)
    ensures Pow(b, e1 * e2) == Pow(Pow(b, e1), e2)
    decreases e2
  {
    if e2 > 0 {
      PowMul(b, e1, e2 - 1);
      assert e1 * e2 == e1 * (e2 - 1) + e1;
      PowAdd(b, e1 * (e2 - 1), e1);
    }
  }

  /** Reducing the base first does not change the power's remainder. */
  lemma {:induction false} PowModBase(b: int, e: nat, m: int)
    requires m > 0
    ensures Pow(b % m, e) % m == Pow(b, e) % m
    decreases e
  {
    if e > 0 {
      PowModBase(b, e - 1, m);
      MulMod(b, Pow(b, e - 1), m);
      MulMod(b % m, Pow(b % m, e - 1), m);
      assert (b % m) % m == b % m;
    }
  }

  /** The remainder of 1 raised to any power. */
  lemma {:induction false} PowOneMod(c: int, e: nat, m: int)
    requires m > 1 && c % m == 1
    ensures Pow(c, e) % m == 1
    decreases e
  {
    if e > 0 {
      PowOneMod(c, e - 1, m);
      var rest := Pow(c, e - 1);
      assert Pow(c, e) == c * rest;
      MulMod(c, rest, m);
      assert (c % m) * (rest % m) == 1;
      SmallMod(1, m);
    }
  }

  /** On a non-negative base and a positive modulus, ModPow is the mathematical b^e mod m. */
  lemma ModPowIsMod(b: int, e: nat, m: int)
    requires b >= 0 && m > 0
    ensures ModPow(b, e, m) == Pow(b, e) % m
    ensures 0 <= ModPow(b, e, m) < m
  {
    PowNonNegative(b, e);
  }

  // ---------------------------------------------------------------------------------------
  // Greatest common divisor

  lemma {:induction false} GcdDivides(a: nat, b: nat)
    requires a > 0 || b > 0
    ensures Gcd(a, b) > 0 && a % Gcd(a, b) == 0 && b % Gcd(a, b) == 0
    decreases b
  {
    if b > 0 {
      GcdDivides(b, a % b);
      DividesDividend(a, b, Gcd(a, b));
    }
  }

  /** A common divisor of b and a % b divides a. */
  lemma DividesDividend(a: int, b: int, g: int)
    requires b > 0 && g > 0 && b % g == 0 && (a % b) % g == 0
    ensures a % g == 0
  {
    var qb, qr := b / g, (a % b) / g;
    assert a == b * (a / b) + a % b;
    assert a == g * (qb * (a / b) + qr) by {
      assert b == g * qb && a % b == g * qr;
    }
    MultipleMod(qb * (a / b) + qr, g);
  }

  lemma {:induction false} Bezout(a: nat, b: nat) returns (x: int, y: int)
    ensures a * x + b * y == Gcd(a, b)
    decreases b
  {
    if b == 0 {
      x, y := 1, 0;
    } else {
      var x', y' := Bezout(b, a % b);
      x, y := y', x' - (a / b) * y';
      assert a == b * (a / b) + a % b;
      calc {
        a * x + b * y;
        a * y' + b * x' - b * (a / b) * y';
        b * x' + (a - b * (a / b)) * y';
        b * x' + (a % b) * y';
      }
    }
  }

  // ---------------------------------------------------------------------------------------
  // Primes

  /** Euclid's lemma: a prime dividing a product divides one of the factors. */
  lemma Euclid(p: int, a: int, b: int)
    requires IsPrime(p) && (a * b) % p == 0
    ensures a % p == 0 || b % p == 0
  {
    var x, y := a % p, b % p;
    MulMod(a, b, p);
    SmallMod(x, p);
    SmallMod(y, p);
    if x != 0 {
      CoprimeToPrime(p, x);
      CoprimeFactor(p, x, y);
    }
  }

  lemma CoprimeToPrime(p: int, x: int)
    requires IsPrime(p) && 0 < x < p
    ensures Gcd(x, p) == 1
  {
    GcdDivides(x, p);
    DivisorAtMost(x, Gcd(x, p));
  }

  /** If m divides x * y and shares no factor with x, it divides y. */
  lemma CoprimeFactor(m: int, x: nat, y: int)
    requires m > 0 && Gcd(x, m) == 1 && (x * y) % m == 0
    ensures y % m == 0
  {
    var u, v := Bezout(x, m);
    var c := (x * y) / m;
    assert x * y == m * c;
    CancelByBezout(x, y, m, u, v, c);
    MultipleMod(c * u + y * v, m);
  }

  lemma CancelByBezout(x: int, y: int, m: int, u: int, v: int, c: int)
    requires x * u + m * v == 1 && x * y == m * c
    ensures y == m * (c * u + y * v)
  {
    calc {
      y;
      y * (x * u + m * v);
      (x * y) * u + m * (y * v);
      (m * c) * u + m * (y * v);
      m * (c * u + y * v);
    }
  }

  /** A power of a number that a prime does not divide is not divisible by it either. */
  lemma {:induction false} PowNotDivisible(p: int, b: int, e: nat)
    requires IsPrime(p) && b % p != 0
    ensures Pow(b, e) % p != 0
    decreases e
  {
    if e > 0 {
      PowNotDivisible(p, b, e - 1);
      if Pow(b, e) % p == 0 {
        Euclid(p, b, Pow(b, e - 1));
      }
    }
  }

  /** Only 1 and p - 1 square to 1 modulo a prime p. */
  lemma SquareRootsOfOne(p: int, x: int)
    requires IsPrime(p) && 0 <= x < p && (x * x) % p == 1
    ensures x == 1 || x == p - 1
  {
    SquareMinusOne(x, p);
    Euclid(p, x - 1, x + 1);
    if (x - 1) % p == 0 {
      ModUnique(x - 1, p, 0, x - 1);
    } else {
      ModUnique(x + 1, p, 1, x + 1 - p);
    }
  }

  /** x^2 = 1 (mod m) means m divides (x-1)(x+1). */
  lemma SquareMinusOne(x: int, m: int)
    requires m > 1 && (x * x) % m == 1
    ensures ((x - 1) * (x + 1)) % m == 0
  {
    assert (x - 1) * (x + 1) == x * x - 1;
    SmallMod(1, m);
    SameModDifference(x * x, 1, m);
  }

}
