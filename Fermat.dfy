/** Fermat's little theorem, by the classical argument: multiplying 1, 2, ..., p-1 by a number
    that the prime p does not divide only permutes the non-zero residues modulo p, so the two
    products agree modulo p, and cancelling (p-1)! leaves a^(p-1) = 1 (mod p). */
module Fermat {
  import opened Arith

  function Product(s: seq<int>): int
  {
    if s == [] then 1 else Product(s[..|s| - 1]) * s[|s| - 1]
  }

  /** 1, 2, ..., n */
  function Ones(n: nat): (s: seq<int>)
    ensures |s| == n
  {
    if n == 0 then [] else Ones(n - 1) + [n]
  }

  /** a*1 mod p, a*2 mod p, ..., a*n mod p */
  function Residues(a: int, p: int, n: nat): (s: seq<int>)
    requires p > 0
    ensures |s| == n
  {
    if n == 0 then [] else Residues(a, p, n - 1) + [(a * n) % p]
  }

  ghost predicate AllBetween(s: seq<int>, lo: int, hi: int)
  {
    forall i :: 0 <= i < |s| ==> lo <= s[i] <= hi
  }

  ghost predicate Distinct(s: seq<int>)
  {
    forall i, j :: 0 <= i < j < |s| ==> s[i] != s[j]
  }

  // ---------------------------------------------------------------------------------------
  // Products of sequences

  lemma {:induction false} ProductConcat(a: seq<int>, b: seq<int>)
    ensures Product(a + b) == Product(a) * Product(b)
    decreases |b|
  {
    if b == [] {
      assert a + b == a;
    } else {
      var b' := b[..|b| - 1];
      assert (a + b)[..|a + b| - 1] == a + b';
      ProductConcat(a, b');
    }
  }

  /** The product does not depend on the order of the factors. */
  lemma {:induction false} ProductPermutation(s: seq<int>, t: seq<int>)
    requires multiset(s) == multiset(t)
    ensures Product(s) == Product(t)
    decreases |s|
  {
    if s == [] {
      assert |t| == |multiset(t)| == 0;
    } else {
      var x, s' := s[|s| - 1], s[..|s| - 1];
      assert s == s' + [x];
      assert x in multiset(t);
      var i :| 0 <= i < |t| && t[i] == x;
      var rest := t[..i] + t[i + 1..];
      RemoveAt(t, i);
      assert multiset(s') == multiset(s) - multiset{x};
      ProductPermutation(s', rest);
    }
  }

  /** Taking out the factor at index i. */
  lemma RemoveAt(t: seq<int>, i: int)
    requires 0 <= i < |t|
    ensures multiset(t[..i] + t[i + 1..]) == multiset(t) - multiset{t[i]}
    ensures Product(t) == Product(t[..i] + t[i + 1..]) * t[i]
  {
    Split(t, i);
    assert multiset(t) == multiset(t[..i] + t[i + 1..]) + multiset{t[i]} by {
      assert multiset(t) == multiset(t[..i]) + multiset{t[i]} + multiset(t[i + 1..]);
    }
    ProductAround(t[..i], t[i], t[i + 1..]);
  }

  lemma Split(t: seq<int>, i: int)
    requires 0 <= i < |t|
    ensures t == t[..i] + [t[i]] + t[i + 1..]
  {
  }

  lemma ProductAround(before: seq<int>, x: int, after: seq<int>)
    ensures Product(before + [x] + after) == Product(before + after) * x
  {
    ProductConcat(before + [x], after);
    ProductConcat(before, after);
    assert Product(before + [x]) == Product(before) * x by {
      assert (before + [x])[..|before|] == before;
    }
    MulSwap(Product(before), x, Product(after));
  }

  lemma MulSwap(a: int, b: int, c: int)
    ensures (a * b) * c == (a * c) * b
  {
  }

  /** A prime that divides none of the factors does not divide the product. */
  lemma {:induction false} ProductNotDivisible(p: int, s: seq<int>)
    requires IsPrime(p)
    requires forall i :: 0 <= i < |s| ==> s[i] % p != 0
    ensures Product(s) % p != 0
    decreases |s|
  {
    if s != [] {
      var s' := s[..|s| - 1];
      ProductNotDivisible(p, s');
      if Product(s) % p == 0 {
        Euclid(p, Product(s'), s[|s| - 1]);
      }
    }
  }

  /** Reducing every factor modulo p keeps the product's remainder: the product of the
      residues of a*k is a^n * n! modulo p. */
  lemma {:induction false} ResiduesProduct(a: int, p: int, n: nat)
    requires p > 0
    ensures Product(Residues(a, p, n)) % p == (Pow(a, n) * Product(Ones(n))) % p
    decreases n
  {
    if n > 0 {
      ResiduesProduct(a, p, n - 1);
      ResiduesStep(a, p, n);
    }
  }

  /** One more factor on each side: (a*n) mod p on the left, n on the right and one more a
      in the power. */
  lemma ResiduesStep(a: int, p: int, n: nat)
    requires p > 0 && n > 0
    requires Product(Residues(a, p, n - 1)) % p == (Pow(a, n - 1) * Product(Ones(n - 1))) % p
    ensures Product(Residues(a, p, n)) % p == (Pow(a, n) * Product(Ones(n))) % p
  {
    var prev, fact, power := Product(Residues(a, p, n - 1)), Product(Ones(n - 1)), Pow(a, n - 1);
    assert Residues(a, p, n)[..n - 1] == Residues(a, p, n - 1);
    assert Ones(n)[..n - 1] == Ones(n - 1);
    assert Product(Residues(a, p, n)) == prev * ((a * n) % p);
    assert Product(Ones(n)) == fact * n;
    ModOfMod(a * n, p);
    SameFactorMod(prev, (a * n) % p, a * n, p);
    SameFactorMod(a * n, prev, power * fact, p);
    Regroup(power, fact, a, n);
  }

  /** Factors with the same remainder give products with the same remainder. */
  lemma SameFactorMod(x: int, y: int, z: int, m: int)
    requires m > 0 && y % m == z % m
    ensures (x * y) % m == (x * z) % m && (y * x) % m == (z * x) % m
  {
    MulMod(x, y, m);
    MulMod(x, z, m);
    assert y * x == x * y && z * x == x * z;
  }

  lemma Regroup(power: int, fact: int, a: int, n: int)
    ensures (a * n) * (power * fact) == (a * power) * (fact * n)
  {
  }

  lemma ModOfMod(x: int, m: int)
    requires m > 0
    ensures (x % m) % m == x % m
  {
    SmallMod(x % m, m);
  }

  // ---------------------------------------------------------------------------------------
  // The residues a*k mod p, 1 <= k <= p-1, are 1..p-1 in some order

  lemma {:induction false} OnesAt(n: nat, i: int)
    requires 0 <= i < n
    ensures Ones(n)[i] == i + 1
    decreases n
  {
    if i < n - 1 {
      OnesAt(n - 1, i);
    }
  }

  lemma {:induction false} ResiduesAt(a: int, p: int, n: nat, i: int)
    requires p > 0 && 0 <= i < n
    ensures Residues(a, p, n)[i] == (a * (i + 1)) % p
    decreases n
  {
    if i < n - 1 {
      ResiduesAt(a, p, n - 1, i);
    }
  }

  lemma ResiduesDistinctNonZero(a: int, p: int)
    requires IsPrime(p) && a % p != 0
    ensures Distinct(Residues(a, p, p - 1))
    ensures AllBetween(Residues(a, p, p - 1), 1, p - 1)
  {
    var s := Residues(a, p, p - 1);
    forall i | 0 <= i < p - 1
      ensures 1 <= s[i] <= p - 1
    {
      ResiduesAt(a, p, p - 1, i);
      SmallMod(i + 1, p);
      if s[i] == 0 {
        Euclid(p, a, i + 1);
      }
    }
    forall i, j | 0 <= i < j < p - 1
      ensures s[i] != s[j]
    {
      ResiduesAt(a, p, p - 1, i);
      ResiduesAt(a, p, p - 1, j);
      if s[i] == s[j] {
        SameModDifference(a * (j + 1), a * (i + 1), p);
        assert a * (j + 1) - a * (i + 1) == a * (j - i);
        Euclid(p, a, j - i);
        SmallMod(j - i, p);
      }
    }
  }

  function Elements(s: seq<int>): set<int>
  {
    set x | x in s
  }

  lemma {:induction false} DistinctElements(s: seq<int>)
    requires Distinct(s)
    ensures |Elements(s)| == |s|
    decreases |s|
  {
    if s != [] {
      var s' := s[..|s| - 1];
      DistinctElements(s');
      assert Elements(s) == Elements(s') + {s[|s| - 1]};
      assert s[|s| - 1] !in Elements(s');
    }
  }

  lemma SubsetOfSameSize(a: set<int>, b: set<int>)
    requires a <= b && |a| == |b|
    ensures a == b
  {
    assert b == a + (b - a);
  }

  lemma {:induction false} DistinctCount(s: seq<int>, v: int)
    requires Distinct(s)
    ensures multiset(s)[v] == if v in s then 1 else 0
    decreases |s|
  {
    if s != [] {
      var s' := s[..|s| - 1];
      assert s == s' + [s[|s| - 1]];
      DistinctCount(s', v);
    }
  }

  /** n distinct values drawn from 1..n are 1..n in some order. */
  lemma Pigeonhole(s: seq<int>)
    requires Distinct(s) && AllBetween(s, 1, |s|)
    ensures multiset(s) == multiset(Ones(|s|))
  {
    var n := |s|;
    var ones := Ones(n);
    assert Distinct(ones) by {
      forall i | 0 <= i < n {
        OnesAt(n, i);
      }
    }
    assert Elements(s) <= Elements(ones) by {
      forall i | 0 <= i < n
        ensures s[i] in ones
      {
        OnesAt(n, s[i] - 1);
      }
    }
    DistinctElements(s);
    DistinctElements(ones);
    SubsetOfSameSize(Elements(s), Elements(ones));
    forall v
      ensures multiset(s)[v] == multiset(ones)[v]
    {
      DistinctCount(s, v);
      DistinctCount(ones, v);
      assert v in s <==> v in Elements(s);
      assert v in ones <==> v in Elements(ones);
    }
  }

  // ---------------------------------------------------------------------------------------
  // The theorem

  /** Fermat's little theorem: a^(p-1) = 1 (mod p) for a prime p not dividing a. */
  lemma Fermat(p: int, a: int)
    requires IsPrime(p) && a % p != 0
    ensures Pow(a, p - 1) % p == 1
  {
    var n := p - 1;
    var fact := Product(Ones(n));
    ResiduesPermuteOnes(a, p);
    ResiduesProduct(a, p, n);
    FactorialNotDivisible(p);
    Cancel(p, Pow(a, n), fact);
  }

  lemma ResiduesPermuteOnes(a: int, p: int)
    requires IsPrime(p) && a % p != 0
    ensures Product(Residues(a, p, p - 1)) == Product(Ones(p - 1))
  {
    ResiduesDistinctNonZero(a, p);
    Pigeonhole(Residues(a, p, p - 1));
    ProductPermutation(Residues(a, p, p - 1), Ones(p - 1));
  }

  lemma FactorialNotDivisible(p: int)
    requires IsPrime(p)
    ensures Product(Ones(p - 1)) % p != 0
  {
    var ones := Ones(p - 1);
    forall i | 0 <= i < p - 1
      ensures ones[i] % p != 0
    {
      OnesAt(p - 1, i);
      SmallMod(i + 1, p);
    }
    ProductNotDivisible(p, ones);
  }

  /** Cancelling a factor that the prime does not divide. */
  lemma Cancel(p: int, c: int, f: int)
    requires IsPrime(p) && f % p != 0 && (c * f) % p == f % p
    ensures c % p == 1
  {
    SameModDifference(c * f, f, p);
    assert c * f - f == (c - 1) * f;
    Euclid(p, c - 1, f);
    SameModDifference(c, 1, p);
    SmallMod(1, p);
  }
}
