/** Fermat's little theorem, on which `inv()` = pow(MOD - 2) of modint.hpp
    relies: for a prime MOD it is the multiplicative inverse. The proof goes
    through Euclid's lemma and the binomial theorem. */
module Primes {
  import opened ModInts

  /** p is at least 2 and has no divisor strictly between 1 and p. */
  ghost predicate Prime(p: int) {
    p >= 2 && forall d :: 2 <= d < p ==> p % d != 0
  }

  /** Sums and differences of multiples of m are multiples of m. */
  lemma MultipleSum(a: int, b: int, m: int)
    requires m > 0 && a % m == 0 && b % m == 0
    ensures (a + b) % m == 0 && (a - b) % m == 0
  {
    AddMod(a, b, m);
    ModUnique(-b, m, -(b / m), 0);
    AddMod(a, -b, m);
  }

  lemma MultipleAdd(a: int, b: int, c: int, m: int)
    requires m > 0 && a % m == 0 && b % m == 0 && c == a + b
    ensures c % m == 0
  {
    MultipleSum(a, b, m);
  }

  /** A multiple of m times anything is a multiple of m. */
  lemma MultipleProduct(a: int, b: int, m: int)
    requires m > 0 && a % m == 0
    ensures (a * b) % m == 0
  {
    MulModLeft(a, b, m);
  }

  /** The greatest common divisor, by repeated subtraction. */
  function Gcd(x: int, y: int): (g: int)
    requires x > 0 && y > 0
    ensures 0 < g <= x && g <= y
    decreases x + y
  {
    if x == y then x else if x > y then Gcd(x - y, y) else Gcd(x, y - x)
  }

  lemma {:induction false} GcdDivides(x: int, y: int)
    requires x > 0 && y > 0
    ensures x % Gcd(x, y) == 0 && y % Gcd(x, y) == 0
    decreases x + y
  {
    var g := Gcd(x, y);
    if x > y {
      GcdDivides(x - y, y);
      MultipleSum(x - y, y, g);
      assert x == (x - y) + y;
    } else if x < y {
      GcdDivides(x, y - x);
      MultipleSum(y - x, x, g);
      assert y == (y - x) + x;
    } else {
      ModUnique(x, x, 1, 0);
    }
  }

  /** If m divides x * b and y * b, it divides gcd(x, y) * b. */
  lemma {:induction false} GcdMultiple(x: int, y: int, b: int, m: int)
    requires x > 0 && y > 0 && m > 0 && (x * b) % m == 0 && (y * b) % m == 0
    ensures (Gcd(x, y) * b) % m == 0
    decreases x + y
  {
    if x > y {
      assert (x - y) * b == x * b - y * b;
      MultipleSum(x * b, y * b, m);
      GcdMultiple(x - y, y, b, m);
    } else if x < y {
      assert (y - x) * b == y * b - x * b;
      MultipleSum(y * b, x * b, m);
      GcdMultiple(x, y - x, b, m);
    }
  }

  /** Euclid's lemma: a prime that divides a product and not the first
      factor divides the second. */
  lemma Euclid(p: int, a: int, b: int)
    requires Prime(p) && (a * b) % p == 0 && a % p != 0
    ensures b % p == 0
  {
    var r := a % p;
    MulModLeft(a, b, p);
    ModUnique(p * b, p, b, 0);
    GcdMultiple(r, p, b, p);
    GcdDivides(r, p);
    var g := Gcd(r, p);
    assert g == 1;
    UnitFactor(g, b);
  }

  /** The binomial coefficient n choose k, by Pascal's rule. */
  function Binom(n: nat, k: nat): nat {
    if k == 0 then 1 else if n == 0 then 0 else Binom(n - 1, k - 1) + Binom(n - 1, k)
  }

  lemma {:induction false} BinomBeyond(n: nat, k: nat)
    requires k > n
    ensures Binom(n, k) == 0
  {
    if n > 0 {
      BinomBeyond(n - 1, k - 1);
      BinomBeyond(n - 1, k);
    }
  }

  lemma {:induction false} BinomAll(n: nat)
    ensures Binom(n, n) == 1
  {
    if n > 0 {
      BinomAll(n - 1);
      BinomBeyond(n - 1, n);
    }
  }

  /** The absorption identity k C(n, k) = n C(n - 1, k - 1). */
  lemma {:induction false} Absorb(n: nat, k: nat)
    requires n >= 1 && k >= 1
    ensures k * Binom(n, k) == n * Binom(n - 1, k - 1)
    decreases n
  {
    if n == 1 {
      if k > 1 {
        BinomBeyond(1, k);
        BinomBeyond(0, k - 1);
      }
    } else {
      var a, b, d := Binom(n - 1, k - 1), Binom(n - 1, k), Binom(n - 2, k - 1);
      Absorb(n - 1, k);
      var c := if k == 1 then 0 else Binom(n - 2, k - 2);
      if k > 1 {
        Absorb(n - 1, k - 1);
      }
      AbsorbStep(n, k, a, b, c, d);
    }
  }

  /** The algebra of one step of Absorb, with C(n - 1, k - 1) = a,
      C(n - 1, k) = b, C(n - 2, k - 2) = c and C(n - 2, k - 1) = d. */
  lemma AbsorbStep(n: int, k: int, a: int, b: int, c: int, d: int)
    requires k * b == (n - 1) * d && (k - 1) * a == (n - 1) * c && a == c + d
    ensures k * (a + b) == n * a
  {
    assert k * (a + b) == a + (k - 1) * a + k * b;
    assert (n - 1) * a == (n - 1) * c + (n - 1) * d;
  }

  /** The sum of C(n, i) x^i for i = 0..j; 0 when j < 0. */
  function BinomSum(n: nat, x: int, j: int): int
    decreases if j < 0 then 0 else j + 1
  {
    if j < 0 then 0 else BinomSum(n, x, j - 1) + Binom(n, j) * Exp(x, j)
  }

  /** Pascal's rule summed up to j. */
  lemma {:induction false} SumPascal(n: nat, x: int, j: int)
    requires j >= 0
    ensures BinomSum(n + 1, x, j) == BinomSum(n, x, j) + x * BinomSum(n, x, j - 1)
    decreases j
  {
    if j > 0 {
      SumPascal(n, x, j - 1);
      PascalStep(x, BinomSum(n + 1, x, j - 1), BinomSum(n, x, j - 1), BinomSum(n, x, j - 2),
                 Binom(n, j - 1), Binom(n, j), Exp(x, j), Exp(x, j - 1));
    }
  }

  /** The algebra of one step of SumPascal: s1, t1 and t2 are the sums up
      to j - 1 for n + 1, to j - 1 for n and to j - 2 for n; c1 and c2 are
      C(n, j - 1) and C(n, j); e and e1 are x^j and x^(j-1). */
  lemma PascalStep(x: int, s1: int, t1: int, t2: int, c1: int, c2: int, e: int, e1: int)
    requires s1 == t1 + x * t2 && t1 == t2 + c1 * e1 && e == x * e1
    ensures s1 + (c1 + c2) * e == (t1 + c2 * e) + x * t1
  {
    assert x * t1 == x * t2 + c1 * (x * e1);
  }

  lemma ZeroFactor(c: int, e: int)
    requires c == 0
    ensures c * e == 0
  {
  }

  lemma UnitFactor(c: int, e: int)
    requires c == 1
    ensures c * e == e
  {
  }

  /** The binomial theorem for (x + 1)^n. */
  lemma {:induction false} BinomialTheorem(x: int, n: nat)
    ensures Exp(x + 1, n) == BinomSum(n, x, n)
  {
    if n > 0 {
      BinomialTheorem(x, n - 1);
      SumPascal(n - 1, x, n);
      BinomBeyond(n - 1, n);
      var s := BinomSum(n - 1, x, n - 1);
      ZeroFactor(Binom(n - 1, n), Exp(x, n));
      Expand(1, x, 1, s);
    }
  }

  /** Every C(p, k) with 0 < k < p is a multiple of the prime p. */
  lemma PrimeDividesBinom(p: int, k: nat)
    requires Prime(p) && 0 < k < p
    ensures Binom(p, k) % p == 0
  {
    var c, d := Binom(p, k), Binom(p - 1, k - 1);
    Absorb(p, k);
    ModUnique(p * d, p, d, 0);
    ModUnique(k, p, 0, k);
    Euclid(p, k, c);
  }

  /** The terms of (x + 1)^p between the first and the last vanish mod p. */
  lemma {:induction false} MiddleTerms(p: int, x: int, j: int)
    requires Prime(p) && 0 <= j < p
    ensures (BinomSum(p, x, j) - 1) % p == 0
    decreases j
  {
    if j > 0 {
      MiddleTerms(p, x, j - 1);
      PrimeDividesBinom(p, j);
      MultipleProduct(Binom(p, j), Exp(x, j), p);
      MultipleSum(BinomSum(p, x, j - 1) - 1, Binom(p, j) * Exp(x, j), p);
    }
  }

  /** a^p and a leave the same residue mod a prime p. */
  lemma {:induction false} FermatPower(p: int, a: nat)
    requires Prime(p)
    ensures (Exp(a, p) - a) % p == 0
    decreases a
  {
    if a == 0 {
      assert Exp(0, p) == 0 * Exp(0, p - 1);
    } else {
      FermatPower(p, a - 1);
      BinomialTheorem(a - 1, p);
      BinomAll(p);
      MiddleTerms(p, a - 1, p - 1);
      var t, e1 := BinomSum(p, a - 1, p - 1), Exp(a - 1, p);
      UnitFactor(Binom(p, p), e1);
      MultipleAdd(t - 1, e1 - (a - 1), Exp(a, p) - a, p);
    }
  }

  /** Fermat's little theorem: a^(p-1) leaves residue 1 when the prime p
      does not divide a. */
  lemma Fermat(p: int, a: nat)
    requires Prime(p) && a % p != 0
    ensures Exp(a, p - 1) % p == 1
  {
    FermatPower(p, a);
    var e := Exp(a, p - 1);
    assert Exp(a, p) == a * e;
    assert a * (e - 1) == Exp(a, p) - a;
    Euclid(p, a, e - 1);
    ModUnique(e, p, (e - 1) / p, 1);
  }

  /** x * x.inv() == 1 for a prime MOD and a non-negative rep that MOD does
      not divide. */
  lemma InvIsInverse(a: int, m: int)
    requires Prime(m) && a >= 0 && a % m != 0
    ensures MulRep(a, InvRep(a, m), m) == 1
  {
    var e := Exp(a, m - 2);
    InvRepPower(a, m);
    ExpNonNeg(a, m - 2);
    Fermat(m, a);
    assert Exp(a, m - 1) == a * e;
    MulMod(a, e, m);
  }

  /** inv() of a non-negative rep is rep^(MOD-2) mod MOD when MOD >= 2. */
  lemma InvRepPower(a: int, m: int)
    requires m >= 2 && a >= 0
    ensures InvRep(a, m) == Exp(a, m - 2) % m
  {
    PowRepExp(a, m - 2, m);
    ModUnique(1, m, 0, 1);
  }

  /** (a / b) * b == a for a prime MOD and a divisor b that MOD does not
      divide. */
  lemma DivUndoesMul(a: int, b: int, m: int)
    requires Prime(m) && a >= 0 && b >= 0 && b % m != 0
    ensures MulRep(DivRep(a, b, m), b, m) == a % m
  {
    var j := InvRep(b, m);
    InvIsInverse(b, m);
    InvRepPower(b, m);
    ExpNonNeg(b, m - 2);
    var d := (a * j) % m;
    MulModLeft(a * j, b, m);
    MulAssoc(a, j, b);
    MulMod(a, j * b, m);
    UnitFactor(j * b % m, a);
    assert (a * j) * b % m == a * (j * b % m) % m;
  }

  lemma MulAssoc(a: int, b: int, c: int)
    ensures (a * b) * c == a * (b * c)
  {
  }
}
