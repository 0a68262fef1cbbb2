/** math.hpp: `mod_pow`, the Miller-Rabin test `is_prime` over twelve fixed
    bases, and the factorial tables of `Combinatorics`. Arithmetic is on
    unbounded integers with C++'s truncating `%`. */
module Maths {
  import opened ModInts
  import opened Bits
  import opened Primes

  /** mod_pow(base, exp, mod): exp == 0 gives 1 % mod; an odd exp
      multiplies by mod_pow(exp - 1); any other exp squares
      mod_pow(exp / 2). */
  function ModPow(base: int, exp: int, mod: int): int
    requires mod > 0
    decreases if exp >= 0 then exp else -exp
  {
    if exp == 0 then Rem(1, mod)
    else if Rem(exp, 2) == 1 then Rem(base * ModPow(base, exp - 1, mod), mod)
    else
      var t := ModPow(base, Half(exp), mod);
      Rem(t * t, mod)
  }

  /** mod_pow(b, e, m) is b^e mod m for b >= 0, e >= 0 and m >= 1. */
  lemma {:induction false} ModPowExp(b: int, e: nat, m: int)
    requires m > 0 && b >= 0
    ensures ModPow(b, e, m) == Exp(b, e) % m
    decreases e
  {
    if e > 0 {
      if e % 2 == 1 {
        ModPowOdd(b, e, m);
      } else {
        ModPowEven(b, e, m);
      }
    }
  }

  lemma {:induction false} ModPowOdd(b: int, e: nat, m: int)
    requires m > 0 && b >= 0 && e % 2 == 1
    ensures ModPow(b, e, m) == Exp(b, e) % m
    decreases e, 0
  {
    var p := ModPow(b, e - 1, m);
    ModPowExp(b, e - 1, m);
    ExpNonNeg(b, e - 1);
    var x := Exp(b, e - 1);
    assert p == x % m;
    NonNegProduct(b, p);
    assert ModPow(b, e, m) == Rem(b * p, m) == (b * p) % m;
    MulMod(b, x, m);
    assert Exp(b, e) == b * x;
  }

  lemma NonNegProduct(a: int, b: int)
    requires a >= 0 && b >= 0
    ensures a * b >= 0
  {
  }

  lemma {:induction false} ModPowEven(b: int, e: nat, m: int)
    requires m > 0 && b >= 0 && e > 0 && e % 2 == 0
    ensures ModPow(b, e, m) == Exp(b, e) % m
    decreases e, 0
  {
    var h := e / 2;
    var t := ModPow(b, h, m);
    assert Half(e) == h && Rem(e, 2) == 0;
    assert ModPow(b, e, m) == Rem(t * t, m);
    ModPowExp(b, h, m);
    ExpAdd(b, h, h);
    ExpNonNeg(b, h);
    var x := Exp(b, h);
    assert t == x % m;
    MulModBoth(x, x, m);
  }

  /** The twelve bases, in the order they are tried. */
  const PRIMES: seq<int> := [2, 3, 5, 7, 11, 13, 17, 19, 23, 29, 31, 37]

  /** x after k of the squarings x = x * x % n. */
  function Squared(x: int, k: nat, n: int): int
    requires n > 0
  {
    if k == 0 then x else var y := Squared(x, k - 1, n); Rem(y * y, n)
  }

  /** Base a proves n composite: a^d is neither 1 nor n - 1 and none of the
      next s squarings reaches n - 1. */
  ghost predicate IsWitness(n: int, a: int, d: int, s: int)
    requires n > 0
  {
    var x := ModPow(a, d, n);
    x != 1 && x != n - 1 && forall k :: 1 <= k <= s ==> Squared(x, k, n) != n - 1
  }

  /** miller_rabin(n, a, d, s): true when a is a witness. */
  method MillerRabin(n: int, a: int, d: int, s: int) returns (b: bool)
    requires n > 0
    ensures b == IsWitness(n, a, d, s)
  {
    var x := ModPow(a, d, n);
    ghost var x0 := x;
    if x == 1 || x == n - 1 {
      return false;
    }
    var i := 0;
    while i < s
      invariant 0 <= i <= if s < 0 then 0 else s
      invariant x == Squared(x0, i, n)
      invariant forall k :: 1 <= k <= i ==> Squared(x0, k, n) != n - 1
    {
      x := Rem(x * x, n);
      if x == n - 1 {
        assert Squared(x0, i + 1, n) == n - 1;
        return false;
      }
      i := i + 1;
    }
    return true;
  }

  lemma Double(d: nat, p: nat)
    ensures d * (2 * p) == d * p + d * p
  {
  }

  /** The squarings of a^d reach a^(d 2^k) mod n. */
  lemma {:induction false} SquaredExp(a: int, d: nat, k: nat, n: int)
    requires n > 0 && a >= 0
    ensures Squared(ModPow(a, d, n), k, n) == Exp(a, d * Pow2(k)) % n
  {
    if k == 0 {
      ModPowExp(a, d, n);
    } else {
      SquaredExp(a, d, k - 1, n);
      var e := d * Pow2(k - 1);
      Double(d, Pow2(k - 1));
      ExpAdd(a, e, e);
      ExpNonNeg(a, e);
      var x := Exp(a, e);
      var y := Squared(ModPow(a, d, n), k - 1, n);
      assert y == x % n;
      assert Squared(ModPow(a, d, n), k, n) == Rem(y * y, n);
      MulModBoth(x, x, n);
    }
  }

  /** n = d 2^r with d odd, for n >= 1: the halving loop's result. */
  function Decompose(n: int): (dr: (int, nat))
    requires n >= 1
    decreases n
  {
    if n % 2 == 0 then var h := Decompose(n / 2); (h.0, h.1 + 1) else (n, 0)
  }

  /** The decomposition multiplies back to n, with an odd part of at least 1. */
  lemma {:induction false} DecomposeFactors(n: int)
    requires n >= 1
    ensures var dr := Decompose(n); dr.0 >= 1 && dr.0 % 2 == 1 && n == dr.0 * Pow2(dr.1)
    decreases n
  {
    if n % 2 == 0 {
      DecomposeFactors(n / 2);
      var h := Decompose(n / 2);
      assert n == 2 * (n / 2);
      assert h.0 * Pow2(h.1 + 1) == 2 * (h.0 * Pow2(h.1));
    }
  }

  /** Repeated squaring modulo n stays in 0..n-1. */
  lemma {:induction false} SquaredRange(x: int, k: nat, n: int)
    requires 0 <= x < n
    ensures 0 <= Squared(x, k, n) < n
  {
    if k > 0 {
      SquaredRange(x, k - 1, n);
      var y := Squared(x, k - 1, n);
      NonNegProduct(y, y);
    }
  }

  /** y * y == 1 modulo p makes (y - 1)(y + 1) a multiple of p. */
  lemma SquareMinusOne(p: int, y: int)
    requires p > 1 && (y * y) % p == 1
    ensures ((y - 1) * (y + 1)) % p == 0
  {
    var q := (y * y) / p;
    assert y * y == p * q + 1;
    assert (y - 1) * (y + 1) == p * q;
    ModUnique(p * q, p, q, 0);
  }

  /** Modulo a prime, 1 has no square roots besides 1 and p - 1. */
  lemma SquareRootOfOne(p: int, y: int)
    requires Prime(p) && 0 <= y < p && (y * y) % p == 1
    ensures y == 1 || y == p - 1
  {
    if y != 1 {
      assert y != 0;
      SquareMinusOne(p, y);
      ModUnique(y - 1, p, 0, y - 1);
      Euclid(p, y - 1, y + 1);
      if y + 1 < p {
        ModUnique(y + 1, p, 0, y + 1);
      }
    }
  }

  /** If the squarings of x0 != 1 reach 1, some earlier one is p - 1. */
  lemma {:induction false} MinusOneBefore(p: int, x0: int, k: nat) returns (j: nat)
    requires Prime(p) && 0 <= x0 < p && x0 != 1 && Squared(x0, k, p) == 1
    ensures j < k && Squared(x0, j, p) == p - 1
  {
    var y := Squared(x0, k - 1, p);
    SquaredRange(x0, k - 1, p);
    NonNegProduct(y, y);
    assert (y * y) % p == 1;
    if y == 1 {
      j := MinusOneBefore(p, x0, k - 1);
    } else {
      SquareRootOfOne(p, y);
      j := k - 1;
    }
  }

  /** No base that p does not divide is a witness against a prime p, with
      p - 1 = d 2^r. */
  lemma NoWitness(p: int, a: nat, d: nat, r: nat)
    requires Prime(p) && a % p != 0 && p - 1 == d * Pow2(r)
    ensures !IsWitness(p, a, d, r)
  {
    var x0 := ModPow(a, d, p);
    ModPowExp(a, d, p);
    SquaredExp(a, d, r, p);
    Fermat(p, a);
    assert Squared(x0, r, p) == 1;
    if x0 != 1 && x0 != p - 1 {
      var j := MinusOneBefore(p, x0, r);
      assert 1 <= j <= r && Squared(x0, j, p) == p - 1;
    }
  }

  /** a has no divisor in 2..k. */
  function NoDivisorUpTo(a: int, k: int): bool
    decreases k
  {
    k < 2 || (a % k != 0 && NoDivisorUpTo(a, k - 1))
  }

  lemma {:induction false} NoDivisorUpToMeans(a: int, k: int)
    requires NoDivisorUpTo(a, k)
    ensures forall e :: 2 <= e <= k ==> a % e != 0
    decreases k
  {
    if k >= 2 {
      NoDivisorUpToMeans(a, k - 1);
    }
  }

  lemma PrimeByCheck(a: int)
    requires a >= 2 && NoDivisorUpTo(a, a - 1)
    ensures Prime(a)
  {
    NoDivisorUpToMeans(a, a - 1);
  }

  /** The trial divisions of the larger bases, eight at a time. */
  lemma Checked11()
    ensures NoDivisorUpTo(11, 10)
  {
    assert NoDivisorUpTo(11, 8);
  }

  lemma Checked13()
    ensures NoDivisorUpTo(13, 12)
  {
    assert NoDivisorUpTo(13, 8);
  }

  lemma Checked17()
    ensures NoDivisorUpTo(17, 16)
  {
    assert NoDivisorUpTo(17, 8);
  }

  lemma Checked19()
    ensures NoDivisorUpTo(19, 18)
  {
    assert NoDivisorUpTo(19, 8);
    assert NoDivisorUpTo(19, 16);
  }

  lemma Checked23()
    ensures NoDivisorUpTo(23, 22)
  {
    assert NoDivisorUpTo(23, 8);
    assert NoDivisorUpTo(23, 16);
  }

  lemma Checked29()
    ensures NoDivisorUpTo(29, 28)
  {
    assert NoDivisorUpTo(29, 8);
    assert NoDivisorUpTo(29, 16);
    assert NoDivisorUpTo(29, 24);
  }

  lemma Checked31()
    ensures NoDivisorUpTo(31, 30)
  {
    assert NoDivisorUpTo(31, 8);
    assert NoDivisorUpTo(31, 16);
    assert NoDivisorUpTo(31, 24);
  }

  lemma Checked37()
    ensures NoDivisorUpTo(37, 36)
  {
    assert NoDivisorUpTo(37, 8);
    assert NoDivisorUpTo(37, 16);
    assert NoDivisorUpTo(37, 24);
    assert NoDivisorUpTo(37, 32);
  }

  /** The twelve bases are primes. */
  lemma BasesPrime()
    ensures forall k :: 0 <= k < |PRIMES| ==> Prime(PRIMES[k])
  {
    PrimeByCheck(2);
    PrimeByCheck(3);
    PrimeByCheck(5);
    PrimeByCheck(7);
    Checked11();
    PrimeByCheck(11);
    Checked13();
    PrimeByCheck(13);
    Checked17();
    PrimeByCheck(17);
    Checked19();
    PrimeByCheck(19);
    Checked23();
    PrimeByCheck(23);
    Checked29();
    PrimeByCheck(29);
    Checked31();
    PrimeByCheck(31);
    Checked37();
    PrimeByCheck(37);
  }

  /** A prime does not divide a different prime. */
  lemma DistinctPrimes(p: int, a: int)
    requires Prime(p) && Prime(a) && p != a
    ensures a % p != 0
  {
    if a < p {
      assert a % p == a;
    }
  }

  /** The verdict of the loop over the bases from `from` on: a base equal
      to x proves x prime, a witness proves it composite. */
  ghost function Scan(x: int, d: int, r: int, from: nat): bool
    requires x > 0 && from <= |PRIMES|
    decreases |PRIMES| - from
  {
    if from == |PRIMES| then true
    else if x == PRIMES[from] then true
    else if IsWitness(x, PRIMES[from], d, r) then false
    else Scan(x, d, r, from + 1)
  }

  /** A prime x passes the bases from `from` on: each base tried before x
      itself comes up is a prime other than x, hence no witness. */
  lemma {:induction false} ScanPrime(x: int, d: nat, r: nat, from: nat)
    requires Prime(x) && x - 1 == d * Pow2(r) && from <= |PRIMES|
    requires forall k :: 0 <= k < |PRIMES| ==> Prime(PRIMES[k])
    ensures Scan(x, d, r, from)
    decreases |PRIMES| - from
  {
    if from < |PRIMES| && x != PRIMES[from] {
      DistinctPrimes(x, PRIMES[from]);
      NoWitness(x, PRIMES[from], d, r);
      ScanPrime(x, d, r, from + 1);
    }
  }

  /** Every prime passes the test, the twelve bases among them. */
  lemma PrimePasses(x: int)
    requires x >= 2
    ensures Prime(x) ==> Scan(x, Decompose(x - 1).0, Decompose(x - 1).1, 0)
    ensures x in PRIMES ==> Prime(x)
  {
    BasesPrime();
    if Prime(x) {
      DecomposeFactors(x - 1);
      ScanPrime(x, Decompose(x - 1).0, Decompose(x - 1).1, 0);
    }
  }

  /** is_prime(x): false below 2; otherwise x - 1 = d 2^r with d odd and
      the bases are tried in order. */
  method IsPrime(x: int) returns (b: bool)
    ensures x < 2 ==> !b
    ensures x >= 2 ==> b == Scan(x, Decompose(x - 1).0, Decompose(x - 1).1, 0)
    ensures Prime(x) ==> b
    ensures x in PRIMES ==> b
  {
    if x < 2 {
      return false;
    }
    PrimePasses(x);
    var r := 0;
    var d := x - 1;
    while Rem(d, 2) == 0
      invariant d >= 1 && Decompose(x - 1) == (Decompose(d).0, Decompose(d).1 + r)
      decreases d
    {
      d := d / 2;
      r := r + 1;
    }
    assert Decompose(d) == (d, 0);
    for k := 0 to |PRIMES|
      invariant Scan(x, d, r, 0) == Scan(x, d, r, k)
    {
      if x == PRIMES[k] {
        return true;
      }
      var w := MillerRabin(x, PRIMES[k], d, r);
      if w {
        return false;
      }
    }
    return true;
  }

  /** n! */
  function Fact(n: nat): (f: nat)
    ensures f >= 1
  {
    if n == 0 then 1 else n * Fact(n - 1)
  }

  /** fact[i] as the constructor computes it: fact[0] = 1, then
      fact[i] = fact[i - 1] * i. */
  function FactRep(i: nat, m: int): int
    requires m > 0
  {
    if i == 0 then 1 else MulRep(FactRep(i - 1, m), i, m)
  }

  /** fact[i] is i! mod p (for i == 0 only when p > 1, as rep is 1). */
  lemma {:induction false} FactRepFact(i: nat, m: int)
    requires m > 0
    ensures i > 0 ==> FactRep(i, m) == Fact(i) % m
    ensures FactRep(i, m) >= 0
  {
    if i > 0 {
      FactRepFact(i - 1, m);
      if i - 1 == 0 {
        assert FactRep(i, m) == MulRep(1, 1, m);
      } else {
        MulMod(Fact(i - 1), i, m);
        assert Fact(i) == Fact(i - 1) * i;
      }
    }
  }

  /** inv() of a non-negative rep is a residue. */
  lemma InvRepRange(a: int, m: int)
    requires a >= 0 && m > 0
    ensures 0 <= InvRep(a, m) < m
  {
    if m - 2 < 0 {
      PowRepNegative(a, m - 2, m);
    } else {
      PowRepExp(a, m - 2, m);
      ExpNonNeg(a, m - 2);
    }
  }

  /** One step of the inv_fact recurrence against one of fact. */
  lemma StepResidue(g: int, f: int, j: int, m: int)
    requires g >= 0 && f >= 0 && j >= 1 && m > 0
    ensures (g * j) % m * f % m == g * ((f * j) % m) % m
  {
    MulModLeft(g * j, f, m);
    MulMod(g, f * j, m);
    assert (g * j) * f == g * (f * j);
  }

  /** Combinatorics(max_n) over ModInt<MOD>: fact[0..max_n] and
      inv_fact[0..max_n], as reps. */
  class Combinatorics {
    const modulus: int
    const maxN: nat
    var fact: seq<int>
    var invFact: seq<int>

    /** The tables as the constructor leaves them. */
    ghost predicate Valid()
      reads this
    {
      modulus > 0 && |fact| == maxN + 1 && |invFact| == maxN + 1 &&
      (forall i :: 0 <= i <= maxN ==> fact[i] == FactRep(i, modulus)) &&
      invFact[maxN] == InvRep(fact[maxN], modulus) &&
      forall i :: 0 <= i < maxN ==> invFact[i] == MulRep(invFact[i + 1], i + 1, modulus)
    }

    constructor (modulus: int, maxN: nat)
      requires modulus > 0
      ensures Valid() && this.modulus == modulus && this.maxN == maxN
    {
      this.modulus := modulus;
      this.maxN := maxN;
      var f := seq(maxN + 1, _ => 0);
      f := f[0 := 1];
      for i := 1 to maxN + 1
        invariant |f| == maxN + 1
        invariant forall k :: 0 <= k < i ==> f[k] == FactRep(k, modulus)
      {
        f := f[i := MulRep(f[i - 1], i, modulus)];
      }
      var g := seq(maxN + 1, _ => 0);
      g := g[maxN := InvRep(f[maxN], modulus)];
      var i := maxN - 1;
      while i >= 0
        invariant -1 <= i < maxN && |g| == maxN + 1
        invariant g[maxN] == InvRep(f[maxN], modulus)
        invariant forall k :: i < k < maxN ==> g[k] == MulRep(g[k + 1], k + 1, modulus)
      {
        g := g[i := MulRep(g[i + 1], i + 1, modulus)];
        i := i - 1;
      }
      fact := f;
      invFact := g;
    }

    /** factorial(n): fact[n]. */
    function Factorial(n: int): (r: int)
      reads this
      requires Valid() && 0 <= n <= maxN
      ensures n > 0 ==> r == Fact(n) % modulus
    {
      FactRepFact(n, modulus);
      fact[n]
    }

    /** perm(n, k): 0 when k > n, else fact[n] * inv_fact[n - k]. */
    function Perm(n: int, k: int): (r: int)
      reads this
      requires Valid() && (k > n || (0 <= n <= maxN && 0 <= n - k <= maxN))
      ensures k > n ==> r == 0
      ensures k <= n ==> r == MulRep(fact[n], invFact[n - k], modulus)
    {
      if k > n then 0 else MulRep(fact[n], invFact[n - k], modulus)
    }

    /** comb(n, k): 0 when k > n, else fact[n] * inv_fact[n - k] *
        inv_fact[k]. */
    function Comb(n: int, k: int): (r: int)
      reads this
      requires Valid() && (k > n || (0 <= n <= maxN && 0 <= n - k <= maxN && 0 <= k))
      ensures k > n ==> r == 0
      ensures k <= n ==> r == MulRep(MulRep(fact[n], invFact[n - k], modulus), invFact[k], modulus)
    {
      if k > n then 0 else MulRep(MulRep(fact[n], invFact[n - k], modulus), invFact[k], modulus)
    }
  }

  /** Each inv_fact[i] * fact[i] has the residue of
      inv_fact[max_n] * fact[max_n]: the table telescopes. */
  lemma {:induction false} InvFactTelescopes(c: Combinatorics, i: nat)
    requires c.Valid() && i <= c.maxN
    ensures c.invFact[i] >= 0
    ensures c.invFact[i] * c.fact[i] % c.modulus == c.invFact[c.maxN] * c.fact[c.maxN] % c.modulus
    decreases c.maxN - i
  {
    FactRepFact(i, c.modulus);
    if i == c.maxN {
      InvRepRange(c.fact[i], c.modulus);
    } else {
      InvFactTelescopes(c, i + 1);
      StepResidue(c.invFact[i + 1], c.fact[i], i + 1, c.modulus);
    }
  }

  /** A prime larger than n does not divide n!. */
  lemma {:induction false} FactCoprime(p: int, n: nat)
    requires Prime(p) && n < p
    ensures Fact(n) % p != 0
  {
    if n == 0 {
      ModUnique(1, p, 0, 1);
    } else {
      FactCoprime(p, n - 1);
      ModUnique(n, p, 0, n);
      if Fact(n) % p == 0 {
        Euclid(p, n, Fact(n - 1));
      }
    }
  }

  /** For a prime modulus larger than n, inv() of fact[n] is its inverse. */
  lemma LastInverse(m: int, n: nat)
    requires Prime(m) && n < m
    ensures InvRep(FactRep(n, m), m) * FactRep(n, m) % m == 1
  {
    var f := FactRep(n, m);
    FactRepFact(n, m);
    FactCoprime(m, n);
    if n > 0 {
      ModMod(Fact(n), m);
    } else {
      ModUnique(1, m, 0, 1);
    }
    InvIsInverse(f, m);
    InvRepRange(f, m);
    assert f * InvRep(f, m) == InvRep(f, m) * f;
  }

  /** For a prime modulus larger than max_n, inv_fact[i] is the inverse of
      fact[i]. */
  lemma InvFactInverse(c: Combinatorics, i: nat)
    requires c.Valid() && Prime(c.modulus) && c.maxN < c.modulus && i <= c.maxN
    ensures c.invFact[i] * c.fact[i] % c.modulus == 1
  {
    InvFactTelescopes(c, i);
    LastInverse(c.modulus, c.maxN);
  }
  /** n (n - 1) ... (n - k + 1): the number of ordered choices of k of n. */
  function Falling(n: nat, k: nat): nat
    requires k <= n
  {
    if k == 0 then 1 else n * Falling(n - 1, k - 1)
  }

  /** The falling factorial times (n - k)! is n!. */
  lemma {:induction false} FallingFact(n: nat, k: nat)
    requires k <= n
    ensures Falling(n, k) * Fact(n - k) == Fact(n)
    decreases k
  {
    if k > 0 {
      FallingFact(n - 1, k - 1);
      var a, b := Falling(n - 1, k - 1), Fact(n - k);
      assert Falling(n, k) == n * a;
      MulAssoc(n, a, b);
    }
  }

  /** C(n, k) k! (n - k)! is n!. */
  lemma {:induction false} BinomFact(n: nat, k: nat)
    requires k <= n
    ensures Binom(n, k) * Fact(k) * Fact(n - k) == Fact(n)
    decreases n
  {
    if k == n {
      BinomAll(n);
    } else if k > 0 {
      BinomFact(n - 1, k - 1);
      BinomFact(n - 1, k);
      BinomStep(n, k, Binom(n - 1, k - 1), Binom(n - 1, k), Fact(k - 1), Fact(n - 1 - k), Fact(n - 1));
    }
  }

  /** The algebra of one step of BinomFact, with a = C(n - 1, k - 1),
      b = C(n - 1, k), f = (k - 1)!, g = (n - 1 - k)! and h = (n - 1)!. */
  lemma BinomStep(n: int, k: int, a: int, b: int, f: int, g: int, h: int)
    requires a * f * ((n - k) * g) == h && b * (k * f) * g == h
    ensures (a + b) * (k * f) * ((n - k) * g) == n * h
  {
    assert (a + b) * (k * f) * ((n - k) * g)
        == k * (a * f * ((n - k) * g)) + (n - k) * (b * (k * f) * g);
  }

  /** fact[i] is congruent to i!, i == 0 included. */
  lemma FactRepCong(i: nat, m: int)
    requires m > 0
    ensures FactRep(i, m) >= 0 && FactRep(i, m) % m == Fact(i) % m
  {
    FactRepFact(i, m);
    if i > 0 {
      ModMod(Fact(i), m);
    }
  }

  /** x times the inverse residue a of something congruent to x is 1. */
  lemma InverseFactor(x: int, fx: int, a: int, m: int)
    requires m > 0 && fx % m == x % m && (a * fx) % m == 1
    ensures (x * a) % m == 1
  {
    MulModLeft(x, a, m);
    MulModLeft(fx, a, m);
    assert a * fx == fx * a;
  }

  /** Multiplying by a factor whose inverse residue is at hand cancels it. */
  lemma Cancel(c: int, x: int, fx: int, a: int, m: int)
    requires m > 0 && fx % m == x % m && (a * fx) % m == 1
    ensures (c * x * a) % m == c % m
  {
    InverseFactor(x, fx, a, m);
    MulMod(c, x * a, m);
    assert c * x * a == c * (x * a);
  }

  /** The residue algebra of perm: with f == x y (mod m) and a an inverse
      residue of y, f a mod m == x mod m. */
  lemma PermResidue(f: int, a: int, x: int, y: int, fy: int, m: int)
    requires m > 0 && f >= 0 && a >= 0 && f % m == (x * y) % m
    requires fy % m == y % m && (a * fy) % m == 1
    ensures MulRep(f, a, m) == x % m
  {
    NonNegProduct(f, a);
    MulModLeft(f, a, m);
    MulModLeft(x * y, a, m);
    Cancel(x, y, fy, a, m);
  }

  /** perm(n, k) is the number of ordered choices of k of n, modulo a prime
      MOD larger than max_n. */
  lemma PermIsFalling(c: Combinatorics, n: nat, k: nat)
    requires c.Valid() && Prime(c.modulus) && c.maxN < c.modulus && k <= n <= c.maxN
    ensures c.Perm(n, k) == Falling(n, k) % c.modulus
  {
    var m, j := c.modulus, n - k;
    FactRepCong(n, m);
    FactRepCong(j, m);
    InvFactTelescopes(c, j);
    InvFactInverse(c, j);
    FallingFact(n, k);
    PermResidue(c.fact[n], c.invFact[j], Falling(n, k), Fact(j), c.fact[j], m);
  }

  /** The residue algebra of comb: with f == C x y (mod m), and a and b
      inverse residues of y and x, (f a mod m) b mod m == C mod m. */
  lemma CombResidue(f: int, a: int, b: int, cb: int, x: int, y: int, fx: int, fy: int, m: int)
    requires m > 1 && f >= 0 && a >= 0 && b >= 0 && f % m == (cb * x * y) % m
    requires fx % m == x % m && fy % m == y % m && (b * fx) % m == 1 && (a * fy) % m == 1
    ensures MulRep(MulRep(f, a, m), b, m) == cb % m
  {
    MulModLeft(f * a, b, m);
    assert f * a * b == f * (a * b);
    var cx := cb * x;
    MulModLeft(f, a * b, m);
    MulModLeft(cx * y, a * b, m);
    assert cx * y * (a * b) == (cx * b) * y * a;
    Cancel(cx * b, y, fy, a, m);
    assert cx * b == cb * x * b;
    Cancel(cb, x, fx, b, m);
  }

  /** comb(n, k) is the binomial coefficient C(n, k), modulo a prime MOD
      larger than max_n. */
  lemma CombIsBinom(c: Combinatorics, n: nat, k: nat)
    requires c.Valid() && Prime(c.modulus) && c.maxN < c.modulus && k <= n <= c.maxN
    ensures c.Comb(n, k) == Binom(n, k) % c.modulus
  {
    var m, j := c.modulus, n - k;
    FactRepCong(n, m);
    FactRepCong(k, m);
    FactRepCong(j, m);
    InvFactTelescopes(c, j);
    InvFactTelescopes(c, k);
    InvFactInverse(c, j);
    InvFactInverse(c, k);
    BinomFact(n, k);
    CombResidue(c.fact[n], c.invFact[j], c.invFact[k], Binom(n, k), Fact(k), Fact(j), c.fact[k], c.fact[j], m);
  }
}
