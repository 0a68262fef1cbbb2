/** `ModInt<T, U, MOD>` of modint.hpp: an integer `rep` reduced with C++'s
    `%`, which truncates towards zero (a negative dividend gives a negative
    remainder). The constructor stores its value unreduced, so operands
    are in 0..MOD-1 only when the caller keeps them there. */
module ModInts {

  /** C++ `a % m` for m > 0: the remainder takes the sign of `a`. */
  function Rem(a: int, m: int): (r: int)
    requires m > 0
    ensures a >= 0 ==> r == a % m
    ensures a < 0 ==> r == -((-a) % m)
    ensures -m < r < m
  {
    if a >= 0 then a % m else -((-a) % m)
  }

  /** C++ `e / 2`, truncating towards zero. */
  function Half(e: int): (h: int)
    ensures e >= 0 ==> h == e / 2
    ensures e < 0 ==> h == -((-e) / 2)
  {
    if e >= 0 then e / 2 else -((-e) / 2)
  }

  /** b to the power e. */
  function Exp(b: int, e: nat): int {
    if e == 0 then 1 else b * Exp(b, e - 1)
  }

  /** rep after `+=`: for operands in 0..MOD-1, (a + b) mod MOD. */
  function AddRep(a: int, b: int, m: int): (r: int)
    requires m > 0
    ensures a + b >= 0 ==> r == (a + b) % m
  {
    Rem(a + b, m)
  }

  /** rep after `*=`: for operands of equal sign, (a * b) mod MOD. */
  function MulRep(a: int, b: int, m: int): (r: int)
    requires m > 0
    ensures a * b >= 0 ==> r == (a * b) % m
  {
    Rem(a * b, m)
  }

  /** rep after `-=`: ((a - b) % MOD + MOD) % MOD, which is never negative
      and is (a - b) mod MOD for any operands. */
  function SubRep(a: int, b: int, m: int): (r: int)
    requires m > 0
    ensures r == (a - b) % m
  {
    RemShift(a - b, m);
    var q := TQuot(a - b, m);
    ModShift(a - b, 1 - q, m);
    assert Rem(a - b, m) + m == a - b + m * (1 - q);
    Rem(Rem(a - b, m) + m, m)
  }

  /** pow(exp): exp == 0 gives rep 1; an odd exp multiplies by pow(exp - 1);
      any other exp squares pow(exp / 2). A negative exp is never odd in
      C++ (its remainder is -1), so it ends in 1 % MOD. */
  function PowRep(a: int, e: int, m: int): int
    requires m > 0
    decreases if e >= 0 then e else -e
  {
    if e == 0 then 1
    else if Rem(e, 2) == 1 then MulRep(a, PowRep(a, e - 1, m), m)
    else
      var t := PowRep(a, Half(e), m);
      MulRep(t, t, m)
  }

  /** inv(): pow(MOD - 2). */
  function InvRep(a: int, m: int): int
    requires m > 0
  {
    PowRep(a, m - 2, m)
  }

  /** rep after `/=`: multiplication by the inverse. */
  function DivRep(a: int, b: int, m: int): int
    requires m > 0
  {
    MulRep(a, InvRep(b, m), m)
  }

  lemma {:induction false} ExpAdd(b: int, x: nat, y: nat)
    ensures Exp(b, x + y) == Exp(b, x) * Exp(b, y)
    decreases x
  {
    if x > 0 {
      ExpAdd(b, x - 1, y);
    }
  }

  lemma {:induction false} ExpNonNeg(b: int, e: nat)
    requires b >= 0
    ensures Exp(b, e) >= 0
  {
    if e > 0 {
      ExpNonNeg(b, e - 1);
    }
  }

  lemma MulPos(m: int, k: int)
    requires m > 0 && k >= 1
    ensures m * k >= m
  {
    assert m * k == m + m * (k - 1);
  }

  /** The quotient and remainder of a division are unique. */
  lemma ModUnique(a: int, m: int, q: int, r: int)
    requires m > 0 && 0 <= r < m && a == m * q + r
    ensures a % m == r && a / m == q
  {
    var q', r' := a / m, a % m;
    assert m * (q - q') == r' - r;
    if q - q' >= 1 {
      MulPos(m, q - q');
    } else if q' - q >= 1 {
      MulPos(m, q' - q);
    }
  }

  /** Adding a multiple of the modulus does not change the residue. */
  lemma ModShift(x: int, j: int, m: int)
    requires m > 0
    ensures (x + m * j) % m == x % m
  {
    var q, r := x / m, x % m;
    assert x + m * j == m * (q + j) + r;
    ModUnique(x + m * j, m, q + j, r);
  }

  /** C++'s remainder differs from the dividend by a multiple of m. */
  lemma RemShift(a: int, m: int)
    requires m > 0
    ensures Rem(a, m) == a - m * TQuot(a, m)
  {
    if a < 0 {
      assert -a == m * ((-a) / m) + (-a) % m;
    }
  }

  /** C++ `a / m` for m > 0, truncating towards zero. */
  function TQuot(a: int, m: int): int
    requires m > 0
  {
    if a >= 0 then a / m else -((-a) / m)
  }

  /** Reducing a factor first does not change a product's residue. */
  lemma MulMod(x: int, y: int, m: int)
    requires m > 0
    ensures (x % m) * y % m == x * y % m
    ensures x * (y % m) % m == x * y % m
  {
    MulModLeft(x, y, m);
    MulModLeft(y, x, m);
    assert x * (y % m) == (y % m) * x && x * y == y * x;
  }

  lemma MulModLeft(x: int, y: int, m: int)
    requires m > 0
    ensures (x % m) * y % m == x * y % m
  {
    var q, r := x / m, x % m;
    assert x == m * q + r;
    Expand(m, q, r, y);
    ModShift(r * y, q * y, m);
  }

  lemma Expand(m: int, q: int, r: int, y: int)
    ensures (m * q + r) * y == r * y + m * (q * y)
  {
  }

  /** Reducing both factors first does not change a product's residue. */
  lemma MulModBoth(x: int, y: int, m: int)
    requires m > 0
    ensures (x % m) * (y % m) % m == x * y % m
  {
    MulMod(x, y % m, m);
    MulMod(x, y, m);
  }

  /** Reducing the summands first does not change a sum's residue. */
  lemma AddMod(x: int, y: int, m: int)
    requires m > 0
    ensures (x % m + y % m) % m == (x + y) % m
  {
    var qx, qy := x / m, y / m;
    assert x % m + y % m == (x + y) + m * (-(qx + qy));
    ModShift(x + y, -(qx + qy), m);
  }

  /** A residue is its own residue. */
  lemma ModMod(x: int, m: int)
    requires m > 0
    ensures (x % m) % m == x % m
  {
    ModUnique(x % m, m, 0, x % m);
  }

  /** Products of congruent factors are congruent. */
  lemma MulCong(x: int, x': int, y: int, y': int, m: int)
    requires m > 0 && x % m == x' % m && y % m == y' % m
    ensures x * y % m == x' * y' % m
  {
    MulModBoth(x, y, m);
    MulModBoth(x', y', m);
  }

  /** pow(e) is rep^e mod MOD for a non-negative rep and e > 0, and 1 for
      e == 0. */
  lemma {:induction false} PowRepExp(a: int, e: nat, m: int)
    requires m > 0 && a >= 0
    ensures PowRep(a, e, m) == if e == 0 then 1 else Exp(a, e) % m
    decreases e
  {
    if e > 0 {
      if e % 2 == 1 {
        PowOdd(a, e, m);
      } else {
        PowEven(a, e, m);
      }
    }
  }

  lemma {:induction false} PowOdd(a: int, e: nat, m: int)
    requires m > 0 && a >= 0 && e % 2 == 1
    ensures PowRep(a, e, m) == Exp(a, e) % m
    decreases e, 0
  {
    var p := PowRep(a, e - 1, m);
    assert PowRep(a, e, m) == MulRep(a, p, m);
    PowRepExp(a, e - 1, m);
    ExpNonNeg(a, e - 1);
    var x := Exp(a, e - 1);
    assert Exp(a, e) == a * x;
    if e - 1 > 0 {
      assert p == x % m;
      MulMod(a, x, m);
    }
  }

  lemma {:induction false} PowEven(a: int, e: nat, m: int)
    requires m > 0 && a >= 0 && e > 0 && e % 2 == 0
    ensures PowRep(a, e, m) == Exp(a, e) % m
    decreases e, 0
  {
    var h := e / 2;
    var t := PowRep(a, h, m);
    assert Half(e) == h && Rem(e, 2) == 0;
    assert PowRep(a, e, m) == MulRep(t, t, m);
    PowRepExp(a, h, m);
    ExpAdd(a, h, h);
    ExpNonNeg(a, h);
    var x := Exp(a, h);
    assert t == x % m;
    MulModBoth(x, x, m);
  }

  /** A negative exponent gives 1 % MOD. */
  lemma {:induction false} PowRepNegative(a: int, e: int, m: int)
    requires m > 0 && e < 0
    ensures PowRep(a, e, m) == 1 % m
    decreases -e
  {
    assert Rem(e, 2) != 1;
    if Half(e) < 0 {
      PowRepNegative(a, Half(e), m);
    }
    var t := PowRep(a, Half(e), m);
    assert t == 1 || t == 1 % m;
    if m == 1 {
      assert 1 % m == 0;
    } else {
      assert 1 % m == 1;
    }
    assert t * t == t;
  }

  /** An integer modulo MOD; `modulus` stands for the template parameter
      MOD. */
  class ModInt {
    var rep: int
    const modulus: int

    ghost predicate Reduced()
      reads this
    {
      0 <= rep < modulus
    }

    /** ModInt(): rep 0. */
    constructor Zero(modulus: int)
      requires modulus > 0
      ensures this.modulus == modulus && rep == 0 && Reduced()
    {
      this.modulus := modulus;
      rep := 0;
    }

    /** ModInt(value): rep is the value as given, not reduced. */
    constructor (modulus: int, value: int)
      requires modulus > 0
      ensures this.modulus == modulus && rep == value
    {
      this.modulus := modulus;
      rep := value;
    }

    /** `+=`; other may be this object. */
    method AddAssign(other: ModInt)
      requires modulus > 0 && other.modulus == modulus
      modifies this
      ensures rep == AddRep(old(rep), old(other.rep), modulus)
      ensures old(Reduced()) && old(other.Reduced()) ==> Reduced()
    {
      rep := Rem(rep + other.rep, modulus);
    }

    /** `*=`, with the product formed in the wider type U. */
    method MulAssign(other: ModInt)
      requires modulus > 0 && other.modulus == modulus
      modifies this
      ensures rep == MulRep(old(rep), old(other.rep), modulus)
      ensures old(Reduced()) && old(other.Reduced()) ==> Reduced()
    {
      rep := Rem(rep * other.rep, modulus);
    }

    /** `-=`: the result is reduced whatever the operands. */
    method SubAssign(other: ModInt)
      requires modulus > 0 && other.modulus == modulus
      modifies this
      ensures rep == SubRep(old(rep), old(other.rep), modulus) && Reduced()
    {
      rep := Rem(Rem(rep - other.rep, modulus) + modulus, modulus);
    }

    /** `/=`: `*=` by other.inv(). */
    method DivAssign(other: ModInt)
      requires modulus > 0 && other.modulus == modulus
      modifies this
      ensures rep == DivRep(old(rep), old(other.rep), modulus)
    {
      var i := other.Inv();
      MulAssign(i);
    }

    /** The binary operators work on a copy and change neither operand. */
    method Plus(other: ModInt) returns (r: ModInt)
      requires modulus > 0 && other.modulus == modulus
      ensures fresh(r) && r.modulus == modulus && r.rep == AddRep(rep, other.rep, modulus)
    {
      r := new ModInt(modulus, rep);
      r.AddAssign(other);
    }

    method Minus(other: ModInt) returns (r: ModInt)
      requires modulus > 0 && other.modulus == modulus
      ensures fresh(r) && r.modulus == modulus && r.rep == SubRep(rep, other.rep, modulus)
    {
      r := new ModInt(modulus, rep);
      r.SubAssign(other);
    }

    method Times(other: ModInt) returns (r: ModInt)
      requires modulus > 0 && other.modulus == modulus
      ensures fresh(r) && r.modulus == modulus && r.rep == MulRep(rep, other.rep, modulus)
    {
      r := new ModInt(modulus, rep);
      r.MulAssign(other);
    }

    method Over(other: ModInt) returns (r: ModInt)
      requires modulus > 0 && other.modulus == modulus
      ensures fresh(r) && r.modulus == modulus && r.rep == DivRep(rep, other.rep, modulus)
    {
      r := new ModInt(modulus, rep);
      r.DivAssign(other);
    }

    /** pow(exp) as a new value. */
    method Pow(exp: int) returns (r: ModInt)
      requires modulus > 0
      ensures fresh(r) && r.modulus == modulus && r.rep == PowRep(rep, exp, modulus)
    {
      r := new ModInt(modulus, PowRep(rep, exp, modulus));
    }

    /** inv(): pow(MOD - 2). */
    method Inv() returns (r: ModInt)
      requires modulus > 0
      ensures fresh(r) && r.modulus == modulus && r.rep == InvRep(rep, modulus)
    {
      r := Pow(modulus - 2);
    }

    /** `==` compares rep only. */
    predicate Equals(other: ModInt)
      reads this, other
    {
      rep == other.rep
    }

    /** `<=>` orders by rep: negative, zero or positive. */
    function Compare(other: ModInt): (c: int)
      reads this, other
      ensures c < 0 <==> rep < other.rep
      ensures c == 0 <==> Equals(other)
      ensures c > 0 <==> other.rep < rep
    {
      if rep < other.rep then -1 else if rep == other.rep then 0 else 1
    }
  }
}
