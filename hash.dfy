/** `RollingHash` of hash.hpp: a polynomial string hash kept in several
    components at once, component i with its own multiplier mul_i, all
    modulo the same MOD. The hash of s is
      h_i(s) = s[0] * mul_i^(|s|-1) + s[1] * mul_i^(|s|-2) + ... + s[|s|-1]  (mod MOD),
    so appending and stripping a prefix are a multiplication by a power of
    mul_i and an addition or subtraction. Characters are their codes. */
module RollingHashes {
  import opened ModInts

  /** MulPow(n) as `precompute_mul_pows` tabulates it: 1 at 0, mul^n mod
      MOD after. */
  function MulPow(mul: int, n: nat, m: int): (r: int)
    requires m > 0
    ensures r % m == Exp(mul, n) % m
    ensures mul >= 0 ==> r >= 0
  {
    if n == 0 then 1 else (ExpNonNegAny(mul, n); Exp(mul, n) % m)
  }

  lemma ExpNonNegAny(mul: int, n: nat)
    ensures mul >= 0 ==> Exp(mul, n) >= 0
  {
    if mul >= 0 {
      ExpNonNeg(mul, n);
    }
  }

  /** precompute_mul_pows(mul): prec_pow[0] = 1 and each next entry is the
      previous one times mul. */
  method PrecomputeMulPows(mul: int, maxLen: nat, m: int) returns (prec: array<int>)
    requires m > 0 && 0 <= mul
    ensures fresh(prec) && prec.Length == maxLen + 1
    ensures forall i :: 0 <= i <= maxLen ==> prec[i] == MulPow(mul, i, m)
  {
    prec := new int[maxLen + 1];
    prec[0] := 1;
    for i := 1 to maxLen + 1
      invariant forall k :: 0 <= k < i ==> prec[k] == MulPow(mul, k, m)
    {
      PowStep(mul, i, m);
      prec[i] := MulRep(prec[i - 1], mul, m);
    }
  }

  /** One step of the table: the previous entry times mul is the next
      power. */
  lemma PowStep(mul: int, i: nat, m: int)
    requires m > 0 && 0 <= mul && i >= 1
    ensures MulRep(MulPow(mul, i - 1, m), mul, m) == MulPow(mul, i, m)
  {
    var p := MulPow(mul, i - 1, m);
    assert p * mul >= 0;
    assert Exp(mul, i) == mul * Exp(mul, i - 1);
    MulCong(p, Exp(mul, i - 1), mul, mul, m);
    assert p * mul % m == Exp(mul, i - 1) * mul % m;
  }

  /** A character's value in the hash. */
  function Code(c: char): int {
    c as int
  }

  /** The polynomial of s for one multiplier, unreduced. */
  function Poly(s: string, mul: int): int
  {
    if |s| == 0 then 0 else Poly(s[..|s| - 1], mul) * mul + Code(s[|s| - 1])
  }

  lemma {:induction false} PolyNonNeg(s: string, mul: int)
    requires mul >= 0
    ensures Poly(s, mul) >= 0
  {
    if |s| > 0 {
      PolyNonNeg(s[..|s| - 1], mul);
      var p := Poly(s[..|s| - 1], mul);
      assert p * mul >= 0;
    }
  }

  /** The polynomial of a concatenation: the first part shifted by the
      length of the second. */
  lemma {:induction false} PolyConcat(x: string, y: string, mul: int)
    ensures Poly(x + y, mul) == Poly(x, mul) * Exp(mul, |y|) + Poly(y, mul)
    decreases |y|
  {
    if |y| == 0 {
      assert x + y == x;
    } else {
      var y' := y[..|y| - 1];
      var c := y[|y| - 1];
      assert (x + y)[..|x + y| - 1] == x + y';
      PolyConcat(x, y', mul);
      Horner(Poly(x, mul), Poly(y', mul), Exp(mul, |y'|), mul, Code(c));
    }
  }

  lemma Horner(px: int, py: int, e: int, mul: int, c: int)
    ensures (px * e + py) * mul + c == px * (mul * e) + (py * mul + c)
  {
  }

  /** A hash value: the length and one residue per multiplier. */
  datatype Digest = Digest(len: int, h: seq<int>)

  /** The hash of a string: its length and each polynomial mod MOD. */
  function OfString(s: string, muls: seq<int>, m: int): (d: Digest)
    requires m > 0
    ensures d.len == |s| && |d.h| == |muls|
  {
    Digest(|s|, seq(|muls|, i requires 0 <= i < |muls| => Poly(s, muls[i]) % m))
  }

  /** `a += b`: each component becomes a_i * MulPow_i(|b|) + b_i and the
      lengths add up. */
  function Add(a: Digest, b: Digest, muls: seq<int>, m: int): (r: Digest)
    requires m > 0 && b.len >= 0 && |a.h| == |muls| && |b.h| == |muls|
    ensures r.len == a.len + b.len && |r.h| == |muls|
  {
    Digest(a.len + b.len,
      seq(|muls|, i requires 0 <= i < |muls| =>
        AddRep(MulRep(a.h[i], MulPow(muls[i], b.len, m), m), b.h[i], m)))
  }

  /** `a -= b`: each component loses b_i * MulPow_i(|a| - |b|) and the
      length drops by |b|. */
  function Sub(a: Digest, b: Digest, muls: seq<int>, m: int): (r: Digest)
    requires m > 0 && a.len >= b.len && |a.h| == |muls| && |b.h| == |muls|
    ensures r.len == a.len - b.len && |r.h| == |muls|
  {
    Digest(a.len - b.len,
      seq(|muls|, i requires 0 <= i < |muls| =>
        SubRep(a.h[i], MulRep(b.h[i], MulPow(muls[i], a.len - b.len, m), m), m)))
  }

  /** Every component is a residue. */
  ghost predicate Reduced(d: Digest, m: int) {
    d.len >= 0 && forall i :: 0 <= i < |d.h| ==> 0 <= d.h[i] < m
  }

  /** The digest of the empty string: length 0, zeros. */
  function Empty(k: nat): (d: Digest)
    ensures d.len == 0 && |d.h| == k
  {
    Digest(0, seq(k, _ => 0))
  }

  /** Adding the hash of y to the hash of x gives the hash of x + y. */
  lemma AddOfString(x: string, y: string, muls: seq<int>, m: int)
    requires m > 0 && forall i :: 0 <= i < |muls| ==> muls[i] >= 0
    ensures Add(OfString(x, muls, m), OfString(y, muls, m), muls, m) == OfString(x + y, muls, m)
  {
    var a, b := OfString(x, muls, m), OfString(y, muls, m);
    var r := Add(a, b, muls, m);
    forall i | 0 <= i < |muls|
      ensures r.h[i] == Poly(x + y, muls[i]) % m
    {
      ComponentAdd(x, y, muls[i], m);
    }
  }

  lemma ComponentAdd(x: string, y: string, mul: int, m: int)
    requires m > 0 && mul >= 0
    ensures AddRep(MulRep(Poly(x, mul) % m, MulPow(mul, |y|, m), m), Poly(y, mul) % m, m)
         == Poly(x + y, mul) % m
  {
    var px, py, e := Poly(x, mul), Poly(y, mul), Exp(mul, |y|);
    var p := MulPow(mul, |y|, m);
    PolyNonNeg(x, mul);
    PolyNonNeg(y, mul);
    ExpNonNeg(mul, |y|);
    assert (px % m) * p >= 0;
    ModMod(px, m);
    MulCong(px % m, px, p, e, m);
    var t := (px % m) * p % m;
    assert t == px * e % m;
    AddMod(px * e, py, m);
    PolyConcat(x, y, mul);
  }

  /** Stripping the hash of x from the hash of x + y gives the hash of y. */
  lemma SubOfString(x: string, y: string, muls: seq<int>, m: int)
    requires m > 0 && forall i :: 0 <= i < |muls| ==> muls[i] >= 0
    ensures Sub(OfString(x + y, muls, m), OfString(x, muls, m), muls, m) == OfString(y, muls, m)
  {
    var a, b := OfString(x + y, muls, m), OfString(x, muls, m);
    var r := Sub(a, b, muls, m);
    assert a.len - b.len == |y|;
    forall i | 0 <= i < |muls|
      ensures r.h[i] == Poly(y, muls[i]) % m
    {
      ComponentSub(x, y, muls[i], m);
    }
  }

  lemma ComponentSub(x: string, y: string, mul: int, m: int)
    requires m > 0 && mul >= 0
    ensures SubRep(Poly(x + y, mul) % m, MulRep(Poly(x, mul) % m, MulPow(mul, |y|, m), m), m)
         == Poly(y, mul) % m
  {
    var px, py, e := Poly(x, mul), Poly(y, mul), Exp(mul, |y|);
    var p := MulPow(mul, |y|, m);
    PolyNonNeg(x, mul);
    ExpNonNeg(mul, |y|);
    assert (px % m) * p >= 0;
    ModMod(px, m);
    MulCong(px % m, px, p, e, m);
    var t := (px % m) * p % m;
    assert t == px * e % m;
    PolyConcat(x, y, mul);
    SubMod(px * e + py, px * e, m);
  }

  /** Reducing both operands first does not change a difference's residue. */
  lemma SubMod(x: int, y: int, m: int)
    requires m > 0
    ensures (x % m - y % m) % m == (x - y) % m
  {
    var qx, qy := x / m, y / m;
    assert x % m - y % m == (x - y) + m * (qy - qx);
    ModShift(x - y, qy - qx, m);
  }

  /** `a * p + b` reduced in two steps, as `+=` forms a component. */
  lemma Lin(a: int, p: int, b: int, m: int)
    requires m > 0
    ensures (a * p % m + b) % m == (a * p + b) % m
  {
    ModMod(b, m);
    AddMod(a * p % m, b, m);
    ModMod(a * p, m);
    AddMod(a * p, b, m);
  }

  /** The digest of a single character: length 1, the code in every
      component. */
  function OfChar(c: char, k: nat): (d: Digest)
    ensures d.len == 1 && |d.h| == k
  {
    Digest(1, seq(k, _ => Code(c)))
  }

  /** Appending one character's digest extends the string by it. */
  lemma AddChar(x: string, c: char, muls: seq<int>, m: int)
    requires m > 0 && forall i :: 0 <= i < |muls| ==> muls[i] >= 0
    ensures Add(OfString(x, muls, m), OfChar(c, |muls|), muls, m) == OfString(x + [c], muls, m)
  {
    var a := OfString(x, muls, m);
    var r := Add(a, OfChar(c, |muls|), muls, m);
    assert (x + [c])[..|x + [c]| - 1] == x;
    forall i | 0 <= i < |muls|
      ensures r.h[i] == Poly(x + [c], muls[i]) % m
    {
      var mul := muls[i];
      PolyNonNeg(x, mul);
      assert Exp(mul, 1) == mul;
      assert MulPow(mul, 1, m) == mul % m;
      assert Poly(x + [c], mul) == Poly(x, mul) * mul + Code(c);
      CharComponent(Poly(x, mul), mul, Code(c), m);
    }
  }

  lemma CharComponent(px: int, mul: int, c: int, m: int)
    requires m > 0 && px >= 0 && mul >= 0 && c >= 0
    ensures AddRep(MulRep(px % m, mul % m, m), c, m) == (px * mul + c) % m
  {
    assert (px % m) * (mul % m) >= 0;
    MulModBoth(px, mul, m);
    Lin(px, mul, c, m);
  }

  /** The empty digest is a left identity of `+` on reduced digests ... */
  lemma AddLeftIdentity(b: Digest, muls: seq<int>, m: int)
    requires m > 0 && Reduced(b, m) && |b.h| == |muls|
    ensures Add(Empty(|muls|), b, muls, m) == b
  {
    var r := Add(Empty(|muls|), b, muls, m);
    forall i | 0 <= i < |muls|
      ensures r.h[i] == b.h[i]
    {
      LeftIdentityComponent(MulPow(muls[i], b.len, m), b.h[i], m);
    }
  }

  lemma LeftIdentityComponent(p: int, x: int, m: int)
    requires 0 <= x < m
    ensures AddRep(MulRep(0, p, m), x, m) == x
  {
    assert 0 * p == 0;
    ModUnique(0, m, 0, 0);
    ModUnique(x, m, 0, x);
  }

  /** ... and a right identity. */
  lemma AddRightIdentity(a: Digest, muls: seq<int>, m: int)
    requires m > 0 && Reduced(a, m) && |a.h| == |muls|
    ensures Add(a, Empty(|muls|), muls, m) == a
  {
    var r := Add(a, Empty(|muls|), muls, m);
    forall i | 0 <= i < |muls|
      ensures r.h[i] == a.h[i]
    {
      RightIdentityComponent(a.h[i], m);
    }
  }

  lemma RightIdentityComponent(x: int, m: int)
    requires 0 <= x < m
    ensures AddRep(MulRep(x, 1, m), 0, m) == x
  {
    ModUnique(x, m, 0, x);
    assert x * 1 == x;
  }

  /** `+` is associative on digests with non-negative components. */
  lemma AddAssoc(a: Digest, b: Digest, c: Digest, muls: seq<int>, m: int)
    requires m > 0 && Reduced(a, m) && Reduced(b, m) && Reduced(c, m)
    requires |a.h| == |muls| && |b.h| == |muls| && |c.h| == |muls|
    requires forall i :: 0 <= i < |muls| ==> muls[i] >= 0
    ensures Add(Add(a, b, muls, m), c, muls, m) == Add(a, Add(b, c, muls, m), muls, m)
  {
    var l := Add(Add(a, b, muls, m), c, muls, m);
    var r := Add(a, Add(b, c, muls, m), muls, m);
    forall i | 0 <= i < |muls|
      ensures l.h[i] == r.h[i]
    {
      var mul := muls[i];
      var pb, pc, pbc := MulPow(mul, b.len, m), MulPow(mul, c.len, m), MulPow(mul, b.len + c.len, m);
      ExpAdd(mul, b.len, c.len);
      ExpNonNeg(mul, b.len);
      ExpNonNeg(mul, c.len);
      MulCong(pb, Exp(mul, b.len), pc, Exp(mul, c.len), m);
      AssocComponent(a.h[i], b.h[i], c.h[i], pb, pc, pbc, m);
    }
  }

  lemma AssocComponent(x: int, y: int, z: int, pb: int, pc: int, pbc: int, m: int)
    requires m > 0 && x >= 0 && y >= 0 && z >= 0 && pb >= 0 && pc >= 0 && pbc >= 0
    requires pbc % m == pb * pc % m
    ensures AddRep(MulRep(AddRep(MulRep(x, pb, m), y, m), pc, m), z, m)
         == AddRep(MulRep(x, pbc, m), AddRep(MulRep(y, pc, m), z, m), m)
  {
    var u := x * pb + y;
    assert x * pb >= 0 && y * pc >= 0 && x * pbc >= 0;
    Lin(x, pb, y, m);
    assert AddRep(MulRep(x, pb, m), y, m) == u % m;
    assert (u % m) * pc >= 0;
    MulModLeft(u, pc, m);
    Lin(u, pc, z, m);
    ModMod(u * pc, m);
    AddMod(u * pc % m, z, m);
    AddMod(u * pc, z, m);
    var v := y * pc + z;
    Lin(y, pc, z, m);
    MulCong(x, x, pbc, pb * pc, m);
    ModMod(x * pbc, m);
    ModMod(v, m);
    AddMod(x * pbc, v, m);
    AddMod(x * (pb * pc), v, m);
    ModMod(x * (pb * pc), m);
    assert u * pc + z == x * (pb * pc) + v;
  }

  /** `(a + b) - a == b`: stripping the prefix just appended. */
  lemma AddThenSub(a: Digest, b: Digest, muls: seq<int>, m: int)
    requires m > 0 && Reduced(a, m) && Reduced(b, m) && |a.h| == |muls| && |b.h| == |muls|
    ensures Sub(Add(a, b, muls, m), a, muls, m) == b
  {
    var r := Sub(Add(a, b, muls, m), a, muls, m);
    forall i | 0 <= i < |muls|
      ensures r.h[i] == b.h[i]
    {
      AddSubComponent(a.h[i], b.h[i], MulPow(muls[i], b.len, m), m);
    }
  }

  lemma AddSubComponent(x: int, y: int, p: int, m: int)
    requires m > 0 && 0 <= x && 0 <= y < m && 0 <= p
    ensures SubRep(AddRep(MulRep(x, p, m), y, m), MulRep(x, p, m), m) == y
  {
    assert x * p >= 0;
    var t := MulRep(x, p, m);
    assert 0 <= t < m;
    var u := AddRep(t, y, m);
    assert u == (t + y) % m;
    SubMod(t + y, t, m);
    ModUnique(t, m, 0, t);
    ModUnique(y, m, 0, y);
    assert SubRep(u, t, m) == (u - t) % m;
  }

  /** `b + (a - b) == a`: putting back the prefix that was stripped. */
  lemma SubThenAdd(a: Digest, b: Digest, muls: seq<int>, m: int)
    requires m > 0 && Reduced(a, m) && Reduced(b, m) && |a.h| == |muls| && |b.h| == |muls|
    requires a.len >= b.len
    ensures Add(b, Sub(a, b, muls, m), muls, m) == a
  {
    var r := Add(b, Sub(a, b, muls, m), muls, m);
    forall i | 0 <= i < |muls|
      ensures r.h[i] == a.h[i]
    {
      SubAddComponent(a.h[i], b.h[i], MulPow(muls[i], a.len - b.len, m), m);
    }
  }

  lemma SubAddComponent(x: int, y: int, p: int, m: int)
    requires m > 0 && 0 <= x < m && 0 <= y && 0 <= p
    ensures AddRep(MulRep(y, p, m), SubRep(x, MulRep(y, p, m), m), m) == x
  {
    assert y * p >= 0;
    var t := MulRep(y, p, m);
    assert 0 <= t < m;
    var d := SubRep(x, t, m);
    assert d == (x - t) % m && d >= 0;
    ModMod(x - t, m);
    AddMod(t, x - t, m);
    ModUnique(t, m, 0, t);
    ModUnique(x, m, 0, x);
    assert AddRep(t, d, m) == (t + d) % m;
  }

  /** The lexicographic comparison of equally long component arrays:
      negative, zero or positive. */
  function Lex(a: seq<int>, b: seq<int>): (c: int)
    requires |a| == |b|
    ensures c == 0 <==> a == b
    ensures -1 <= c <= 1
  {
    if |a| == 0 then 0
    else if a[0] < b[0] then -1
    else if a[0] > b[0] then 1
    else
      var c := Lex(a[1..], b[1..]);
      assert a == [a[0]] + a[1..] && b == [b[0]] + b[1..];
      c
  }

  /** Swapping the operands of a comparison flips its sign. */
  lemma {:induction false} LexAntisymmetric(a: seq<int>, b: seq<int>)
    requires |a| == |b|
    ensures Lex(a, b) == -Lex(b, a)
  {
    if |a| > 0 && a[0] == b[0] {
      LexAntisymmetric(a[1..], b[1..]);
    }
  }

  /** The `RollingHash` object: `len` and the `hash` components change in
      place; `muls` and `modulus` stand for the template parameters. */
  class RollingHash {
    var len: int
    var hash: seq<int>
    const muls: seq<int>
    const modulus: int

    ghost predicate Valid()
      reads this
    {
      modulus > 0 && |hash| == |muls| && len >= 0 &&
      forall i :: 0 <= i < |muls| ==> muls[i] >= 0
    }

    function Value(): Digest
      reads this
    {
      Digest(len, hash)
    }

    /** RollingHash(): len 0 and all components 0. */
    constructor (muls: seq<int>, modulus: int)
      requires modulus > 0 && forall i :: 0 <= i < |muls| ==> muls[i] >= 0
      ensures Valid() && this.muls == muls && this.modulus == modulus
      ensures Value() == Empty(|muls|) && Value() == OfString([], muls, modulus)
    {
      this.muls := muls;
      this.modulus := modulus;
      len := 0;
      hash := seq(|muls|, _ => 0);
    }

    /** RollingHash(c): len 1 and every component the character. */
    constructor FromChar(muls: seq<int>, modulus: int, c: char)
      requires modulus > 0 && forall i :: 0 <= i < |muls| ==> muls[i] >= 0
      ensures Valid() && this.muls == muls && this.modulus == modulus
      ensures Value() == OfChar(c, |muls|)
    {
      this.muls := muls;
      this.modulus := modulus;
      len := 1;
      hash := seq(|muls|, _ => Code(c));
    }

    /** RollingHash(s): `+=` of each character in turn, giving the hash of s. */
    constructor FromString(muls: seq<int>, modulus: int, s: string)
      requires modulus > 0 && forall i :: 0 <= i < |muls| ==> muls[i] >= 0
      ensures Valid() && this.muls == muls && this.modulus == modulus
      ensures Value() == OfString(s, muls, modulus)
    {
      this.muls := muls;
      this.modulus := modulus;
      len := 0;
      hash := seq(|muls|, _ => 0);
      new;
      assert OfString(s[..0], muls, modulus).h == hash;
      for k := 0 to |s|
        invariant Valid() && this.muls == muls && this.modulus == modulus
        invariant Value() == OfString(s[..k], muls, modulus)
      {
        var ch := new RollingHash.FromChar(muls, modulus, s[k]);
        AddChar(s[..k], s[k], muls, modulus);
        assert s[..k] + [s[k]] == s[..k + 1];
        AddAssign(ch);
      }
      assert s[..|s|] == s;
    }

    /** A copy of other. */
    constructor Copy(other: RollingHash)
      ensures muls == other.muls && modulus == other.modulus && Value() == other.Value()
      ensures other.Valid() ==> Valid()
    {
      muls := other.muls;
      modulus := other.modulus;
      len := other.len;
      hash := other.hash;
    }

    /** `+=`: append other; other may be this object. */
    method AddAssign(other: RollingHash)
      requires Valid() && other.Valid() && other.muls == muls && other.modulus == modulus
      modifies this
      ensures Valid() && Value() == Add(old(Value()), old(other.Value()), muls, modulus)
    {
      len, hash := len + other.len, Add(Value(), other.Value(), muls, modulus).h;
    }

    /** `-=`: strip a prefix of length other.len whose hash is other. */
    method SubAssign(other: RollingHash)
      requires Valid() && other.Valid() && other.muls == muls && other.modulus == modulus
      requires len >= other.len
      modifies this
      ensures Valid() && Value() == Sub(old(Value()), old(other.Value()), muls, modulus)
    {
      len, hash := len - other.len, Sub(Value(), other.Value(), muls, modulus).h;
    }

    /** `+` on a copy: neither operand changes. */
    method Plus(other: RollingHash) returns (r: RollingHash)
      requires Valid() && other.Valid() && other.muls == muls && other.modulus == modulus
      ensures fresh(r) && r.Valid() && r.muls == muls && r.modulus == modulus
      ensures r.Value() == Add(Value(), other.Value(), muls, modulus)
    {
      r := new RollingHash.Copy(this);
      r.AddAssign(other);
    }

    /** `-` on a copy: neither operand changes. */
    method Minus(other: RollingHash) returns (r: RollingHash)
      requires Valid() && other.Valid() && other.muls == muls && other.modulus == modulus
      requires len >= other.len
      ensures fresh(r) && r.Valid() && r.muls == muls && r.modulus == modulus
      ensures r.Value() == Sub(Value(), other.Value(), muls, modulus)
    {
      r := new RollingHash.Copy(this);
      r.SubAssign(other);
    }

    /** `==`: equal lengths and equal components. */
    predicate Equals(other: RollingHash)
      reads this, other
      ensures Equals(other) <==> Value() == other.Value()
    {
      len == other.len && hash == other.hash
    }

    /** `<=>`: by length first, then by the component arrays. */
    function Compare(other: RollingHash): (c: int)
      reads this, other
      requires |hash| == |other.hash|
      ensures len < other.len ==> c < 0
      ensures len > other.len ==> c > 0
      ensures len == other.len ==> c == Lex(hash, other.hash)
      ensures c == 0 <==> Equals(other)
    {
      if len != other.len then (if len < other.len then -1 else 1)
      else Lex(hash, other.hash)
    }
  }

  /** `<=>` is antisymmetric. */
  lemma CompareAntisymmetric(a: RollingHash, b: RollingHash)
    requires |a.hash| == |b.hash|
    ensures a.Compare(b) == -b.Compare(a)
  {
    if a.len == b.len {
      LexAntisymmetric(a.hash, b.hash);
    }
  }
}
