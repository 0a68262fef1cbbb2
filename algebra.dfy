/** Laws of the caller-supplied combining operators and the folds they induce.
    The data structures of this library are generic over an aggregate operator
    `op` with an identity `nil`; the laws below are the assumptions under which
    their answers are meaningful. */
module Algebra {

  /** The law fires only where both nestings already occur: an identity
      is its own square, and a one-sided trigger would loop on it. */
  ghost predicate Associative<T(!new)>(op: (T, T) -> T) {
    forall a, b, c {:trigger op(op(a, b), c), op(a, op(b, c))} :: op(op(a, b), c) == op(a, op(b, c))
  }

  ghost predicate Commutative<T(!new)>(op: (T, T) -> T) {
    forall a, b :: op(a, b) == op(b, a)
  }

  ghost predicate Idempotent<T(!new)>(op: (T, T) -> T) {
    forall a :: op(a, a) == a
  }

  /** `e` is a two-sided identity of `op`. */
  ghost predicate Identity<T(!new)>(op: (T, T) -> T, e: T) {
    forall a :: op(e, a) == a && op(a, e) == a
  }

  ghost predicate Monoid<T(!new)>(op: (T, T) -> T, e: T) {
    Associative(op) && Identity(op, e)
  }

  /** Left fold of the first k elements of `s`, starting from `e`. */
  function FoldTo<T>(op: (T, T) -> T, e: T, s: seq<T>, k: nat): T
    requires k <= |s|
    decreases k
  {
    if k == 0 then e else op(FoldTo(op, e, s, k - 1), s[k - 1])
  }

  /** Left fold starting from `e`: op(...op(op(e, s[0]), s[1])..., s[n-1]). */
  function Fold<T>(op: (T, T) -> T, e: T, s: seq<T>): T
  {
    FoldTo(op, e, s, |s|)
  }

  /** Folding a prefix of `s` is folding the first elements of `s`. */
  lemma {:induction false} FoldToPrefix<T>(op: (T, T) -> T, e: T, s: seq<T>, t: seq<T>, k: nat)
    requires k <= |s| && k <= |t| && s[..k] == t[..k]
    ensures FoldTo(op, e, s, k) == FoldTo(op, e, t, k)
    decreases k
  {
    if k > 0 {
      assert s[k - 1] == s[..k][k - 1] == t[..k][k - 1] == t[k - 1];
      FoldToPrefix(op, e, s, t, k - 1);
    }
  }

  /** One more element folds into the accumulated value. */
  lemma FoldSnoc<T>(op: (T, T) -> T, e: T, s: seq<T>, x: T)
    ensures Fold(op, e, s + [x]) == op(Fold(op, e, s), x)
  {
    FoldToPrefix(op, e, s + [x], s, |s|);
  }

  /** Left fold of the first k elements of `s`, without an identity. */
  function ReduceTo<T>(op: (T, T) -> T, s: seq<T>, k: nat): T
    requires 1 <= k <= |s|
    decreases k
  {
    if k == 1 then s[0] else op(ReduceTo(op, s, k - 1), s[k - 1])
  }

  /** Left fold of a non-empty sequence without an identity. */
  function Reduce<T>(op: (T, T) -> T, s: seq<T>): T
    requires |s| > 0
  {
    ReduceTo(op, s, |s|)
  }

  /** Reducing a prefix of `s` is reducing the first elements of `s`. */
  lemma {:induction false} ReduceToPrefix<T>(op: (T, T) -> T, s: seq<T>, t: seq<T>, k: nat)
    requires 1 <= k <= |s| && k <= |t| && s[..k] == t[..k]
    ensures ReduceTo(op, s, k) == ReduceTo(op, t, k)
    decreases k
  {
    assert s[k - 1] == s[..k][k - 1] == t[..k][k - 1] == t[k - 1];
    if k > 1 {
      ReduceToPrefix(op, s, t, k - 1);
    }
  }

  /** One more element reduces into the accumulated value. */
  lemma ReduceSnoc<T>(op: (T, T) -> T, s: seq<T>, x: T)
    requires |s| > 0
    ensures Reduce(op, s + [x]) == op(Reduce(op, s), x)
  {
    ReduceToPrefix(op, s + [x], s, |s|);
  }

  /** The reduction of a longer prefix takes in the next element. */
  lemma ReducePrefix<T>(op: (T, T) -> T, s: seq<T>, i: nat)
    requires 0 < i < |s|
    ensures Reduce(op, s[..i + 1]) == op(Reduce(op, s[..i]), s[i])
  {
    assert s[..i + 1] == s[..i] + [s[i]];
    ReduceSnoc(op, s[..i], s[i]);
  }

  function Rev<T>(s: seq<T>): (r: seq<T>)
    ensures |r| == |s|
  {
    if s == [] then [] else Rev(s[1..]) + [s[0]]
  }

  lemma {:induction false} RevIndex<T>(s: seq<T>, i: nat)
    requires i < |s|
    ensures Rev(s)[i] == s[|s| - 1 - i]
    decreases |s|
  {
    if i < |s| - 1 {
      RevIndex(s[1..], i);
    }
  }

  lemma {:induction false} RevConcat<T>(a: seq<T>, b: seq<T>)
    ensures Rev(a + b) == Rev(b) + Rev(a)
    decreases |a|
  {
    if a == [] {
      assert a + b == b;
    } else {
      assert (a + b)[1..] == a[1..] + b;
      RevConcat(a[1..], b);
    }
  }

  lemma {:induction false} RevRev<T>(s: seq<T>)
    ensures Rev(Rev(s)) == s
    decreases |s|
  {
    if s != [] {
      RevConcat(Rev(s[1..]), [s[0]]);
      assert Rev([s[0]]) == [s[0]];
      RevRev(s[1..]);
    }
  }

  lemma {:induction false} FoldConcat<T(!new)>(op: (T, T) -> T, e: T, a: seq<T>, b: seq<T>)
    requires Monoid(op, e)
    ensures Fold(op, e, a + b) == op(Fold(op, e, a), Fold(op, e, b))
    decreases |b|
  {
    if |b| == 0 {
      assert a + b == a;
    } else {
      var b' := b[..|b| - 1];
      var x := b[|b| - 1];
      assert a + b == (a + b') + [x] && b == b' + [x];
      FoldSnoc(op, e, a + b', x);
      FoldSnoc(op, e, b', x);
      FoldConcat(op, e, a, b');
      calc {
        Fold(op, e, a + b);
        op(Fold(op, e, a + b'), x);
        op(op(Fold(op, e, a), Fold(op, e, b')), x);
        op(Fold(op, e, a), op(Fold(op, e, b'), x));
      }
    }
  }

  lemma FoldSingle<T(!new)>(op: (T, T) -> T, e: T, x: T)
    requires Identity(op, e)
    ensures Fold(op, e, [x]) == x
  {
    assert FoldTo(op, e, [x], 1) == op(FoldTo(op, e, [x], 0), x);
  }

  lemma {:induction false} ReduceConcat<T(!new)>(op: (T, T) -> T, a: seq<T>, b: seq<T>)
    requires Associative(op) && |a| > 0 && |b| > 0
    ensures Reduce(op, a + b) == op(Reduce(op, a), Reduce(op, b))
    decreases |b|
  {
    var b' := b[..|b| - 1];
    var x := b[|b| - 1];
    assert a + b == (a + b') + [x] && b == b' + [x];
    ReduceSnoc(op, a + b', x);
    if |b| == 1 {
      assert a + b' == a;
    } else {
      ReduceSnoc(op, b', x);
      ReduceConcat(op, a, b');
      calc {
        Reduce(op, a + b);
        op(Reduce(op, a + b'), x);
        op(op(Reduce(op, a), Reduce(op, b')), x);
        op(Reduce(op, a), op(Reduce(op, b'), x));
      }
    }
  }

  /** With an identity, the non-empty reduction is the fold from the identity. */
  lemma {:induction false} ReduceIsFold<T(!new)>(op: (T, T) -> T, e: T, s: seq<T>)
    requires Identity(op, e) && |s| > 0
    ensures Reduce(op, s) == Fold(op, e, s)
    decreases |s|
  {
    if |s| == 1 {
      FoldSingle(op, e, s[0]);
      assert s == [s[0]];
    } else {
      ReduceIsFold(op, e, s[..|s| - 1]);
      assert s == s[..|s| - 1] + [s[|s| - 1]];
      FoldSnoc(op, e, s[..|s| - 1], s[|s| - 1]);
      ReduceSnoc(op, s[..|s| - 1], s[|s| - 1]);
    }
  }

  lemma ReduceCons<T(!new)>(op: (T, T) -> T, x: T, s: seq<T>)
    requires Associative(op) && |s| > 0
    ensures Reduce(op, [x] + s) == op(x, Reduce(op, s))
  {
    ReduceConcat(op, [x], s);
  }

  /** A commutative, associative reduction does not depend on the order. */
  lemma {:induction false} ReduceRev<T(!new)>(op: (T, T) -> T, s: seq<T>)
    requires Associative(op) && Commutative(op) && |s| > 0
    ensures Reduce(op, Rev(s)) == Reduce(op, s)
    decreases |s|
  {
    if |s| > 1 {
      var init := s[..|s| - 1];
      var x := s[|s| - 1];
      assert s == init + [x];
      RevConcat(init, [x]);
      assert Rev([x]) == [x];
      ReduceRev(op, init);
      ReduceCons(op, x, Rev(init));
      ReduceSnoc(op, init, x);
    } else {
      assert s[1..] == [];
    }
  }
}
