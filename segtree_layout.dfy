/** The pre-order array layout shared by `SegTree` and `LazySegTree`
    (`compute_indices` in segtree.hpp and lazysegtree.hpp). A node covering
    positions l..r sits at slot `idx`; its left subtree occupies the slots
    right after it and its right subtree follows, so the subtree of l..r uses
    exactly `Span(l, r)` consecutive slots and a tree over n positions fits in
    2n - 1 slots.

    The proofs describe what a subtree's slots hold by a `Shape`: the tree of
    values those slots list in pre-order. */
module SegTreeLayout {

  /** Slots used by the subtree covering positions l..r. */
  function Span(l: int, r: int): nat
    requires l <= r
  {
    2 * (r - l) + 1
  }

  /** The split point of l..r. */
  function Mid(l: int, r: int): (m: int)
    requires l < r
    ensures l <= m < r
  {
    l + (r - l) / 2
  }

  /** compute_indices(idx, l, r): the left child, the right child and the
      split point. The two child subtrees tile the parent's slots after `idx`. */
  function ComputeIndices(idx: int, l: int, r: int): (res: (int, int, int))
    requires l < r
    ensures res.2 == Mid(l, r)
    ensures res.0 == idx + 1
    ensures res.1 == res.0 + Span(l, res.2)
    ensures res.1 + Span(res.2 + 1, r) == idx + Span(l, r)
  {
    var m := l + (r - l) / 2;
    (idx + 1, idx + (m - l + 1) * 2, m)
  }

  /** The values held by a subtree, shaped as the tree they encode. */
  datatype Shape<V> = Leaf(v: V) | Node(v: V, left: Shape<V>, right: Shape<V>)

  /** `t` has the shape of the subtree over l..r: a leaf exactly when l == r,
      children over l..Mid and Mid+1..r. */
  ghost predicate Fits<V>(t: Shape<V>, l: int, r: int)
    decreases r - l
  {
    l <= r &&
    if l == r then t.Leaf?
    else t.Node? && Fits(t.left, l, Mid(l, r)) && Fits(t.right, Mid(l, r) + 1, r)
  }

  /** Slots a subtree occupies. */
  function Slots<V>(t: Shape<V>): (n: nat)
    ensures n >= 1
  {
    match t
    case Leaf(_) => 1
    case Node(_, a, b) => 1 + Slots(a) + Slots(b)
  }

  lemma {:induction false} SizeSpan<V>(t: Shape<V>, l: int, r: int)
    requires Fits(t, l, r)
    ensures Slots(t) == Span(l, r)
    decreases r - l
  {
    if l < r {
      SizeSpan(t.left, l, Mid(l, r));
      SizeSpan(t.right, Mid(l, r) + 1, r);
    }
  }

  /** The slots of `s` from `i` on hold `t` in pre-order: its root first,
      then its left and its right subtree. */
  ghost predicate Holds<V>(s: seq<V>, i: int, t: Shape<V>)
    decreases t
  {
    0 <= i && i + Slots(t) <= |s| && s[i] == t.v &&
    match t
    case Leaf(_) => true
    case Node(_, a, b) => Holds(s, i + 1, a) && Holds(s, i + 1 + Slots(a), b)
  }

  /** `s` with `t` written in pre-order from slot `i` on, the root slot last,
      as build and mutate write it. */
  function Write<V>(s: seq<V>, i: nat, t: Shape<V>): (s': seq<V>)
    requires i + Slots(t) <= |s|
    ensures |s'| == |s|
    decreases t
  {
    match t
    case Leaf(v) => s[i := v]
    case Node(v, a, b) => Write(Write(s, i + 1, a), i + 1 + Slots(a), b)[i := v]
  }

  /** Slots outside the written range keep their values. */
  lemma {:induction false} WriteOutside<V>(s: seq<V>, i: nat, t: Shape<V>, k: int)
    requires i + Slots(t) <= |s| && 0 <= k < |s| && (k < i || i + Slots(t) <= k)
    ensures Write(s, i, t)[k] == s[k]
    decreases t
  {
    if t.Node? {
      WriteOutside(s, i + 1, t.left, k);
      WriteOutside(Write(s, i + 1, t.left), i + 1 + Slots(t.left), t.right, k);
    }
  }

  /** A subtree stays held when a slot outside it changes ... */
  lemma {:induction false} HoldsUpdate<V>(s: seq<V>, i: int, t: Shape<V>, k: int, x: V)
    requires Holds(s, i, t) && 0 <= k < |s| && (k < i || i + Slots(t) <= k)
    ensures Holds(s[k := x], i, t)
    decreases t
  {
    if t.Node? {
      HoldsUpdate(s, i + 1, t.left, k, x);
      HoldsUpdate(s, i + 1 + Slots(t.left), t.right, k, x);
    }
  }

  /** ... and when a subtree is written beside it. */
  lemma {:induction false} HoldsWrite<V>(s: seq<V>, i: int, t: Shape<V>, j: nat, u: Shape<V>)
    requires Holds(s, i, t) && j + Slots(u) <= |s| && (j + Slots(u) <= i || i + Slots(t) <= j)
    ensures Holds(Write(s, j, u), i, t)
    decreases u
  {
    match u
    case Leaf(_) =>
      HoldsUpdate(s, i, t, j, u.v);
    case Node(_, a, b) =>
      HoldsWrite(s, i, t, j + 1, a);
      HoldsWrite(Write(s, j + 1, a), i, t, j + 1 + Slots(a), b);
      HoldsUpdate(Write(Write(s, j + 1, a), j + 1 + Slots(a), b), i, t, j, u.v);
  }

  /** What is written is held. */
  lemma {:induction false} WriteHolds<V>(s: seq<V>, i: nat, t: Shape<V>)
    requires i + Slots(t) <= |s|
    ensures Holds(Write(s, i, t), i, t)
    decreases t
  {
    if t.Node? {
      var a, b := t.left, t.right;
      var s1 := Write(s, i + 1, a);
      var s2 := Write(s1, i + 1 + Slots(a), b);
      WriteHolds(s, i + 1, a);
      HoldsWrite(s1, i + 1, a, i + 1 + Slots(a), b);
      WriteHolds(s1, i + 1 + Slots(a), b);
      HoldsUpdate(s2, i + 1, a, i, t.v);
      HoldsUpdate(s2, i + 1 + Slots(a), b, i, t.v);
    }
  }

  /** Writing back what is already held changes nothing. */
  lemma {:induction false} WriteSame<V>(s: seq<V>, i: nat, t: Shape<V>)
    requires Holds(s, i, t)
    ensures Write(s, i, t) == s
    decreases t
  {
    if t.Node? {
      WriteSame(s, i + 1, t.left);
      WriteSame(s, i + 1 + Slots(t.left), t.right);
    }
  }

  /** The children of a held node are held at its child slots `lc` and
      `rc`. */
  lemma HoldsChildren<V>(s: seq<V>, i: int, lc: int, rc: int, t: Shape<V>)
    requires Holds(s, i, t) && t.Node? && lc == i + 1 && rc == lc + Slots(t.left)
    ensures Holds(s, lc, t.left) && Holds(s, rc, t.right)
  {
  }

  /** Rewriting the left subtree of a held node and then its root slot
      writes the node. */
  lemma WriteLeft<V>(s: seq<V>, s1: seq<V>, i: nat, lc: nat, rc: nat, z: V, a: Shape<V>, b: Shape<V>)
    requires lc == i + 1 && rc == lc + Slots(a) && Holds(s, rc, b)
    requires s1 == Write(s, lc, a)
    ensures s1[lc] == a.v && s1[rc] == b.v
    ensures s1[i := z] == Write(s, i, Node(z, a, b))
  {
    HoldsWrite(s, rc, b, lc, a);
    WriteSame(s1, rc, b);
  }

  /** Rewriting the right subtree of a held node and then its root slot
      writes the node. */
  lemma WriteRight<V>(s: seq<V>, s1: seq<V>, i: nat, lc: nat, rc: nat, z: V, a: Shape<V>, b: Shape<V>)
    requires lc == i + 1 && rc == lc + Slots(a) && Holds(s, lc, a) && rc + Slots(b) <= |s|
    requires s1 == Write(s, rc, b)
    ensures s1[lc] == a.v && s1[rc] == b.v
    ensures s1[i := z] == Write(s, i, Node(z, a, b))
  {
    WriteSame(s, lc, a);
    WriteOutside(s, rc, b, lc);
  }

  /** Writing both subtrees and then the root slot writes the node. */
  lemma WriteBoth<V>(s: seq<V>, s2: seq<V>, i: nat, lc: nat, rc: nat, z: V, a: Shape<V>, b: Shape<V>)
    requires lc == i + 1 && rc == lc + Slots(a) && rc + Slots(b) <= |s|
    requires s2 == Write(Write(s, lc, a), rc, b)
    ensures s2[lc] == a.v && s2[rc] == b.v
    ensures s2[i := z] == Write(s, i, Node(z, a, b))
  {
    WriteOutside(Write(s, lc, a), rc, b, lc);
  }

  /** The values among the first k of `e`, which sit at positions lo,
      lo + 1, ..., that fall inside a..b (inclusive). */
  function WindowTo<V>(e: seq<V>, lo: int, a: int, b: int, k: nat): (w: seq<V>)
    requires k <= |e|
    ensures |w| <= k
    decreases k
  {
    if k == 0 then []
    else WindowTo(e, lo, a, b, k - 1) + (if a <= lo + k - 1 <= b then [e[k - 1]] else [])
  }

  /** The values of `e` that fall inside a..b: what a query over a..b sees
      of them. */
  function Window<V>(e: seq<V>, lo: int, a: int, b: int): (w: seq<V>)
    ensures |w| <= |e|
  {
    WindowTo(e, lo, a, b, |e|)
  }

  /** The window is the slice of `e` between the clamped ends. */
  lemma {:induction false} WindowToSlice<V>(e: seq<V>, lo: int, a: int, b: int, k: nat)
    requires k <= |e|
    ensures var i := if a - lo < 0 then 0 else a - lo;
            var j := if b - lo + 1 > k then k else b - lo + 1;
            WindowTo(e, lo, a, b, k) == if i < j then e[i..j] else []
    decreases k
  {
    if k > 0 {
      WindowToSlice(e, lo, a, b, k - 1);
      var i := if a - lo < 0 then 0 else a - lo;
      var j := if b - lo + 1 > k - 1 then k - 1 else b - lo + 1;
      if i < j && a <= lo + k - 1 <= b {
        assert e[i..j] + [e[k - 1]] == e[i..j + 1];
      }
    }
  }

  lemma {:induction false} WindowToAll<V>(e: seq<V>, lo: int, a: int, b: int, k: nat)
    requires k <= |e| && a <= lo && lo + k - 1 <= b
    ensures WindowTo(e, lo, a, b, k) == e[..k]
    decreases k
  {
    if k > 0 {
      WindowToAll(e, lo, a, b, k - 1);
      assert e[..k - 1] + [e[k - 1]] == e[..k];
    }
  }

  lemma WindowAll<V>(e: seq<V>, lo: int, a: int, b: int)
    requires a <= lo && lo + |e| - 1 <= b
    ensures Window(e, lo, a, b) == e
  {
    WindowToAll(e, lo, a, b, |e|);
  }

  lemma {:induction false} WindowToNone<V>(e: seq<V>, lo: int, a: int, b: int, k: nat)
    requires k <= |e| && (lo + |e| - 1 < a || b < lo)
    ensures WindowTo(e, lo, a, b, k) == []
    decreases k
  {
    if k > 0 {
      WindowToNone(e, lo, a, b, k - 1);
    }
  }

  lemma WindowNone<V>(e: seq<V>, lo: int, a: int, b: int)
    requires lo + |e| - 1 < a || b < lo
    ensures Window(e, lo, a, b) == []
  {
    WindowToNone(e, lo, a, b, |e|);
  }

  /** Over a concatenation, a window of the first k stays inside the first
      part while k does not pass it ... */
  lemma {:induction false} WindowToLeft<V>(x: seq<V>, y: seq<V>, lo: int, a: int, b: int, k: nat)
    requires k <= |x|
    ensures WindowTo(x + y, lo, a, b, k) == WindowTo(x, lo, a, b, k)
    decreases k
  {
    if k > 0 {
      WindowToLeft(x, y, lo, a, b, k - 1);
    }
  }

  /** ... and past it, continues with the window over the second part. */
  lemma {:induction false} WindowToRight<V>(x: seq<V>, y: seq<V>, lo: int, mid: int, a: int, b: int, k: nat)
    requires mid == lo + |x| && k <= |y|
    ensures WindowTo(x + y, lo, a, b, |x| + k) == Window(x, lo, a, b) + WindowTo(y, mid, a, b, k)
    decreases k
  {
    if k == 0 {
      WindowToLeft(x, y, lo, a, b, |x|);
    } else {
      WindowToRight(x, y, lo, mid, a, b, k - 1);
    }
  }

  /** The window over a concatenation is the window over each part, the
      second part starting at `mid`, where the first ends. */
  lemma WindowConcat<V>(x: seq<V>, y: seq<V>, lo: int, mid: int, a: int, b: int)
    requires mid == lo + |x|
    ensures Window(x + y, lo, a, b) == Window(x, lo, a, b) + Window(y, mid, a, b)
  {
    WindowToRight(x, y, lo, mid, a, b, |y|);
  }
}
