/** The lazy segment tree of lazysegtree.hpp: range tagging, point assignment
    and inclusive range aggregation. Two vectors of 2n slots in the pre-order
    layout of `SegTreeLayout` hold, per node, a value (`val_store`) and a
    pending tag (`lazy_store`). A tag is pushed one level down by `propagate`,
    which composes it into both children's tags with `lazy_op` and applies it
    to the node's value with `apply(value, tag, l, r)`.

    The proofs track the pair (value, tag) of every slot by a ghost
    `Shape<(V, L)>`. A node's value caches the aggregate of its children with
    their own tags applied; the positions a node stands for are its leaves with
    every tag on the path down to them applied, oldest first. `StaticLazySegTree`,
    the same algorithm over `std::array`s whose size is a template parameter,
    is modelled by the `Sized` and `StaticFromSeq` constructors. */
module LazySegTree {
  import opened Algebra
  import opened SegTreeLayout
  import SegTree

  /** The caller-supplied algebra: `val_op` with identity `val_nil`, `lazy_op`
      with identity `lazy_nil`, and `apply`. */
  datatype Operators<!V, !L> = Operators(op: (V, V) -> V, nil: V, lop: (L, L) -> L, lnil: L, ap: (V, L, int, int) -> V)

  /** Tags form a monoid under `lazy_op` with identity `lazy_nil`. The
      associative law fires only where both of its sides occur: a nil tag is
      its own composition, and the one-sided trigger would loop on it. */
  ghost predicate TagMonoid<V, L(!new)>(g: Operators<V, L>) {
    (forall a, b, c {:trigger g.lop(g.lop(a, b), c), g.lop(a, g.lop(b, c))} ::
       g.lop(g.lop(a, b), c) == g.lop(a, g.lop(b, c))) &&
    (forall a :: g.lop(g.lnil, a) == a && g.lop(a, g.lnil) == a)
  }

  /** The laws the lazy segment tree relies on: `val_nil` is the identity of
      `val_op`, tags form a monoid, the nil tag changes nothing, and applying
      two tags one after the other is applying their composition (the older
      tag on the left). The last law, like the associativity in `TagMonoid`,
      fires only where both of its sides occur; the associativity of
      `val_op`, needed only by queries, is stated separately. */
  ghost predicate Lawful<V(!new), L(!new)>(g: Operators<V, L>) {
    Identity(g.op, g.nil) && TagMonoid(g) &&
    (forall x, l, r :: g.ap(x, g.lnil, l, r) == x) &&
    (forall x, a, b, l, r {:trigger g.ap(g.ap(x, a, l, r), b, l, r), g.ap(x, g.lop(a, b), l, r)} ::
       g.ap(g.ap(x, a, l, r), b, l, r) == g.ap(x, g.lop(a, b), l, r))
  }

  /** A tag applied to an aggregate over l..r is the aggregate of the tag
      applied to both halves, as `propagate` assumes when it applies a tag
      to a node and hands it on to the children. */
  ghost predicate Distributes<V(!new), L(!new)>(g: Operators<V, L>) {
    forall x, y, a, l, r {:trigger g.ap(g.op(x, y), a, l, r), g.ap(x, a, l, Mid(l, r))} :: l < r ==>
      g.ap(g.op(x, y), a, l, r) == g.op(g.ap(x, a, l, Mid(l, r)), g.ap(y, a, Mid(l, r) + 1, r))
  }

  /** One instance of `Distributes`. The law fires only where both the
      tagged aggregate and the tagged left half occur, since a one-sided
      trigger would re-fire on every level of a consistent subtree. */
  lemma Distribute<V(!new), L(!new)>(g: Operators<V, L>, x: V, y: V, a: L, l: int, r: int)
    requires Distributes(g) && l < r
    ensures g.ap(g.op(x, y), a, l, r) == g.op(g.ap(x, a, l, Mid(l, r)), g.ap(y, a, Mid(l, r) + 1, r))
  {
  }

  /** The positions l..r of a subtree whose ancestors still owe it the tag
      `pend`: each leaf value with every tag on its path applied. */
  ghost function Actual<V, L>(g: Operators<V, L>, t: Shape<(V, L)>, pend: L, l: int, r: int): (e: seq<V>)
    requires Fits(t, l, r)
    ensures |e| == r - l + 1
    decreases r - l
  {
    var p := g.lop(t.v.1, pend);
    if l == r then [g.ap(t.v.0, p, l, r)]
    else Actual(g, t.left, p, l, Mid(l, r)) + Actual(g, t.right, p, Mid(l, r) + 1, r)
  }

  /** Every internal value is the aggregate of its children's values with
      their own tags applied. */
  ghost predicate Consistent<V, L>(g: Operators<V, L>, t: Shape<(V, L)>, l: int, r: int)
    requires Fits(t, l, r)
    decreases r - l
  {
    l == r ||
    (t.v.0 == g.op(g.ap(t.left.v.0, t.left.v.1, l, Mid(l, r)), g.ap(t.right.v.0, t.right.v.1, Mid(l, r) + 1, r)) &&
     Consistent(g, t.left, l, Mid(l, r)) && Consistent(g, t.right, Mid(l, r) + 1, r))
  }

  /** A node's value with its own tag and the owed tag `pend` applied is the
      aggregate of the positions it stands for (the lazy tree's central
      invariant). */
  lemma {:induction false} Aggregate<V(!new), L(!new)>(g: Operators<V, L>, t: Shape<(V, L)>, pend: L, l: int, r: int)
    requires Lawful(g) && Distributes(g) && Associative(g.op) && Fits(t, l, r) && Consistent(g, t, l, r)
    ensures g.ap(t.v.0, g.lop(t.v.1, pend), l, r) == Reduce(g.op, Actual(g, t, pend, l, r))
    decreases r - l
  {
    if l < r {
      var m := Mid(l, r);
      var p := g.lop(t.v.1, pend);
      Aggregate(g, t.left, p, l, m);
      Aggregate(g, t.right, p, m + 1, r);
      Distribute(g, g.ap(t.left.v.0, t.left.v.1, l, m), g.ap(t.right.v.0, t.right.v.1, m + 1, r), p, l, r);
      ReduceConcat(g.op, Actual(g, t.left, p, l, m), Actual(g, t.right, p, m + 1, r));
    }
  }

  /** The node `t` with its tag replaced by `z`. */
  function Retag<V, L>(t: Shape<(V, L)>, z: L): (t': Shape<(V, L)>)
    ensures Slots(t') == Slots(t) && t'.v == (t.v.0, z)
  {
    match t
    case Leaf(c) => Leaf((c.0, z))
    case Node(c, a, b) => Node((c.0, z), a, b)
  }

  lemma RetagFits<V, L>(t: Shape<(V, L)>, z: L, l: int, r: int)
    requires Fits(t, l, r)
    ensures Fits(Retag(t, z), l, r)
  {
  }

  /** Composing `x` into a node's tag is owing `x` to the node instead. */
  lemma RetagActual<V(!new), L(!new)>(g: Operators<V, L>, t: Shape<(V, L)>, x: L, pend: L, l: int, r: int)
    requires Lawful(g) && Fits(t, l, r)
    ensures Fits(Retag(t, g.lop(t.v.1, x)), l, r)
    ensures Actual(g, Retag(t, g.lop(t.v.1, x)), pend, l, r) == Actual(g, t, g.lop(x, pend), l, r)
  {
    RetagFits(t, g.lop(t.v.1, x), l, r);
    assert g.lop(g.lop(t.v.1, x), pend) == g.lop(t.v.1, g.lop(x, pend));
  }

  lemma RetagConsistent<V, L>(g: Operators<V, L>, t: Shape<(V, L)>, z: L, l: int, r: int)
    requires Fits(t, l, r) && Consistent(g, t, l, r)
    ensures Fits(Retag(t, z), l, r) && Consistent(g, Retag(t, z), l, r)
  {
    RetagFits(t, z, l, r);
  }

  /** The subtree after propagate(idx, l, r): unchanged when its tag is nil;
      otherwise the tag is applied to the value, composed into both
      children's tags and reset to nil. */
  ghost function Pushed<V, L>(g: Operators<V, L>, t: Shape<(V, L)>, l: int, r: int): (t': Shape<(V, L)>)
    requires Fits(t, l, r)
    ensures Slots(t') == Slots(t) && Fits(t', l, r) && t'.v.1 == g.lnil
  {
    var z := t.v.1;
    if z == g.lnil then t
    else if l == r then Leaf((g.ap(t.v.0, z, l, r), g.lnil))
    else
      RetagFits(t.left, g.lop(t.left.v.1, z), l, Mid(l, r));
      RetagFits(t.right, g.lop(t.right.v.1, z), Mid(l, r) + 1, r);
      Node((g.ap(t.v.0, z, l, r), g.lnil), Retag(t.left, g.lop(t.left.v.1, z)), Retag(t.right, g.lop(t.right.v.1, z)))
  }

  /** A second propagate is a no-op. */
  lemma PushedTwice<V, L>(g: Operators<V, L>, t: Shape<(V, L)>, l: int, r: int)
    requires Fits(t, l, r)
    ensures Pushed(g, Pushed(g, t, l, r), l, r) == Pushed(g, t, l, r)
  {
  }

  /** propagate changes no position ... */
  lemma PushedActual<V(!new), L(!new)>(g: Operators<V, L>, t: Shape<(V, L)>, pend: L, l: int, r: int)
    requires Lawful(g) && Fits(t, l, r)
    ensures Actual(g, Pushed(g, t, l, r), pend, l, r) == Actual(g, t, pend, l, r)
  {
    var z := t.v.1;
    if z != g.lnil {
      if l == r {
        assert g.lop(g.lnil, pend) == pend;
      } else {
        var m := Mid(l, r);
        RetagActual(g, t.left, z, pend, l, m);
        RetagActual(g, t.right, z, pend, m + 1, r);
        assert g.lop(g.lnil, pend) == pend;
      }
    }
  }

  /** ... and keeps every value consistent. */
  lemma PushedConsistent<V(!new), L(!new)>(g: Operators<V, L>, t: Shape<(V, L)>, l: int, r: int)
    requires Lawful(g) && Distributes(g) && Fits(t, l, r) && Consistent(g, t, l, r)
    ensures Consistent(g, Pushed(g, t, l, r), l, r)
  {
    var z := t.v.1;
    if z != g.lnil && l < r {
      var m := Mid(l, r);
      RetagConsistent(g, t.left, g.lop(t.left.v.1, z), l, m);
      RetagConsistent(g, t.right, g.lop(t.right.v.1, z), m + 1, r);
      Distribute(g, g.ap(t.left.v.0, t.left.v.1, l, m), g.ap(t.right.v.0, t.right.v.1, m + 1, r), z, l, r);
    }
  }

  /** The value a node contributes to its parent is the same after
      propagate. */
  lemma PushedEffect<V(!new), L(!new)>(g: Operators<V, L>, t: Shape<(V, L)>, l: int, r: int)
    requires Lawful(g) && Fits(t, l, r)
    ensures var p := Pushed(g, t, l, r); g.ap(p.v.0, p.v.1, l, r) == g.ap(t.v.0, t.v.1, l, r)
  {
  }

  /** `s'` differs from `s` at most in the n slots from `i` on. */
  ghost predicate SameOutside<T>(s: seq<T>, s': seq<T>, i: int, n: int) {
    |s'| == |s| && forall k :: 0 <= k < |s| && (k < i || i + n <= k) ==> s'[k] == s[k]
  }

  /** A subtree is held wherever its own slots are unchanged. */
  lemma {:induction false} HoldsFrame<T>(s: seq<T>, s': seq<T>, i: int, t: Shape<T>)
    requires Holds(s, i, t) && |s'| == |s|
    requires forall k :: i <= k < i + Slots(t) ==> s'[k] == s[k]
    ensures Holds(s', i, t)
    decreases t
  {
    if t.Node? {
      HoldsFrame(s, s', i + 1, t.left);
      HoldsFrame(s, s', i + 1 + Slots(t.left), t.right);
    }
  }

  /** A subtree beside the changed slots stays held. */
  lemma HoldsBeside<T>(s: seq<T>, s': seq<T>, i: int, n: int, j: int, t: Shape<T>)
    requires SameOutside(s, s', i, n) && Holds(s, j, t) && (j + Slots(t) <= i || i + n <= j)
    ensures Holds(s', j, t)
  {
    HoldsFrame(s, s', j, t);
  }

  /** Retagging a held node at its root slot holds the retagged node. */
  lemma RetagHolds<V, L>(s: seq<(V, L)>, i: int, t: Shape<(V, L)>, z: L)
    requires Holds(s, i, t)
    ensures Holds(s[i := (t.v.0, z)], i, Retag(t, z))
  {
    if t.Node? {
      HoldsUpdate(s, i + 1, t.left, i, (t.v.0, z));
      HoldsUpdate(s, i + 1 + Slots(t.left), t.right, i, (t.v.0, z));
    }
  }

  /** A node whose children are held, written at its root slot. */
  lemma HoldsNode<T>(s: seq<T>, i: int, lc: int, rc: int, z: T, a: Shape<T>, b: Shape<T>)
    requires 0 <= i < |s| && lc == i + 1 && rc == lc + Slots(a) && Holds(s, lc, a) && Holds(s, rc, b)
    ensures Holds(s[i := z], i, Node(z, a, b))
  {
    HoldsUpdate(s, lc, a, i, z);
    HoldsUpdate(s, rc, b, i, z);
  }

  /** The positions of `e`, which start at `lo`, with the tag `w` applied to
      those inside u..v: what update(u, v, w) does to them. */
  ghost function Applied<V, L>(g: Operators<V, L>, e: seq<V>, lo: int, u: int, v: int, w: L): (e': seq<V>)
    ensures |e'| == |e|
  {
    seq(|e|, i requires 0 <= i < |e| => if u <= lo + i <= v then g.ap(e[i], w, lo + i, lo + i) else e[i])
  }

  lemma AppliedConcat<V, L>(g: Operators<V, L>, x: seq<V>, y: seq<V>, lo: int, mid: int, u: int, v: int, w: L)
    requires mid == lo + |x|
    ensures Applied(g, x + y, lo, u, v, w) == Applied(g, x, lo, u, v, w) + Applied(g, y, mid, u, v, w)
  {
  }

  /** The positions of a node are those of its children, which owe the
      node's tag composed with what the node owes. */
  lemma ActualUnfold<V, L>(g: Operators<V, L>, t: Shape<(V, L)>, pend: L, l: int, m: int, r: int)
    requires Fits(t, l, r) && l < r && m == Mid(l, r)
    ensures Fits(t.left, l, m) && Fits(t.right, m + 1, r)
    ensures Actual(g, t, pend, l, r) == Actual(g, t.left, g.lop(t.v.1, pend), l, m) + Actual(g, t.right, g.lop(t.v.1, pend), m + 1, r)
  {
  }

  /** Owing a subtree `w` after `pend` is applying `w` to all its
      positions (u..v covers l..r). */
  lemma {:induction false} ActualOwed<V(!new), L(!new)>(g: Operators<V, L>, t: Shape<(V, L)>, pend: L, w: L, l: int, r: int, u: int, v: int)
    requires Lawful(g) && Fits(t, l, r) && u <= l && r <= v
    ensures Actual(g, t, g.lop(pend, w), l, r) == Applied(g, Actual(g, t, pend, l, r), l, u, v, w)
    decreases r - l, 1
  {
    var p := g.lop(t.v.1, pend);
    if l < r {
      ActualOwedSplit(g, t, pend, w, l, r, u, v);
    } else {
      assert g.lop(t.v.1, g.lop(pend, w)) == g.lop(p, w);
      assert g.ap(g.ap(t.v.0, p, l, r), w, l, r) == g.ap(t.v.0, g.lop(p, w), l, r);
    }
  }

  lemma {:induction false} ActualOwedSplit<V(!new), L(!new)>(g: Operators<V, L>, t: Shape<(V, L)>, pend: L, w: L, l: int, r: int, u: int, v: int)
    requires Lawful(g) && Fits(t, l, r) && u <= l && r <= v && l < r
    ensures Actual(g, t, g.lop(pend, w), l, r) == Applied(g, Actual(g, t, pend, l, r), l, u, v, w)
    decreases r - l, 0
  {
    var p := g.lop(t.v.1, pend);
    var m := Mid(l, r);
    assert g.lop(t.v.1, g.lop(pend, w)) == g.lop(p, w);
    ActualOwed(g, t.left, p, w, l, m, u, v);
    ActualOwed(g, t.right, p, w, m + 1, r, u, v);
    ActualUnfold(g, t, pend, l, m, r);
    ActualUnfold(g, t, g.lop(pend, w), l, m, r);
    AppliedConcat(g, Actual(g, t.left, p, l, m), Actual(g, t.right, p, m + 1, r), l, m + 1, u, v, w);
  }

  /** A subtree whose tag is nil stands for its two children. */
  lemma ActualNode<V(!new), L(!new)>(g: Operators<V, L>, t: Shape<(V, L)>, l: int, m: int, r: int)
    requires Lawful(g) && Fits(t, l, r) && l < r && m == Mid(l, r) && t.v.1 == g.lnil
    ensures Actual(g, t, g.lnil, l, r) == Actual(g, t.left, g.lnil, l, m) + Actual(g, t.right, g.lnil, m + 1, r)
  {
    assert g.lop(g.lnil, g.lnil) == g.lnil;
  }

  /** A node with nil tags on its children and their aggregate as value. */
  lemma JoinConsistent<V(!new), L(!new)>(g: Operators<V, L>, a: Shape<(V, L)>, b: Shape<(V, L)>, l: int, m: int, r: int)
    requires Lawful(g) && l < r && m == Mid(l, r)
    requires Fits(a, l, m) && Consistent(g, a, l, m) && a.v.1 == g.lnil
    requires Fits(b, m + 1, r) && Consistent(g, b, m + 1, r) && b.v.1 == g.lnil
    ensures var t := Node((g.op(a.v.0, b.v.0), g.lnil), a, b); Fits(t, l, r) && Consistent(g, t, l, r)
  {
    assert g.ap(a.v.0, g.lnil, l, m) == a.v.0 && g.ap(b.v.0, g.lnil, m + 1, r) == b.v.0;
  }

  /** Recombining two consistent children with nil tags, as set and update
      do on their way back up: the node is consistent and stands for its
      children's positions. */
  lemma Recombined<V(!new), L(!new)>(g: Operators<V, L>, a: Shape<(V, L)>, b: Shape<(V, L)>, l: int, m: int, r: int)
    requires Lawful(g) && l < r && m == Mid(l, r)
    requires Fits(a, l, m) && Consistent(g, a, l, m) && a.v.1 == g.lnil
    requires Fits(b, m + 1, r) && Consistent(g, b, m + 1, r) && b.v.1 == g.lnil
    ensures var t := Node((g.op(a.v.0, b.v.0), g.lnil), a, b);
            Fits(t, l, r) && Consistent(g, t, l, r) &&
            Actual(g, t, g.lnil, l, r) == Actual(g, a, g.lnil, l, m) + Actual(g, b, g.lnil, m + 1, r)
  {
    JoinConsistent(g, a, b, l, m, r);
    ActualNode(g, Node((g.op(a.v.0, b.v.0), g.lnil), a, b), l, m, r);
  }

  /** The subtree build(source, idx, l, r) writes: the source values at the
      leaves, their aggregates above, every tag nil. */
  ghost function Built<V, L>(g: Operators<V, L>, source: seq<V>, l: int, r: int): Shape<(V, L)>
    requires 0 <= l <= r < |source|
    decreases r - l
  {
    if l == r then Leaf((source[l], g.lnil))
    else
      var a := Built(g, source, l, Mid(l, r));
      var b := Built(g, source, Mid(l, r) + 1, r);
      Node((g.op(a.v.0, b.v.0), g.lnil), a, b)
  }

  /** After build the subtree is consistent and stands for source[l..r]. */
  lemma {:induction false} BuiltSound<V(!new), L(!new)>(g: Operators<V, L>, source: seq<V>, l: int, r: int)
    requires Lawful(g) && 0 <= l <= r < |source|
    ensures Fits(Built(g, source, l, r), l, r) && Consistent(g, Built(g, source, l, r), l, r)
    ensures Actual(g, Built(g, source, l, r), g.lnil, l, r) == source[l..r + 1]
    decreases r - l, 1
  {
    if l == r {
      assert g.lop(g.lnil, g.lnil) == g.lnil;
      assert source[l..r + 1] == [source[l]];
    } else {
      BuiltSoundSplit(g, source, l, r);
    }
  }

  lemma {:induction false} BuiltSoundSplit<V(!new), L(!new)>(g: Operators<V, L>, source: seq<V>, l: int, r: int)
    requires Lawful(g) && 0 <= l < r < |source|
    ensures Fits(Built(g, source, l, r), l, r) && Consistent(g, Built(g, source, l, r), l, r)
    ensures Actual(g, Built(g, source, l, r), g.lnil, l, r) == source[l..r + 1]
    decreases r - l, 0
  {
    var m := Mid(l, r);
    BuiltSound(g, source, l, m);
    BuiltSound(g, source, m + 1, r);
    Recombined(g, Built(g, source, l, m), Built(g, source, m + 1, r), l, m, r);
    assert source[l..r + 1] == source[l..m + 1] + source[m + 1..r + 1];
  }

  /** A store filled with nil values and nil tags is consistent ... */
  lemma {:induction false} NilConsistent<V(!new), L(!new)>(g: Operators<V, L>, l: int, r: int)
    requires Lawful(g) && l <= r
    ensures Fits(SegTree.NilShape((g.nil, g.lnil), l, r), l, r)
    ensures Consistent(g, SegTree.NilShape((g.nil, g.lnil), l, r), l, r)
    decreases r - l
  {
    SegTree.NilFits((g.nil, g.lnil), l, r);
    if l < r {
      var m := Mid(l, r);
      NilConsistent(g, l, m);
      NilConsistent(g, m + 1, r);
      var z := (g.nil, g.lnil);
      assert SegTree.NilShape(z, l, r) == Node(z, SegTree.NilShape(z, l, m), SegTree.NilShape(z, m + 1, r));
      assert SegTree.NilShape(z, l, m).v == z && SegTree.NilShape(z, m + 1, r).v == z;
      assert g.ap(g.nil, g.lnil, l, m) == g.nil && g.ap(g.nil, g.lnil, m + 1, r) == g.nil;
      assert g.op(g.nil, g.nil) == g.nil;
    }
  }

  /** ... and stands for nil at every position. */
  lemma {:induction false} NilActual<V(!new), L(!new)>(g: Operators<V, L>, l: int, r: int)
    requires Lawful(g) && l <= r
    ensures Fits(SegTree.NilShape((g.nil, g.lnil), l, r), l, r)
    ensures Actual(g, SegTree.NilShape((g.nil, g.lnil), l, r), g.lnil, l, r) == seq(r - l + 1, _ => g.nil)
    decreases r - l
  {
    SegTree.NilFits((g.nil, g.lnil), l, r);
    assert g.lop(g.lnil, g.lnil) == g.lnil;
    if l < r {
      var m := Mid(l, r);
      NilActual(g, l, m);
      NilActual(g, m + 1, r);
      SegTree.Constant(g.nil, m - l + 1, r - m);
    } else {
      assert g.ap(g.nil, g.lnil, l, r) == g.nil;
    }
  }

  /** The subtree after set(u, w, idx, l, r): every node met is propagated
      first; position `u`, if inside, becomes `w`, and the nodes above it
      are recombined. */
  ghost function Assigned<V, L>(g: Operators<V, L>, t: Shape<(V, L)>, u: int, w: V, l: int, r: int): (t': Shape<(V, L)>)
    requires Fits(t, l, r)
    ensures t'.v.1 == g.lnil
    decreases r - l
  {
    var p := Pushed(g, t, l, r);
    if u > r || u < l then p
    else if u == l && u == r then Leaf((w, g.lnil))
    else
      var a := Assigned(g, p.left, u, w, l, Mid(l, r));
      var b := Assigned(g, p.right, u, w, Mid(l, r) + 1, r);
      Node((g.op(a.v.0, b.v.0), g.lnil), a, b)
  }

  /** set at a node straddling `u` recombines its two children. */
  lemma AssignedNode<V, L>(g: Operators<V, L>, t: Shape<(V, L)>, p: Shape<(V, L)>, u: int, w: V, l: int, m: int, r: int)
    requires Fits(t, l, r) && l <= u <= r && l < r && m == Mid(l, r) && p == Pushed(g, t, l, r)
    ensures Fits(p.left, l, m) && Fits(p.right, m + 1, r)
    ensures var a := Assigned(g, p.left, u, w, l, m);
            var b := Assigned(g, p.right, u, w, m + 1, r);
            Assigned(g, t, u, w, l, r) == Node((g.op(a.v.0, b.v.0), g.lnil), a, b)
  {
  }

  /** set keeps the subtree consistent ... */
  lemma {:induction false} AssignedConsistent<V(!new), L(!new)>(g: Operators<V, L>, t: Shape<(V, L)>, u: int, w: V, l: int, r: int)
    requires Lawful(g) && Distributes(g) && Fits(t, l, r) && Consistent(g, t, l, r)
    ensures Fits(Assigned(g, t, u, w, l, r), l, r) && Consistent(g, Assigned(g, t, u, w, l, r), l, r)
    decreases r - l, 1
  {
    PushedConsistent(g, t, l, r);
    if l <= u <= r && l < r {
      AssignedConsistentSplit(g, t, Pushed(g, t, l, r), u, w, l, r);
    }
  }

  lemma {:induction false} AssignedConsistentSplit<V(!new), L(!new)>(g: Operators<V, L>, t: Shape<(V, L)>, p: Shape<(V, L)>, u: int, w: V, l: int, r: int)
    requires Lawful(g) && Distributes(g) && Fits(t, l, r) && l <= u <= r && l < r
    requires p == Pushed(g, t, l, r) && Consistent(g, p, l, r)
    ensures Fits(Assigned(g, t, u, w, l, r), l, r) && Consistent(g, Assigned(g, t, u, w, l, r), l, r)
    decreases r - l, 0
  {
    var m := Mid(l, r);
    AssignedNode(g, t, p, u, w, l, m, r);
    AssignedConsistent(g, p.left, u, w, l, m);
    AssignedConsistent(g, p.right, u, w, m + 1, r);
    JoinConsistent(g, Assigned(g, p.left, u, w, l, m), Assigned(g, p.right, u, w, m + 1, r), l, m, r);
  }

  /** Joining two children that each changed position `u` changes position
      `u` of the node. */
  lemma AssignedJoin<V(!new), L(!new)>(g: Operators<V, L>, p: Shape<(V, L)>, a: Shape<(V, L)>, b: Shape<(V, L)>, u: int, w: V, l: int, m: int, r: int)
    requires Lawful(g) && l < r && m == Mid(l, r) && Fits(p, l, r) && p.v.1 == g.lnil
    requires Fits(a, l, m) && a.v.1 == g.lnil && Actual(g, a, g.lnil, l, m) == SegTree.Changed(g.op, Actual(g, p.left, g.lnil, l, m), true, u - l, w)
    requires Fits(b, m + 1, r) && b.v.1 == g.lnil && Actual(g, b, g.lnil, m + 1, r) == SegTree.Changed(g.op, Actual(g, p.right, g.lnil, m + 1, r), true, u - (m + 1), w)
    ensures var t := Node((g.op(a.v.0, b.v.0), g.lnil), a, b);
            Fits(t, l, r) && Actual(g, t, g.lnil, l, r) == SegTree.Changed(g.op, Actual(g, p, g.lnil, l, r), true, u - l, w)
  {
    ActualNode(g, p, l, m, r);
    ActualNode(g, Node((g.op(a.v.0, b.v.0), g.lnil), a, b), l, m, r);
    SegTree.ChangedConcat(g.op, Actual(g, p.left, g.lnil, l, m), Actual(g, p.right, g.lnil, m + 1, r), true, u - l, w);
  }

  /** ... and changes exactly position `u`. */
  lemma {:induction false} AssignedSound<V(!new), L(!new)>(g: Operators<V, L>, t: Shape<(V, L)>, u: int, w: V, l: int, r: int)
    requires Lawful(g) && Fits(t, l, r)
    ensures Fits(Assigned(g, t, u, w, l, r), l, r)
    ensures Actual(g, Assigned(g, t, u, w, l, r), g.lnil, l, r) == SegTree.Changed(g.op, Actual(g, t, g.lnil, l, r), true, u - l, w)
    decreases r - l, 1
  {
    PushedActual(g, t, g.lnil, l, r);
    if u == l && u == r {
      assert g.lop(g.lnil, g.lnil) == g.lnil && g.ap(w, g.lnil, l, r) == w;
    } else if l <= u <= r {
      AssignedSoundSplit(g, t, u, w, l, r);
    }
  }

  lemma {:induction false} AssignedSoundSplit<V(!new), L(!new)>(g: Operators<V, L>, t: Shape<(V, L)>, u: int, w: V, l: int, r: int)
    requires Lawful(g) && Fits(t, l, r) && l <= u <= r && l < r
    ensures Fits(Assigned(g, t, u, w, l, r), l, r)
    ensures Actual(g, Assigned(g, t, u, w, l, r), g.lnil, l, r) == SegTree.Changed(g.op, Actual(g, t, g.lnil, l, r), true, u - l, w)
    decreases r - l, 0
  {
    var p := Pushed(g, t, l, r);
    var m := Mid(l, r);
    PushedActual(g, t, g.lnil, l, r);
    AssignedNode(g, t, p, u, w, l, m, r);
    AssignedSound(g, p.left, u, w, l, m);
    AssignedSound(g, p.right, u, w, m + 1, r);
    AssignedJoin(g, p, Assigned(g, p.left, u, w, l, m), Assigned(g, p.right, u, w, m + 1, r), u, w, l, m, r);
  }

  /** The subtree after update(u, v, w, idx, l, r): every node met is
      propagated first; a node inside u..v takes the tag `w` and is
      propagated at once; a node straddling u..v is recombined from its
      children. */
  ghost function Tagged<V, L>(g: Operators<V, L>, t: Shape<(V, L)>, u: int, v: int, w: L, l: int, r: int): (t': Shape<(V, L)>)
    requires Fits(t, l, r)
    ensures t'.v.1 == g.lnil
    decreases r - l
  {
    var p := Pushed(g, t, l, r);
    if u > r || v < l then p
    else if u <= l && v >= r then
      RetagFits(p, w, l, r);
      Pushed(g, Retag(p, w), l, r)
    else
      var a := Tagged(g, p.left, u, v, w, l, Mid(l, r));
      var b := Tagged(g, p.right, u, v, w, Mid(l, r) + 1, r);
      Node((g.op(a.v.0, b.v.0), g.lnil), a, b)
  }

  /** update at a node straddling u..v recombines its two children. */
  lemma TaggedNode<V, L>(g: Operators<V, L>, t: Shape<(V, L)>, p: Shape<(V, L)>, u: int, v: int, w: L, l: int, m: int, r: int)
    requires Fits(t, l, r) && !(u > r || v < l) && !(u <= l && v >= r) && m == Mid(l, r) && p == Pushed(g, t, l, r)
    ensures Fits(p.left, l, m) && Fits(p.right, m + 1, r)
    ensures var a := Tagged(g, p.left, u, v, w, l, m);
            var b := Tagged(g, p.right, u, v, w, m + 1, r);
            Tagged(g, t, u, v, w, l, r) == Node((g.op(a.v.0, b.v.0), g.lnil), a, b)
  {
  }

  /** A consistent subtree tagged as a whole and propagated is consistent. */
  lemma TaggedWhole<V(!new), L(!new)>(g: Operators<V, L>, p: Shape<(V, L)>, w: L, l: int, r: int)
    requires Lawful(g) && Distributes(g) && Fits(p, l, r) && Consistent(g, p, l, r)
    ensures Fits(Retag(p, w), l, r) && Fits(Pushed(g, Retag(p, w), l, r), l, r)
    ensures Consistent(g, Pushed(g, Retag(p, w), l, r), l, r)
  {
    RetagConsistent(g, p, w, l, r);
    PushedConsistent(g, Retag(p, w), l, r);
  }

  /** update keeps the subtree consistent ... */
  lemma {:induction false} TaggedConsistent<V(!new), L(!new)>(g: Operators<V, L>, t: Shape<(V, L)>, u: int, v: int, w: L, l: int, r: int)
    requires Lawful(g) && Distributes(g) && Fits(t, l, r) && Consistent(g, t, l, r)
    ensures Fits(Tagged(g, t, u, v, w, l, r), l, r) && Consistent(g, Tagged(g, t, u, v, w, l, r), l, r)
    decreases r - l, 1
  {
    PushedConsistent(g, t, l, r);
    if u > r || v < l {
    } else if u <= l && v >= r {
      TaggedWhole(g, Pushed(g, t, l, r), w, l, r);
    } else {
      TaggedConsistentSplit(g, t, Pushed(g, t, l, r), u, v, w, l, r);
    }
  }

  lemma {:induction false} TaggedConsistentSplit<V(!new), L(!new)>(g: Operators<V, L>, t: Shape<(V, L)>, p: Shape<(V, L)>, u: int, v: int, w: L, l: int, r: int)
    requires Lawful(g) && Distributes(g) && Fits(t, l, r)
    requires !(u > r || v < l) && !(u <= l && v >= r)
    requires p == Pushed(g, t, l, r) && Consistent(g, p, l, r)
    ensures Fits(Tagged(g, t, u, v, w, l, r), l, r) && Consistent(g, Tagged(g, t, u, v, w, l, r), l, r)
    decreases r - l, 0
  {
    var m := Mid(l, r);
    TaggedNode(g, t, p, u, v, w, l, m, r);
    TaggedConsistent(g, p.left, u, v, w, l, m);
    TaggedConsistent(g, p.right, u, v, w, m + 1, r);
    JoinConsistent(g, Tagged(g, p.left, u, v, w, l, m), Tagged(g, p.right, u, v, w, m + 1, r), l, m, r);
  }

  /** Tagging a whole subtree that owes nothing applies the tag to all its
      positions. */
  lemma TaggedCovered<V(!new), L(!new)>(g: Operators<V, L>, p: Shape<(V, L)>, u: int, v: int, w: L, l: int, r: int)
    requires Lawful(g) && Fits(p, l, r) && p.v.1 == g.lnil && u <= l && r <= v
    ensures Fits(Pushed(g, Retag(p, w), l, r), l, r)
    ensures Actual(g, Pushed(g, Retag(p, w), l, r), g.lnil, l, r) == Applied(g, Actual(g, p, g.lnil, l, r), l, u, v, w)
  {
    RetagFits(p, w, l, r);
    assert g.lop(g.lnil, w) == w && g.lop(w, g.lnil) == w;
    RetagActual(g, p, w, g.lnil, l, r);
    PushedActual(g, Retag(p, w), g.lnil, l, r);
    ActualOwed(g, p, g.lnil, w, l, r, u, v);
  }

  /** Joining two children that each took the tag inside u..v. */
  lemma TaggedJoin<V(!new), L(!new)>(g: Operators<V, L>, p: Shape<(V, L)>, a: Shape<(V, L)>, b: Shape<(V, L)>, u: int, v: int, w: L, l: int, m: int, r: int)
    requires Lawful(g) && l < r && m == Mid(l, r) && Fits(p, l, r) && p.v.1 == g.lnil
    requires Fits(a, l, m) && a.v.1 == g.lnil && Actual(g, a, g.lnil, l, m) == Applied(g, Actual(g, p.left, g.lnil, l, m), l, u, v, w)
    requires Fits(b, m + 1, r) && b.v.1 == g.lnil && Actual(g, b, g.lnil, m + 1, r) == Applied(g, Actual(g, p.right, g.lnil, m + 1, r), m + 1, u, v, w)
    ensures var t := Node((g.op(a.v.0, b.v.0), g.lnil), a, b);
            Fits(t, l, r) && Actual(g, t, g.lnil, l, r) == Applied(g, Actual(g, p, g.lnil, l, r), l, u, v, w)
  {
    ActualNode(g, p, l, m, r);
    ActualNode(g, Node((g.op(a.v.0, b.v.0), g.lnil), a, b), l, m, r);
    AppliedConcat(g, Actual(g, p.left, g.lnil, l, m), Actual(g, p.right, g.lnil, m + 1, r), l, m + 1, u, v, w);
  }

  /** ... and applies `w` to exactly the positions inside u..v. */
  lemma {:induction false} TaggedSound<V(!new), L(!new)>(g: Operators<V, L>, t: Shape<(V, L)>, u: int, v: int, w: L, l: int, r: int)
    requires Lawful(g) && Fits(t, l, r)
    ensures Fits(Tagged(g, t, u, v, w, l, r), l, r)
    ensures Actual(g, Tagged(g, t, u, v, w, l, r), g.lnil, l, r) == Applied(g, Actual(g, t, g.lnil, l, r), l, u, v, w)
    decreases r - l, 1
  {
    PushedActual(g, t, g.lnil, l, r);
    if u > r || v < l {
      assert Applied(g, Actual(g, t, g.lnil, l, r), l, u, v, w) == Actual(g, t, g.lnil, l, r);
    } else if u <= l && v >= r {
      TaggedCovered(g, Pushed(g, t, l, r), u, v, w, l, r);
    } else {
      TaggedSoundSplit(g, t, u, v, w, l, r);
    }
  }

  lemma {:induction false} TaggedSoundSplit<V(!new), L(!new)>(g: Operators<V, L>, t: Shape<(V, L)>, u: int, v: int, w: L, l: int, r: int)
    requires Lawful(g) && Fits(t, l, r) && !(u > r || v < l) && !(u <= l && v >= r)
    ensures Fits(Tagged(g, t, u, v, w, l, r), l, r)
    ensures Actual(g, Tagged(g, t, u, v, w, l, r), g.lnil, l, r) == Applied(g, Actual(g, t, g.lnil, l, r), l, u, v, w)
    decreases r - l, 0
  {
    var p := Pushed(g, t, l, r);
    var m := Mid(l, r);
    PushedActual(g, t, g.lnil, l, r);
    TaggedNode(g, t, p, u, v, w, l, m, r);
    TaggedSound(g, p.left, u, v, w, l, m);
    TaggedSound(g, p.right, u, v, w, m + 1, r);
    TaggedJoin(g, p, Tagged(g, p.left, u, v, w, l, m), Tagged(g, p.right, u, v, w, m + 1, r), u, v, w, l, m, r);
  }

  /** The subtree after query(u, v, idx, l, r), which propagates every node
      it meets. */
  ghost function Queried<V, L>(g: Operators<V, L>, t: Shape<(V, L)>, u: int, v: int, l: int, r: int): (t': Shape<(V, L)>)
    requires Fits(t, l, r)
    ensures t'.v.1 == g.lnil
    decreases r - l
  {
    var p := Pushed(g, t, l, r);
    if u > r || v < l || (u <= l && v >= r) then p
    else Node(p.v, Queried(g, p.left, u, v, l, Mid(l, r)), Queried(g, p.right, u, v, Mid(l, r) + 1, r))
  }

  /** query leaves the root of the subtree as propagate left it. */
  lemma QueriedRoot<V, L>(g: Operators<V, L>, t: Shape<(V, L)>, u: int, v: int, l: int, r: int)
    requires Fits(t, l, r)
    ensures Queried(g, t, u, v, l, r).v == Pushed(g, t, l, r).v
  {
  }

  /** query at a node straddling u..v descends into both children. */
  lemma QueriedNode<V, L>(g: Operators<V, L>, t: Shape<(V, L)>, p: Shape<(V, L)>, u: int, v: int, l: int, m: int, r: int)
    requires Fits(t, l, r) && !(u > r || v < l || (u <= l && v >= r)) && m == Mid(l, r) && p == Pushed(g, t, l, r)
    ensures Fits(p.left, l, m) && Fits(p.right, m + 1, r)
    ensures Queried(g, t, u, v, l, r) == Node(p.v, Queried(g, p.left, u, v, l, m), Queried(g, p.right, u, v, m + 1, r))
  {
  }

  /** query keeps the subtree consistent ... */
  lemma {:induction false} QueriedConsistent<V(!new), L(!new)>(g: Operators<V, L>, t: Shape<(V, L)>, u: int, v: int, l: int, r: int)
    requires Lawful(g) && Distributes(g) && Fits(t, l, r) && Consistent(g, t, l, r)
    ensures Fits(Queried(g, t, u, v, l, r), l, r) && Consistent(g, Queried(g, t, u, v, l, r), l, r)
    decreases r - l, 1
  {
    PushedConsistent(g, t, l, r);
    if !(u > r || v < l || (u <= l && v >= r)) {
      QueriedConsistentSplit(g, t, Pushed(g, t, l, r), u, v, l, r);
    }
  }

  lemma {:induction false} QueriedConsistentSplit<V(!new), L(!new)>(g: Operators<V, L>, t: Shape<(V, L)>, p: Shape<(V, L)>, u: int, v: int, l: int, r: int)
    requires Lawful(g) && Distributes(g) && Fits(t, l, r)
    requires !(u > r || v < l || (u <= l && v >= r))
    requires p == Pushed(g, t, l, r) && Consistent(g, p, l, r)
    ensures Fits(Queried(g, t, u, v, l, r), l, r) && Consistent(g, Queried(g, t, u, v, l, r), l, r)
    decreases r - l, 0
  {
    var m := Mid(l, r);
    QueriedNode(g, t, p, u, v, l, m, r);
    QueriedConsistent(g, p.left, u, v, l, m);
    QueriedConsistent(g, p.right, u, v, m + 1, r);
    QueriedJoin(g, p, u, v, l, m, r);
  }

  /** A node whose children were queried keeps its value consistent: a
      query propagates at each child it visits, which leaves the value the
      child contributes unchanged. */
  lemma QueriedJoin<V(!new), L(!new)>(g: Operators<V, L>, p: Shape<(V, L)>, u: int, v: int, l: int, m: int, r: int)
    requires Lawful(g) && l < r && m == Mid(l, r) && Fits(p, l, r) && Consistent(g, p, l, r)
    requires Fits(Queried(g, p.left, u, v, l, m), l, m) && Consistent(g, Queried(g, p.left, u, v, l, m), l, m)
    requires Fits(Queried(g, p.right, u, v, m + 1, r), m + 1, r) && Consistent(g, Queried(g, p.right, u, v, m + 1, r), m + 1, r)
    ensures var t := Node(p.v, Queried(g, p.left, u, v, l, m), Queried(g, p.right, u, v, m + 1, r));
            Fits(t, l, r) && Consistent(g, t, l, r)
  {
    QueriedRoot(g, p.left, u, v, l, m);
    QueriedRoot(g, p.right, u, v, m + 1, r);
    PushedEffect(g, p.left, l, m);
    PushedEffect(g, p.right, m + 1, r);
  }

  /** ... and changes no position, although it rewrites the stores. */
  lemma {:induction false} QueriedSound<V(!new), L(!new)>(g: Operators<V, L>, t: Shape<(V, L)>, u: int, v: int, l: int, r: int)
    requires Lawful(g) && Fits(t, l, r)
    ensures Fits(Queried(g, t, u, v, l, r), l, r)
    ensures Actual(g, Queried(g, t, u, v, l, r), g.lnil, l, r) == Actual(g, t, g.lnil, l, r)
    decreases r - l, 1
  {
    PushedActual(g, t, g.lnil, l, r);
    if !(u > r || v < l || (u <= l && v >= r)) {
      QueriedSoundSplit(g, t, u, v, l, r);
    }
  }

  lemma {:induction false} QueriedSoundSplit<V(!new), L(!new)>(g: Operators<V, L>, t: Shape<(V, L)>, u: int, v: int, l: int, r: int)
    requires Lawful(g) && Fits(t, l, r) && !(u > r || v < l || (u <= l && v >= r))
    ensures Fits(Queried(g, t, u, v, l, r), l, r)
    ensures Actual(g, Queried(g, t, u, v, l, r), g.lnil, l, r) == Actual(g, t, g.lnil, l, r)
    decreases r - l, 0
  {
    var p := Pushed(g, t, l, r);
    var m := Mid(l, r);
    PushedActual(g, t, g.lnil, l, r);
    QueriedNode(g, t, p, u, v, l, m, r);
    QueriedSound(g, p.left, u, v, l, m);
    QueriedSound(g, p.right, u, v, m + 1, r);
    ActualNode(g, p, l, m, r);
    ActualNode(g, Node(p.v, Queried(g, p.left, u, v, l, m), Queried(g, p.right, u, v, m + 1, r)), l, m, r);
  }

  lemma SameOutsideTrans<T>(s: seq<T>, s1: seq<T>, s2: seq<T>, i: int, n: int)
    requires SameOutside(s, s1, i, n) && SameOutside(s1, s2, i, n)
    ensures SameOutside(s, s2, i, n)
  {
  }

  /** propagate's writes at a node: both children retagged with `zl` and
      `zr`, and the root slot set to `y`. */
  lemma PushHolds<V, L>(s: seq<(V, L)>, s': seq<(V, L)>, i: int, lc: int, rc: int, y: (V, L), zl: L, zr: L, t: Shape<(V, L)>)
    requires Holds(s, i, t) && t.Node? && lc == i + 1 && rc == lc + Slots(t.left)
    requires s' == s[lc := (s[lc].0, zl)][rc := (s[rc].0, zr)]
    ensures Holds(s'[i := y], i, Node(y, Retag(t.left, zl), Retag(t.right, zr)))
  {
    HoldsChildren(s, i, lc, rc, t);
    var s1 := s[lc := (s[lc].0, zl)];
    RetagHolds(s, lc, t.left, zl);
    HoldsUpdate(s, rc, t.right, lc, (t.left.v.0, zl));
    RetagHolds(s1, rc, t.right, zr);
    HoldsUpdate(s1, lc, Retag(t.left, zl), rc, (t.right.v.0, zr));
    HoldsNode(s', i, lc, rc, y, Retag(t.left, zl), Retag(t.right, zr));
  }

  /** Both children of the node at slot `i` rewritten in place, one after
      the other, its root slot left as it was: the node with the new
      children is held and only its slots changed. */
  lemma JoinKept<T>(s0: seq<T>, s1: seq<T>, s2: seq<T>, i: int, lc: int, rc: int, l: int, m: int, r: int, a: Shape<T>, b: Shape<T>)
    requires l < r && m == Mid(l, r) && Fits(a, l, m) && Fits(b, m + 1, r)
    requires 0 <= i && lc == i + 1 && rc == lc + Span(l, m) && i + Span(l, r) <= |s0|
    requires SameOutside(s0, s1, lc, Span(l, m)) && Holds(s1, lc, a)
    requires SameOutside(s1, s2, rc, Span(m + 1, r)) && Holds(s2, rc, b)
    ensures Fits(Node(s0[i], a, b), l, r)
    ensures Holds(s2, i, Node(s0[i], a, b)) && SameOutside(s0, s2, i, Span(l, r))
  {
    JoinHolds(s0, s1, s2, i, lc, rc, l, m, r, s0[i], a, b);
    assert s2[i := s0[i]] == s2;
  }

  /** The children of a held node over l..r: their shapes and the slots
      `lc` and `rc` that hold them. */
  lemma NodeChildren<T>(s: seq<T>, i: int, lc: int, rc: int, l: int, m: int, r: int, p: Shape<T>)
    requires Fits(p, l, r) && l < r && m == Mid(l, r) && Holds(s, i, p)
    requires lc == i + 1 && rc == lc + Span(l, m)
    ensures Fits(p.left, l, m) && Fits(p.right, m + 1, r)
    ensures Holds(s, lc, p.left) && Holds(s, rc, p.right)
    ensures Slots(p.left) == Span(l, m) && i + Span(l, r) <= |s|
  {
    SizeSpan(p, l, r);
    SizeSpan(p.left, l, m);
  }

  /** Both children of the node at slot `i` rewritten in place, one after
      the other, and then its root slot: the new node is held and only its
      slots changed. */
  lemma JoinHolds<T>(s0: seq<T>, s1: seq<T>, s2: seq<T>, i: int, lc: int, rc: int, l: int, m: int, r: int, z: T, a: Shape<T>, b: Shape<T>)
    requires l < r && m == Mid(l, r) && Fits(a, l, m) && Fits(b, m + 1, r)
    requires 0 <= i && lc == i + 1 && rc == lc + Span(l, m) && i + Span(l, r) <= |s0|
    requires SameOutside(s0, s1, lc, Span(l, m)) && Holds(s1, lc, a)
    requires SameOutside(s1, s2, rc, Span(m + 1, r)) && Holds(s2, rc, b)
    ensures Holds(s2, lc, a) && s2[lc] == a.v && s2[rc] == b.v && s2[i] == s0[i]
    ensures Fits(Node(z, a, b), l, r)
    ensures Holds(s2[i := z], i, Node(z, a, b)) && SameOutside(s0, s2[i := z], i, Span(l, r))
  {
    SizeSpan(a, l, m);
    SizeSpan(b, m + 1, r);
    HoldsBeside(s1, s2, rc, Slots(b), lc, a);
    HoldsNode(s2, i, lc, rc, z, a, b);
  }


  lemma {:induction false} BuiltFits<V, L>(g: Operators<V, L>, source: seq<V>, l: int, r: int)
    requires 0 <= l <= r < |source|
    ensures Fits(Built(g, source, l, r), l, r)
    decreases r - l
  {
    if l < r {
      BuiltFits(g, source, l, Mid(l, r));
      BuiltFits(g, source, Mid(l, r) + 1, r);
    }
  }

  lemma {:induction false} AssignedFits<V, L>(g: Operators<V, L>, t: Shape<(V, L)>, u: int, w: V, l: int, r: int)
    requires Fits(t, l, r)
    ensures Fits(Assigned(g, t, u, w, l, r), l, r)
    decreases r - l
  {
    if l <= u <= r && l < r {
      var p := Pushed(g, t, l, r);
      AssignedNode(g, t, p, u, w, l, Mid(l, r), r);
      AssignedFits(g, p.left, u, w, l, Mid(l, r));
      AssignedFits(g, p.right, u, w, Mid(l, r) + 1, r);
    }
  }

  lemma {:induction false} TaggedFits<V, L>(g: Operators<V, L>, t: Shape<(V, L)>, u: int, v: int, w: L, l: int, r: int)
    requires Fits(t, l, r)
    ensures Fits(Tagged(g, t, u, v, w, l, r), l, r)
    decreases r - l
  {
    var p := Pushed(g, t, l, r);
    if u <= l && v >= r {
      RetagFits(p, w, l, r);
    } else if !(u > r || v < l) {
      TaggedNode(g, t, p, u, v, w, l, Mid(l, r), r);
      TaggedFits(g, p.left, u, v, w, l, Mid(l, r));
      TaggedFits(g, p.right, u, v, w, Mid(l, r) + 1, r);
    }
  }

  lemma {:induction false} QueriedFits<V, L>(g: Operators<V, L>, t: Shape<(V, L)>, u: int, v: int, l: int, r: int)
    requires Fits(t, l, r)
    ensures Fits(Queried(g, t, u, v, l, r), l, r)
    decreases r - l
  {
    var p := Pushed(g, t, l, r);
    if !(u > r || v < l || (u <= l && v >= r)) {
      QueriedNode(g, t, p, u, v, l, Mid(l, r), r);
      QueriedFits(g, p.left, u, v, l, Mid(l, r));
      QueriedFits(g, p.right, u, v, Mid(l, r) + 1, r);
    }
  }

  /** What query(u, v, idx, l, r) answers for a subtree: the aggregate of
      its positions inside u..v, nil when there are none. */
  ghost function Answer<V, L>(g: Operators<V, L>, t: Shape<(V, L)>, u: int, v: int, l: int, r: int): V
    requires Fits(t, l, r)
  {
    Fold(g.op, g.nil, Window(Actual(g, t, g.lnil, l, r), l, u, v))
  }

  /** A propagated subtree inside u..v answers with its own value. */
  lemma AnswerWhole<V(!new), L(!new)>(g: Operators<V, L>, p: Shape<(V, L)>, u: int, v: int, l: int, r: int)
    requires Lawful(g) && Distributes(g) && Associative(g.op)
    requires Fits(p, l, r) && Consistent(g, p, l, r) && p.v.1 == g.lnil && u <= l && r <= v
    ensures p.v.0 == Answer(g, p, u, v, l, r)
  {
    Aggregate(g, p, g.lnil, l, r);
    assert g.lop(g.lnil, g.lnil) == g.lnil && g.ap(p.v.0, g.lnil, l, r) == p.v.0;
    ReduceIsFold(g.op, g.nil, Actual(g, p, g.lnil, l, r));
    WindowAll(Actual(g, p, g.lnil, l, r), l, u, v);
  }

  /** propagate does not change what a subtree answers. */
  lemma AnswerPushed<V(!new), L(!new)>(g: Operators<V, L>, t: Shape<(V, L)>, u: int, v: int, l: int, r: int)
    requires Lawful(g) && Fits(t, l, r)
    ensures Answer(g, Pushed(g, t, l, r), u, v, l, r) == Answer(g, t, u, v, l, r)
  {
    PushedActual(g, t, g.lnil, l, r);
  }

  /** A subtree outside u..v answers nil. */
  lemma AnswerNone<V, L>(g: Operators<V, L>, t: Shape<(V, L)>, u: int, v: int, l: int, r: int)
    requires Fits(t, l, r) && (u > r || v < l)
    ensures Answer(g, t, u, v, l, r) == g.nil
  {
    WindowNone(Actual(g, t, g.lnil, l, r), l, u, v);
  }

  /** A propagated node answers with the aggregate of its children's
      answers. */
  lemma AnswerJoin<V(!new), L(!new)>(g: Operators<V, L>, p: Shape<(V, L)>, u: int, v: int, l: int, m: int, r: int)
    requires Lawful(g) && Associative(g.op) && Fits(p, l, r) && p.v.1 == g.lnil && l < r && m == Mid(l, r)
    ensures Fits(p.left, l, m) && Fits(p.right, m + 1, r)
    ensures Answer(g, p, u, v, l, r) == g.op(Answer(g, p.left, u, v, l, m), Answer(g, p.right, u, v, m + 1, r))
  {
    ActualNode(g, p, l, m, r);
    SegTree.FoldWindowConcat(g.op, g.nil, Actual(g, p.left, g.lnil, l, m), Actual(g, p.right, g.lnil, m + 1, r), l, m + 1, u, v);
  }
  /** What query(u, v, idx, l, r) returns, following its recursion: every
      node met is propagated; a node outside u..v gives nil, a node inside
      gives its own value, a node straddling u..v aggregates its children. */
  ghost function Answered<V, L>(g: Operators<V, L>, t: Shape<(V, L)>, u: int, v: int, l: int, r: int): V
    requires Fits(t, l, r)
    decreases r - l
  {
    var p := Pushed(g, t, l, r);
    if u > r || v < l then g.nil
    else if u <= l && v >= r then p.v.0
    else g.op(Answered(g, p.left, u, v, l, Mid(l, r)), Answered(g, p.right, u, v, Mid(l, r) + 1, r))
  }

  /** On a consistent subtree, query returns the aggregate of the positions
      of l..r inside u..v. */
  lemma {:induction false} AnsweredSound<V(!new), L(!new)>(g: Operators<V, L>, t: Shape<(V, L)>, u: int, v: int, l: int, r: int)
    requires Lawful(g) && Distributes(g) && Associative(g.op) && Fits(t, l, r) && Consistent(g, t, l, r)
    ensures Answered(g, t, u, v, l, r) == Answer(g, t, u, v, l, r)
    decreases r - l, 2
  {
    var p := Pushed(g, t, l, r);
    AnswerPushed(g, t, u, v, l, r);
    if u > r || v < l {
      AnswerNone(g, p, u, v, l, r);
    } else if u <= l && v >= r {
      PushedConsistent(g, t, l, r);
      AnswerWhole(g, p, u, v, l, r);
    } else {
      AnsweredSoundSplit(g, t, u, v, l, r);
    }
  }

  lemma {:induction false} AnsweredSoundSplit<V(!new), L(!new)>(g: Operators<V, L>, t: Shape<(V, L)>, u: int, v: int, l: int, r: int)
    requires Lawful(g) && Distributes(g) && Associative(g.op) && Fits(t, l, r) && Consistent(g, t, l, r)
    requires !(u > r || v < l) && !(u <= l && v >= r)
    ensures Answered(g, t, u, v, l, r) == Answer(g, Pushed(g, t, l, r), u, v, l, r)
    decreases r - l, 1
  {
    PushedConsistent(g, t, l, r);
    AnsweredJoin(g, Pushed(g, t, l, r), u, v, l, r);
  }

  /** At a propagated consistent node, the aggregate of what the children
      answer is what the node answers. */
  lemma {:induction false} AnsweredJoin<V(!new), L(!new)>(g: Operators<V, L>, p: Shape<(V, L)>, u: int, v: int, l: int, r: int)
    requires Lawful(g) && Distributes(g) && Associative(g.op) && Fits(p, l, r) && Consistent(g, p, l, r)
    requires p.v.1 == g.lnil && l < r
    ensures g.op(Answered(g, p.left, u, v, l, Mid(l, r)), Answered(g, p.right, u, v, Mid(l, r) + 1, r)) == Answer(g, p, u, v, l, r)
    decreases r - l, 0
  {
    var m := Mid(l, r);
    AnswerJoin(g, p, u, v, l, m, r);
    AnsweredSound(g, p.left, u, v, l, m);
    AnsweredSound(g, p.right, u, v, m + 1, r);
  }
  /** A query of u..v inside 0..n leaves the tree consistent and changes
      none of its positions. */
  lemma QueryKeeps<V(!new), L(!new)>(g: Operators<V, L>, t: Shape<(V, L)>, u: int, v: int, n: int)
    requires Lawful(g) && Distributes(g) && Fits(t, 0, n) && Consistent(g, t, 0, n)
    ensures Fits(Queried(g, t, u, v, 0, n), 0, n) && Consistent(g, Queried(g, t, u, v, 0, n), 0, n)
    ensures Actual(g, Queried(g, t, u, v, 0, n), g.lnil, 0, n) == Actual(g, t, g.lnil, 0, n)
  {
    QueriedConsistent(g, t, u, v, 0, n);
    QueriedSound(g, t, u, v, 0, n);
  }

  /** A query of u..v inside 0..n answers with the aggregate of positions
      u..v. */
  lemma QueryAnswers<V(!new), L(!new)>(g: Operators<V, L>, t: Shape<(V, L)>, u: int, v: int, n: int)
    requires Lawful(g) && Distributes(g) && Associative(g.op) && Fits(t, 0, n) && Consistent(g, t, 0, n)
    requires 0 <= u <= v <= n
    ensures Answered(g, t, u, v, 0, n) == Fold(g.op, g.nil, Actual(g, t, g.lnil, 0, n)[u..v + 1])
  {
    AnsweredSound(g, t, u, v, 0, n);
    WindowToSlice(Actual(g, t, g.lnil, 0, n), 0, u, v, n + 1);
  }

  /** build(source, idx, l, r): writes the values of the subtree over l..r
      from slot `idx` on, whose tags are already nil. The store is passed in
      and the rewritten store is returned. */
  method Build<V, L>(g: Operators<V, L>, source: seq<V>, s: seq<(V, L)>, idx: nat, l: int, r: int)
    returns (s': seq<(V, L)>, ghost t: Shape<(V, L)>)
    requires 0 <= l <= r < |source| && idx + Span(l, r) <= |s|
    requires forall k :: idx <= k < idx + Span(l, r) ==> s[k].1 == g.lnil
    ensures t == Built(g, source, l, r) && Fits(t, l, r) && Holds(s', idx, t)
    ensures SameOutside(s, s', idx, Span(l, r))
    decreases r - l, 1
  {
    if l == r {
      s' := s[idx := (source[l], s[idx].1)];
      t := Leaf((source[l], g.lnil));
      return;
    }
    s', t := BuildNode(g, source, s, idx, l, r);
  }

  /** build at a node: both children, then the root slot. */
  method BuildNode<V, L>(g: Operators<V, L>, source: seq<V>, s: seq<(V, L)>, idx: nat, l: int, r: int)
    returns (s': seq<(V, L)>, ghost t: Shape<(V, L)>)
    requires 0 <= l < r < |source| && idx + Span(l, r) <= |s|
    requires forall k :: idx <= k < idx + Span(l, r) ==> s[k].1 == g.lnil
    ensures t == Built(g, source, l, r) && Fits(t, l, r) && Holds(s', idx, t)
    ensures SameOutside(s, s', idx, Span(l, r))
    decreases r - l, 0
  {
    var ix := ComputeIndices(idx, l, r);
    var lc, rc, m := ix.0, ix.1, ix.2;
    var s1, a := Build(g, source, s, lc, l, m);
    assert a == Built(g, source, l, Mid(l, r));
    var s2, b := Build(g, source, s1, rc, m + 1, r);
    assert b == Built(g, source, Mid(l, r) + 1, r);
    var z := (g.op(a.v.0, b.v.0), g.lnil);
    JoinHolds(s, s1, s2, idx, lc, rc, l, m, r, z, a, b);
    s' := s2[idx := (g.op(s2[lc].0, s2[rc].0), s2[idx].1)];
    t := Node(z, a, b);
  }

  /** propagate(idx, l, r): a non-nil tag is composed into both children's
      tags, applied to the node's value and reset to nil. */
  method Propagate<V, L(==)>(g: Operators<V, L>, s: seq<(V, L)>, idx: nat, l: int, r: int, ghost t: Shape<(V, L)>)
    returns (s': seq<(V, L)>, ghost t': Shape<(V, L)>)
    requires Fits(t, l, r) && Holds(s, idx, t)
    ensures t' == Pushed(g, t, l, r) && Holds(s', idx, t')
    ensures SameOutside(s, s', idx, Span(l, r))
  {
    SizeSpan(t, l, r);
    var z := s[idx].1;
    if z == g.lnil {
      return s, t;
    }
    var x := g.ap(s[idx].0, z, l, r);
    s' := s;
    if l != r {
      var ix := ComputeIndices(idx, l, r);
      var lc, rc := ix.0, ix.1;
      NodeChildren(s, idx, lc, rc, l, ix.2, r, t);
      var zl := g.lop(s[lc].1, z);
      var zr := g.lop(s[rc].1, z);
      s' := s[lc := (s[lc].0, zl)][rc := (s[rc].0, zr)];
      PushHolds(s, s', idx, lc, rc, (x, g.lnil), zl, zr, t);
    }
    s' := s'[idx := (x, g.lnil)];
    t' := Pushed(g, t, l, r);
  }

  /** set(u, w, idx, l, r): position `u`, if inside l..r, becomes `w`;
      every node met is propagated and those above `u` recombined. */
  method SetAt<V, L(==)>(g: Operators<V, L>, s: seq<(V, L)>, u: int, w: V, idx: nat, l: int, r: int, ghost t: Shape<(V, L)>)
    returns (s': seq<(V, L)>, ghost t': Shape<(V, L)>)
    requires Fits(t, l, r) && Holds(s, idx, t)
    ensures t' == Assigned(g, t, u, w, l, r) && Fits(t', l, r) && Holds(s', idx, t')
    ensures SameOutside(s, s', idx, Span(l, r))
    decreases r - l, 2
  {
    var s0, p := Propagate(g, s, idx, l, r, t);
    if u > r || u < l {
      return s0, p;
    }
    if u == l && u == r {
      s' := s0[idx := (w, s0[idx].1)];
      t' := Leaf((w, g.lnil));
    } else {
      AssignedNode(g, t, p, u, w, l, Mid(l, r), r);
      s', t' := SetNode(g, s0, u, w, idx, l, r, p);
    }
    SameOutsideTrans(s, s0, s', idx, Span(l, r));
  }

  /** set at a propagated node: both children, then the root slot. */
  method SetNode<V, L(==)>(g: Operators<V, L>, s: seq<(V, L)>, u: int, w: V, idx: nat, l: int, r: int, ghost p: Shape<(V, L)>)
    returns (s': seq<(V, L)>, ghost t': Shape<(V, L)>)
    requires l < r && Fits(p, l, r) && p.v.1 == g.lnil && Holds(s, idx, p)
    ensures var m := Mid(l, r);
            var a := Assigned(g, p.left, u, w, l, m);
            var b := Assigned(g, p.right, u, w, m + 1, r);
            t' == Node((g.op(a.v.0, b.v.0), g.lnil), a, b)
    ensures Fits(t', l, r) && Holds(s', idx, t')
    ensures SameOutside(s, s', idx, Span(l, r))
    decreases r - l, 1
  {
    var ix := ComputeIndices(idx, l, r);
    var lc, rc, m := ix.0, ix.1, ix.2;
    NodeChildren(s, idx, lc, rc, l, m, r, p);
    var s1, a := SetAt(g, s, u, w, lc, l, m, p.left);
    assert a == Assigned(g, p.left, u, w, l, Mid(l, r));
    HoldsBeside(s, s1, lc, Span(l, m), rc, p.right);
    var m1 := m + 1;
    s', t' := SetRight(g, s, s1, u, w, idx, lc, rc, l, m, m1, r, p.right, a);
  }

  /** The second half of set at a node: the right child, then the
      root slot, once the left child `a` is in place in `s1`. */
  method SetRight<V, L(==)>(g: Operators<V, L>, s: seq<(V, L)>, s1: seq<(V, L)>, u: int, w: V, idx: nat, lc: int, rc: int, l: int, m: int, m1: int, r: int, ghost pr: Shape<(V, L)>, ghost a: Shape<(V, L)>)
    returns (s': seq<(V, L)>, ghost t': Shape<(V, L)>)
    requires l < r && m == Mid(l, r) && m1 == m + 1 && lc == idx + 1 && rc == lc + Span(l, m)
    requires idx + Span(l, r) <= |s| && s[idx].1 == g.lnil
    requires Fits(pr, m1, r) && Holds(s1, rc, pr)
    requires Fits(a, l, m) && Holds(s1, lc, a) && SameOutside(s, s1, lc, Span(l, m))
    ensures var b := Assigned(g, pr, u, w, m1, r);
            t' == Node((g.op(a.v.0, b.v.0), g.lnil), a, b)
    ensures Fits(t', l, r) && Holds(s', idx, t')
    ensures SameOutside(s, s', idx, Span(l, r))
    decreases r - l, 0
  {
    var s2, b := SetAt(g, s1, u, w, rc, m1, r, pr);
    var z := (g.op(a.v.0, b.v.0), g.lnil);
    JoinHolds(s, s1, s2, idx, lc, rc, l, m, r, z, a, b);
    s' := s2[idx := (g.op(s2[lc].0, s2[rc].0), s2[idx].1)];
    t' := Node(z, a, b);
  }

  /** update(u, v, w, idx, l, r): a node inside u..v takes the tag `w`
      and is propagated at once; a node straddling u..v recurses and is
      recombined. */
  method UpdateAt<V, L(==)>(g: Operators<V, L>, s: seq<(V, L)>, u: int, v: int, w: L, idx: nat, l: int, r: int, ghost t: Shape<(V, L)>)
    returns (s': seq<(V, L)>, ghost t': Shape<(V, L)>)
    requires Fits(t, l, r) && Holds(s, idx, t)
    ensures t' == Tagged(g, t, u, v, w, l, r) && Fits(t', l, r) && Holds(s', idx, t')
    ensures SameOutside(s, s', idx, Span(l, r))
    decreases r - l, 2
  {
    var s0, p := Propagate(g, s, idx, l, r, t);
    if u > r || v < l {
      return s0, p;
    }
    if u <= l && v >= r {
      RetagHolds(s0, idx, p, w);
      RetagFits(p, w, l, r);
      var s1 := s0[idx := (s0[idx].0, w)];
      s', t' := Propagate(g, s1, idx, l, r, Retag(p, w));
      SameOutsideTrans(s0, s1, s', idx, Span(l, r));
    } else {
      TaggedNode(g, t, p, u, v, w, l, Mid(l, r), r);
      s', t' := UpdateNode(g, s0, u, v, w, idx, l, r, p);
    }
    SameOutsideTrans(s, s0, s', idx, Span(l, r));
  }

  /** update at a propagated node straddling u..v: both children, then the
      root slot. */
  method UpdateNode<V, L(==)>(g: Operators<V, L>, s: seq<(V, L)>, u: int, v: int, w: L, idx: nat, l: int, r: int, ghost p: Shape<(V, L)>)
    returns (s': seq<(V, L)>, ghost t': Shape<(V, L)>)
    requires l < r && Fits(p, l, r) && p.v.1 == g.lnil && Holds(s, idx, p)
    ensures var m := Mid(l, r);
            var a := Tagged(g, p.left, u, v, w, l, m);
            var b := Tagged(g, p.right, u, v, w, m + 1, r);
            t' == Node((g.op(a.v.0, b.v.0), g.lnil), a, b)
    ensures Fits(t', l, r) && Holds(s', idx, t')
    ensures SameOutside(s, s', idx, Span(l, r))
    decreases r - l, 1
  {
    var ix := ComputeIndices(idx, l, r);
    var lc, rc, m := ix.0, ix.1, ix.2;
    NodeChildren(s, idx, lc, rc, l, m, r, p);
    var s1, a := UpdateAt(g, s, u, v, w, lc, l, m, p.left);
    assert a == Tagged(g, p.left, u, v, w, l, Mid(l, r));
    HoldsBeside(s, s1, lc, Span(l, m), rc, p.right);
    var m1 := m + 1;
    s', t' := UpdateRight(g, s, s1, u, v, w, idx, lc, rc, l, m, m1, r, p.right, a);
  }

  /** The second half of update at a node: the right child, then the
      root slot, once the left child `a` is in place in `s1`. */
  method UpdateRight<V, L(==)>(g: Operators<V, L>, s: seq<(V, L)>, s1: seq<(V, L)>, u: int, v: int, w: L, idx: nat, lc: int, rc: int, l: int, m: int, m1: int, r: int, ghost pr: Shape<(V, L)>, ghost a: Shape<(V, L)>)
    returns (s': seq<(V, L)>, ghost t': Shape<(V, L)>)
    requires l < r && m == Mid(l, r) && m1 == m + 1 && lc == idx + 1 && rc == lc + Span(l, m)
    requires idx + Span(l, r) <= |s| && s[idx].1 == g.lnil
    requires Fits(pr, m1, r) && Holds(s1, rc, pr)
    requires Fits(a, l, m) && Holds(s1, lc, a) && SameOutside(s, s1, lc, Span(l, m))
    ensures var b := Tagged(g, pr, u, v, w, m1, r);
            t' == Node((g.op(a.v.0, b.v.0), g.lnil), a, b)
    ensures Fits(t', l, r) && Holds(s', idx, t')
    ensures SameOutside(s, s', idx, Span(l, r))
    decreases r - l, 0
  {
    var s2, b := UpdateAt(g, s1, u, v, w, rc, m1, r, pr);
    var z := (g.op(a.v.0, b.v.0), g.lnil);
    JoinHolds(s, s1, s2, idx, lc, rc, l, m, r, z, a, b);
    s' := s2[idx := (g.op(s2[lc].0, s2[rc].0), s2[idx].1)];
    t' := Node(z, a, b);
  }

  /** query(u, v, idx, l, r): the aggregate of the positions of l..r inside
      u..v; every node met is propagated. */
  method QueryAt<V, L(==)>(g: Operators<V, L>, s: seq<(V, L)>, u: int, v: int, idx: nat, l: int, r: int, ghost t: Shape<(V, L)>)
    returns (res: V, s': seq<(V, L)>, ghost t': Shape<(V, L)>)
    requires Fits(t, l, r) && Holds(s, idx, t)
    ensures res == Answered(g, t, u, v, l, r)
    ensures t' == Queried(g, t, u, v, l, r) && Fits(t', l, r) && Holds(s', idx, t')
    ensures SameOutside(s, s', idx, Span(l, r))
    decreases r - l, 1
  {
    var s0, p := Propagate(g, s, idx, l, r, t);
    if u > r || v < l {
      return g.nil, s0, p;
    }
    if u <= l && v >= r {
      return s0[idx].0, s0, p;
    }
    QueriedNode(g, t, p, u, v, l, Mid(l, r), r);
    res, s', t' := QueryNode(g, s0, u, v, idx, l, r, p);
    SameOutsideTrans(s, s0, s', idx, Span(l, r));
  }

  /** query at a propagated node straddling u..v: the aggregate of both
      children's answers. */
  method QueryNode<V, L(==)>(g: Operators<V, L>, s: seq<(V, L)>, u: int, v: int, idx: nat, l: int, r: int, ghost p: Shape<(V, L)>)
    returns (res: V, s': seq<(V, L)>, ghost t': Shape<(V, L)>)
    requires l < r && Fits(p, l, r) && p.v.1 == g.lnil && Holds(s, idx, p)
    ensures var m := Mid(l, r);
            res == g.op(Answered(g, p.left, u, v, l, m), Answered(g, p.right, u, v, m + 1, r))
    ensures t' == Node(p.v, Queried(g, p.left, u, v, l, Mid(l, r)), Queried(g, p.right, u, v, Mid(l, r) + 1, r))
    ensures Fits(t', l, r) && Holds(s', idx, t')
    ensures SameOutside(s, s', idx, Span(l, r))
    decreases r - l, 0
  {
    var ix := ComputeIndices(idx, l, r);
    var lc, rc, m := ix.0, ix.1, ix.2;
    NodeChildren(s, idx, lc, rc, l, m, r, p);
    var ra, s1, a := QueryAt(g, s, u, v, lc, l, m, p.left);
    assert a == Queried(g, p.left, u, v, l, Mid(l, r));
    HoldsBeside(s, s1, lc, Span(l, m), rc, p.right);
    var rb, s2, b := QueryAt(g, s1, u, v, rc, m + 1, r, p.right);
    assert b == Queried(g, p.right, u, v, Mid(l, r) + 1, r);
    JoinKept(s, s1, s2, idx, lc, rc, l, m, r, a, b);
    res, s' := g.op(ra, rb), s2;
    t' := Node(p.v, a, b);
  }

  /** A lazy segment tree over `len` positions. Slot k of `slots` holds
      val_store[k] and lazy_store[k]; the slots hold the tree `shape` in
      pre-order from slot 0. */
  class LazySegTree<V(!new), L(==, !new)> {
    var slots: seq<(V, L)>
    const g: Operators<V, L>
    const len: nat
    /** The tree the slots encode. */
    ghost var shape: Shape<(V, L)>

    ghost predicate Valid()
      reads this
    {
      |slots| == 2 * len &&
      Lawful(g) && Distributes(g) && Associative(g.op) &&
      (len > 0 ==> Fits(shape, 0, len - 1) && Holds(slots, 0, shape) && Consistent(g, shape, 0, len - 1))
    }

    /** The sequence of `len` values the tree represents, every pending
        tag applied. */
    ghost function Elements(): seq<V>
      reads this
      requires Valid()
    {
      if len == 0 then [] else Actual(g, shape, g.lnil, 0, len - 1)
    }

    /** LazySegTree(size, nil_value, nil_lazy), and StaticLazySegTree(nil_value,
        nil_lazy) with `size` = Size: every value nil, every tag nil. */
    constructor Sized(g: Operators<V, L>, size: nat)
      requires Lawful(g) && Distributes(g) && Associative(g.op)
      ensures Valid() && Elements() == seq(size, _ => g.nil)
      ensures this.g == g && len == size
    {
      this.g := g;
      len := size;
      var z := (g.nil, g.lnil);
      var s := seq(2 * size, _ => z);
      slots := s;
      if size > 0 {
        shape := SegTree.NilShape(z, 0, size - 1);
        SegTree.NilHolds(s, 0, z, 0, size - 1);
        NilConsistent(g, 0, size - 1);
        NilActual(g, 0, size - 1);
      } else {
        shape := Leaf(z);
      }
    }

    /** LazySegTree(source, nil_value, nil_lazy): builds over the whole
        source, which must not be empty (building an empty source writes
        past the stores). */
    constructor FromSeq(g: Operators<V, L>, source: seq<V>)
      requires Lawful(g) && Distributes(g) && Associative(g.op) && |source| > 0
      ensures Valid() && Elements() == source
      ensures this.g == g && len == |source|
    {
      this.g := g;
      len := |source|;
      slots := seq(2 * |source|, _ => (g.nil, g.lnil));
      shape := Leaf((g.nil, g.lnil));
      new;
      Install(source, |source|);
      assert source[0..|source|] == source;
    }

    /** StaticLazySegTree(source, nil_value, nil_lazy): builds over the first
        `size` values of the source and sets every tag to nil. */
    constructor StaticFromSeq(g: Operators<V, L>, source: seq<V>, size: nat)
      requires Lawful(g) && Distributes(g) && Associative(g.op) && 0 < size <= |source|
      ensures Valid() && Elements() == source[..size]
      ensures this.g == g && len == size
    {
      this.g := g;
      len := size;
      slots := seq(2 * size, _ => (g.nil, g.lnil));
      shape := Leaf((g.nil, g.lnil));
      new;
      Install(source, size);
    }

    /** The constructors' call build(source, 0, 0, size - 1) on slots whose
        tags are all nil. */
    method Install(source: seq<V>, size: nat)
      requires 0 < size <= |source| && len == size && |slots| == 2 * size
      requires Lawful(g) && Distributes(g) && Associative(g.op)
      requires forall k :: 0 <= k < |slots| ==> slots[k].1 == g.lnil
      modifies this
      ensures Valid() && Elements() == source[0..size]
    {
      var n := size - 1;
      BuiltSound(g, source, 0, n);
      ghost var t;
      slots, t := Build(g, source, slots, 0, 0, n);
      shape := t;
    }

    /** set(pos, value). */
    method Set(pos: int, value: V)
      requires Valid() && 0 <= pos < len
      modifies this
      ensures Valid() && Elements() == old(Elements())[pos := value]
    {
      ghost var t0 := shape;
      var n := len - 1;
      AssignedConsistent(g, t0, pos, value, 0, n);
      AssignedSound(g, t0, pos, value, 0, n);
      ghost var t;
      slots, t := SetAt(g, slots, pos, value, 0, 0, n, t0);
      shape := t;
    }

    /** update(left, right, lazy): the tag is applied to every position of
        left..right. */
    method Update(left: int, right: int, lazy: L)
      requires Valid() && 0 <= left <= right < len
      modifies this
      ensures Valid() && Elements() == Applied(g, old(Elements()), 0, left, right, lazy)
    {
      ghost var t0 := shape;
      var n := len - 1;
      TaggedConsistent(g, t0, left, right, lazy, 0, n);
      TaggedSound(g, t0, left, right, lazy, 0, n);
      ghost var t;
      slots, t := UpdateAt(g, slots, left, right, lazy, 0, 0, n, t0);
      shape := t;
    }

    /** query(left, right), inclusive. The slots are rewritten (pending tags
        move down), but no position changes. */
    method Query(left: int, right: int) returns (res: V)
      requires Valid() && 0 <= left <= right < len
      modifies this
      ensures Valid() && Elements() == old(Elements())
      ensures res == Fold(g.op, g.nil, Elements()[left..right + 1])
    {
      ghost var t0 := shape;
      var n := len - 1;
      QueryKeeps(g, t0, left, right, n);
      QueryAnswers(g, t0, left, right, n);
      ghost var t;
      res, slots, t := QueryAt(g, slots, left, right, 0, 0, n, t0);
      shape := t;
    }

    function Size(): (n: nat)
      reads this
      requires Valid()
      ensures n == |Elements()|
    {
      len
    }
  }

  /** Range add with range sum: a tag adds its amount to every position,
      so applied to the aggregate over l..r it adds amount * (r - l + 1). */
  function RangeAdd(): (g: Operators<int, int>)
    ensures g.op(2, 3) == 5 && g.ap(7, 10, 1, 3) == 37
  {
    Operators((a: int, b: int) => a + b, 0, (a: int, b: int) => a + b, 0,
              (x: int, a: int, l: int, r: int) => x + a * (r - l + 1))
  }

  lemma AddTwice(x: int, a: int, b: int, n: int)
    ensures (x + a * n) + b * n == x + (a + b) * n
  {
    assert a * n + b * n == (a + b) * n;
  }

  lemma AddSplit(a: int, l: int, m: int, r: int)
    ensures a * (r - l + 1) == a * (m - l + 1) + a * (r - (m + 1) + 1)
  {
    assert (r - l + 1) == (m - l + 1) + (r - (m + 1) + 1);
  }

  lemma RangeAddMonoids()
    ensures Identity(RangeAdd().op, 0) && TagMonoid(RangeAdd()) && Associative(RangeAdd().op)
  {
  }

  lemma RangeAddNilTag()
    ensures forall x, l, r :: RangeAdd().ap(x, 0, l, r) == x
  {
  }

  lemma RangeAddCompose()
    ensures forall x, a, b, l, r {:trigger RangeAdd().ap(RangeAdd().ap(x, a, l, r), b, l, r)} ::
      RangeAdd().ap(RangeAdd().ap(x, a, l, r), b, l, r) == RangeAdd().ap(x, a + b, l, r)
  {
    forall x: int, a: int, b: int, l: int, r: int
      ensures RangeAdd().ap(RangeAdd().ap(x, a, l, r), b, l, r) == RangeAdd().ap(x, a + b, l, r)
    {
      AddTwice(x, a, b, r - l + 1);
    }
  }

  lemma RangeAddDistributes()
    ensures Distributes(RangeAdd())
  {
    var g := RangeAdd();
    forall x: int, y: int, a: int, l: int, r: int | l < r
      ensures g.ap(g.op(x, y), a, l, r) == g.op(g.ap(x, a, l, Mid(l, r)), g.ap(y, a, Mid(l, r) + 1, r))
    {
      AddSplit(a, l, Mid(l, r), r);
    }
  }

  /** Range add with range sum meets the laws the tree relies on. */
  lemma RangeAddLawful()
    ensures Lawful(RangeAdd()) && Distributes(RangeAdd()) && Associative(RangeAdd().op)
  {
    RangeAddMonoids();
    RangeAddNilTag();
    RangeAddCompose();
    RangeAddDistributes();
  }

  /** Adding 10 to positions 1..3 of [1, 2, 3, 4, 5]. */
  lemma RangeAddApplied(e: seq<int>)
    requires e == [1, 2, 3, 4, 5]
    ensures Applied(RangeAdd(), e, 0, 1, 3, 10) == [1, 12, 13, 14, 5]
  {
  }

  /** The sums of [1, 12, 13, 14, 5] and of its middle three values. */
  lemma RangeAddSums(e: seq<int>)
    requires e == [1, 12, 13, 14, 5]
    ensures Fold(RangeAdd().op, RangeAdd().nil, e[0..5]) == 45
    ensures Fold(RangeAdd().op, RangeAdd().nil, e[1..4]) == 39
  {
    assert e[0..5] == [1, 12, 13, 14, 5];
    assert e[1..4] == [12, 13, 14];
  }

  /** A range-add, range-sum tree over [1, 2, 3, 4, 5]. */
  method RangeAddStart() returns (t: LazySegTree<int, int>)
    ensures fresh(t) && t.Valid() && t.g == RangeAdd() && t.len == 5 && t.Elements() == [1, 2, 3, 4, 5]
  {
    RangeAddLawful();
    t := new LazySegTree<int, int>.FromSeq(RangeAdd(), [1, 2, 3, 4, 5]);
  }

  /** A range-add, range-sum tree over [1, 2, 3, 4, 5], after adding 10
      to positions 1..3. */
  method RangeAddTree() returns (t: LazySegTree<int, int>)
    ensures fresh(t) && t.Valid() && t.g == RangeAdd() && t.Elements() == [1, 12, 13, 14, 5]
  {
    t := RangeAddStart();
    RangeAddApplied(t.Elements());
    t.Update(1, 3, 10);
  }

  /** Adding 10 to positions 1..3 of [1, 2, 3, 4, 5] gives [1, 12, 13, 14, 5]:
      the whole range then sums to 45 and positions 1..3 to 39. */
  method RangeAddScenario() returns (total: int, middle: int)
    ensures total == 45 && middle == 39
  {
    var t := RangeAddTree();
    RangeAddSums(t.Elements());
    total := t.Query(0, 4);
    middle := t.Query(1, 3);
  }
}
