/** The segment tree of segtree.hpp: point assignment / point combination and
    inclusive range aggregation over a caller-supplied monoid (op, nil). The
    store is a vector of 2n slots in the pre-order layout of `SegTreeLayout`;
    the tree it encodes is tracked by the ghost field `shape`. `StaticSegTree`,
    the same algorithm over a `std::array` whose size is a template
    parameter, is modelled by the `Sized` and `StaticFromSeq` constructors. */
module SegTree {
  import opened Algebra
  import opened SegTreeLayout

  /** The positions covered by a subtree, left to right. */
  ghost function Leaves<V>(t: Shape<V>): (e: seq<V>)
    ensures |e| > 0
  {
    match t
    case Leaf(v) => [v]
    case Node(_, a, b) => Leaves(a) + Leaves(b)
  }

  lemma {:induction false} LeavesSize<V>(t: Shape<V>, l: int, r: int)
    requires Fits(t, l, r)
    ensures |Leaves(t)| == r - l + 1
    decreases r - l
  {
    if l < r {
      LeavesSize(t.left, l, Mid(l, r));
      LeavesSize(t.right, Mid(l, r) + 1, r);
    }
  }

  /** Every internal slot holds op of its two children's slots. */
  ghost predicate Inv<V>(op: (V, V) -> V, t: Shape<V>) {
    match t
    case Leaf(_) => true
    case Node(v, a, b) => v == op(a.v, b.v) && Inv(op, a) && Inv(op, b)
  }

  /** Each slot caches the aggregate of its positions (the segment tree's
      central invariant). */
  lemma {:induction false} SlotIsReduce<V(!new)>(op: (V, V) -> V, t: Shape<V>)
    requires Associative(op) && Inv(op, t)
    ensures t.v == Reduce(op, Leaves(t))
  {
    if t.Node? {
      SlotIsReduce(op, t.left);
      SlotIsReduce(op, t.right);
      ReduceConcat(op, Leaves(t.left), Leaves(t.right));
    }
  }

  /** The subtree build(source, idx, l, r) writes. */
  ghost function Built<V>(op: (V, V) -> V, source: seq<V>, l: int, r: int): Shape<V>
    requires 0 <= l <= r < |source|
    decreases r - l
  {
    if l == r then Leaf(source[l])
    else
      var a := Built(op, source, l, Mid(l, r));
      var b := Built(op, source, Mid(l, r) + 1, r);
      Node(op(a.v, b.v), a, b)
  }

  /** build at an internal node builds both halves. */
  lemma BuiltNode<V>(op: (V, V) -> V, source: seq<V>, l: int, m: int, r: int)
    requires 0 <= l < r < |source| && m == Mid(l, r)
    ensures var a := Built(op, source, l, m);
            var b := Built(op, source, m + 1, r);
            Built(op, source, l, r) == Node(op(a.v, b.v), a, b)
  {
  }

  lemma {:induction false} BuiltFits<V>(op: (V, V) -> V, source: seq<V>, l: int, r: int)
    requires 0 <= l <= r < |source|
    ensures Fits(Built(op, source, l, r), l, r)
    decreases r - l
  {
    if l < r {
      BuiltFits(op, source, l, Mid(l, r));
      BuiltFits(op, source, Mid(l, r) + 1, r);
    }
  }

  /** After build the subtree holds source[l..r]. */
  lemma {:induction false} BuiltLeaves<V>(op: (V, V) -> V, source: seq<V>, l: int, r: int)
    requires 0 <= l <= r < |source|
    ensures Leaves(Built(op, source, l, r)) == source[l..r + 1]
    decreases r - l
  {
    if l == r {
      assert source[l..l + 1] == [source[l]];
    } else {
      var m := Mid(l, r);
      BuiltLeaves(op, source, l, m);
      BuiltLeaves(op, source, m + 1, r);
      assert source[l..r + 1] == source[l..m + 1] + source[m + 1..r + 1];
    }
  }

  /** After build every internal slot is consistent. */
  lemma {:induction false} BuiltInv<V>(op: (V, V) -> V, source: seq<V>, l: int, r: int)
    requires 0 <= l <= r < |source|
    ensures Inv(op, Built(op, source, l, r))
    decreases r - l
  {
    if l < r {
      BuiltInv(op, source, l, Mid(l, r));
      BuiltInv(op, source, Mid(l, r) + 1, r);
    }
  }

  /** The subtree of a store filled with nil. */
  ghost function NilShape<V>(nil: V, l: int, r: int): Shape<V>
    requires l <= r
    decreases r - l
  {
    if l == r then Leaf(nil)
    else Node(nil, NilShape(nil, l, Mid(l, r)), NilShape(nil, Mid(l, r) + 1, r))
  }

  lemma {:induction false} NilFits<V>(nil: V, l: int, r: int)
    requires l <= r
    ensures Fits(NilShape(nil, l, r), l, r)
    decreases r - l
  {
    if l < r {
      NilFits(nil, l, Mid(l, r));
      NilFits(nil, Mid(l, r) + 1, r);
    }
  }

  lemma Constant<V>(x: V, a: nat, b: nat)
    ensures seq(a, _ => x) + seq(b, _ => x) == seq(a + b, _ => x)
  {
  }

  /** A store filled with nil holds the all-nil subtree ... */
  lemma {:induction false} NilHolds<V>(s: seq<V>, idx: int, nil: V, l: int, r: int)
    requires l <= r && 0 <= idx && idx + Span(l, r) <= |s|
    requires forall k :: 0 <= k < |s| ==> s[k] == nil
    ensures Holds(s, idx, NilShape(nil, l, r))
    decreases r - l
  {
    var t := NilShape(nil, l, r);
    NilFits(nil, l, r);
    SizeSpan(t, l, r);
    if l < r {
      var m := Mid(l, r);
      SizeSpan(t.left, l, m);
      NilHolds(s, idx + 1, nil, l, m);
      NilHolds(s, idx + 1 + Span(l, m), nil, m + 1, r);
    }
  }

  /** ... which holds only nil ... */
  lemma {:induction false} NilLeaves<V>(nil: V, l: int, r: int)
    requires l <= r
    ensures Leaves(NilShape(nil, l, r)) == seq(r - l + 1, _ => nil)
    decreases r - l
  {
    if l < r {
      var m := Mid(l, r);
      NilLeaves(nil, l, m);
      NilLeaves(nil, m + 1, r);
      Constant(nil, m - l + 1, r - m);
    }
  }

  /** ... and is consistent when nil is idempotent under op. */
  lemma {:induction false} NilInv<V>(op: (V, V) -> V, nil: V, l: int, r: int)
    requires l <= r && op(nil, nil) == nil
    ensures Inv(op, NilShape(nil, l, r))
    decreases r - l
  {
    if l < r {
      NilInv(op, nil, l, Mid(l, r));
      NilInv(op, nil, Mid(l, r) + 1, r);
    }
  }

  /** The sequence after a point change at position `u`: replaced by `w`, or
      combined with it; unchanged when `u` is outside. */
  function Changed<V>(op: (V, V) -> V, e: seq<V>, replace: bool, u: int, w: V): (e': seq<V>)
    ensures |e'| == |e|
  {
    if 0 <= u < |e| then e[u := if replace then w else op(e[u], w)] else e
  }

  lemma ChangedConcat<V>(op: (V, V) -> V, x: seq<V>, y: seq<V>, replace: bool, u: int, w: V)
    ensures Changed(op, x + y, replace, u, w) == Changed(op, x, replace, u, w) + Changed(op, y, replace, u - |x|, w)
  {
  }

  /** The subtree after mutate<replace>(u, w, idx, l, r). */
  ghost function Mutated<V>(op: (V, V) -> V, t: Shape<V>, replace: bool, u: int, w: V, l: int, r: int): (t': Shape<V>)
    requires Fits(t, l, r)
    ensures Slots(t') == Slots(t)
    decreases r - l
  {
    if u > r || u < l then t
    else if u == l && u == r then Leaf(if replace then w else op(t.v, w))
    else
      var m := Mid(l, r);
      var a := if u <= m then Mutated(op, t.left, replace, u, w, l, m) else t.left;
      var b := if u <= m then t.right else Mutated(op, t.right, replace, u, w, m + 1, r);
      Node(op(a.v, b.v), a, b)
  }

  lemma {:induction false} MutatedFits<V>(op: (V, V) -> V, t: Shape<V>, replace: bool, u: int, w: V, l: int, r: int)
    requires Fits(t, l, r)
    ensures Fits(Mutated(op, t, replace, u, w, l, r), l, r)
    decreases r - l
  {
    if l <= u <= r && l < r {
      if u <= Mid(l, r) {
        MutatedFits(op, t.left, replace, u, w, l, Mid(l, r));
      } else {
        MutatedFits(op, t.right, replace, u, w, Mid(l, r) + 1, r);
      }
    }
  }

  /** After mutate the subtree holds its old positions with position `u`
      changed. */
  lemma {:induction false} MutatedLeaves<V>(op: (V, V) -> V, t: Shape<V>, replace: bool, u: int, w: V, l: int, r: int)
    requires Fits(t, l, r)
    ensures Leaves(Mutated(op, t, replace, u, w, l, r)) == Changed(op, Leaves(t), replace, u - l, w)
    decreases r - l
  {
    if l <= u <= r && l < r {
      var m := Mid(l, r);
      LeavesSize(t.left, l, m);
      if u <= m {
        MutatedLeaves(op, t.left, replace, u, w, l, m);
      } else {
        MutatedLeaves(op, t.right, replace, u, w, m + 1, r);
      }
      ChangedConcat(op, Leaves(t.left), Leaves(t.right), replace, u - l, w);
    } else if l == r {
      assert Leaves(t) == [t.v];
    } else {
      LeavesSize(t, l, r);
    }
  }

  /** mutate at an internal node with `u` on the left changes only the left
      child ... */
  lemma MutatedLeft<V>(op: (V, V) -> V, t: Shape<V>, replace: bool, u: int, w: V, l: int, m: int, r: int)
    requires l < r && m == Mid(l, r) && Fits(t, l, r) && l <= u <= m
    ensures var a := Mutated(op, t.left, replace, u, w, l, m);
            Mutated(op, t, replace, u, w, l, r) == Node(op(a.v, t.right.v), a, t.right)
  {
  }

  /** ... and with `u` on the right only the right child. */
  lemma MutatedRight<V>(op: (V, V) -> V, t: Shape<V>, replace: bool, u: int, w: V, l: int, m: int, r: int)
    requires l < r && m == Mid(l, r) && Fits(t, l, r) && m < u <= r
    ensures var b := Mutated(op, t.right, replace, u, w, m + 1, r);
            Mutated(op, t, replace, u, w, l, r) == Node(op(t.left.v, b.v), t.left, b)
  {
  }

  /** mutate keeps every internal slot consistent. */
  lemma {:induction false} MutatedInv<V>(op: (V, V) -> V, t: Shape<V>, replace: bool, u: int, w: V, l: int, r: int)
    requires Fits(t, l, r) && Inv(op, t)
    ensures Inv(op, Mutated(op, t, replace, u, w, l, r))
    decreases r - l
  {
    if l <= u <= r && l < r {
      var m := Mid(l, r);
      if u <= m {
        MutatedInv(op, t.left, replace, u, w, l, m);
      } else {
        MutatedInv(op, t.right, replace, u, w, m + 1, r);
      }
    }
  }

  /** query(u, v, idx, l, r) on store `s` holding the subtree `t` over
      l..r: nil when l..r misses u..v, the node's own slot when u..v covers
      l..r, otherwise op of the two children's answers. */
  function QueryRange<V>(op: (V, V) -> V, nil: V, s: seq<V>, u: int, v: int, idx: int, l: int, r: int,
                         ghost t: Shape<V>): V
    requires Fits(t, l, r) && Holds(s, idx, t)
    decreases r - l
  {
    if u > r || v < l then nil
    else if u <= l && v >= r then s[idx]
    else
      var ix := ComputeIndices(idx, l, r);
      SizeSpan(t.left, l, ix.2);
      op(QueryRange(op, nil, s, u, v, ix.0, l, ix.2, t.left), QueryRange(op, nil, s, u, v, ix.1, ix.2 + 1, r, t.right))
  }

  /** The query answers with the aggregate of the positions of l..r that
      fall inside u..v, nil when there are none. */
  lemma {:induction false} QueryRangeFold<V(!new)>(op: (V, V) -> V, nil: V, s: seq<V>, u: int, v: int, idx: int, l: int, r: int,
                                                  t: Shape<V>)
    requires Monoid(op, nil) && Fits(t, l, r) && Holds(s, idx, t) && Inv(op, t)
    ensures QueryRange(op, nil, s, u, v, idx, l, r, t) == Fold(op, nil, Window(Leaves(t), l, u, v))
    decreases r - l, 1
  {
    if u > r || v < l {
      LeavesSize(t, l, r);
      WindowNone(Leaves(t), l, u, v);
    } else if u <= l && v >= r {
      QueryWhole(op, nil, t, u, v, l, r);
    } else {
      QueryRangeSplit(op, nil, s, u, v, idx, l, r, t);
    }
  }

  /** At a node straddling u..v, the children's queries aggregate to the
      node's window. */
  lemma {:induction false} QueryRangeSplit<V(!new)>(op: (V, V) -> V, nil: V, s: seq<V>, u: int, v: int, idx: int, l: int, r: int,
                                                   t: Shape<V>)
    requires Monoid(op, nil) && Fits(t, l, r) && Holds(s, idx, t) && Inv(op, t)
    requires !(u > r || v < l) && !(u <= l && v >= r)
    ensures QueryRange(op, nil, s, u, v, idx, l, r, t) == Fold(op, nil, Window(Leaves(t), l, u, v))
    decreases r - l, 0
  {
    var ix := ComputeIndices(idx, l, r);
    QuerySplit(op, nil, t, u, v, l, ix.2, r);
    QueryRangeFold(op, nil, s, u, v, ix.0, l, ix.2, t.left);
    QueryRangeFold(op, nil, s, u, v, ix.1, ix.2 + 1, r, t.right);
  }

  /** A subtree inside the query answers with its own slot. */
  lemma QueryWhole<V(!new)>(op: (V, V) -> V, nil: V, t: Shape<V>, u: int, v: int, l: int, r: int)
    requires Monoid(op, nil) && Fits(t, l, r) && Inv(op, t) && u <= l && r <= v
    ensures t.v == Fold(op, nil, Window(Leaves(t), l, u, v))
  {
    LeavesSize(t, l, r);
    WindowAll(Leaves(t), l, u, v);
    SlotIsReduce(op, t);
    ReduceIsFold(op, nil, Leaves(t));
  }

  /** A query over a node combines the queries over its children. */
  lemma QuerySplit<V(!new)>(op: (V, V) -> V, nil: V, t: Shape<V>, u: int, v: int, l: int, m: int, r: int)
    requires Monoid(op, nil) && Fits(t, l, r) && l < r && m == Mid(l, r)
    ensures Slots(t.left) == Span(l, m)
    ensures Fold(op, nil, Window(Leaves(t), l, u, v))
         == op(Fold(op, nil, Window(Leaves(t.left), l, u, v)), Fold(op, nil, Window(Leaves(t.right), m + 1, u, v)))
  {
    SizeSpan(t.left, l, m);
    LeavesSize(t.left, l, m);
    FoldWindowConcat(op, nil, Leaves(t.left), Leaves(t.right), l, m + 1, u, v);
  }

  lemma FoldWindowConcat<V(!new)>(op: (V, V) -> V, nil: V, x: seq<V>, y: seq<V>, lo: int, mid: int, u: int, v: int)
    requires Monoid(op, nil) && mid == lo + |x|
    ensures Fold(op, nil, Window(x + y, lo, u, v)) == op(Fold(op, nil, Window(x, lo, u, v)), Fold(op, nil, Window(y, mid, u, v)))
  {
    WindowConcat(x, y, lo, mid, u, v);
    FoldConcat(op, nil, Window(x, lo, u, v), Window(y, mid, u, v));
  }

  class SegTree<V(!new)> {
    var store: seq<V>
    const nil: V
    const len: nat
    const op: (V, V) -> V
    /** The tree the store encodes. */
    ghost var shape: Shape<V>

    ghost predicate Valid()
      reads this
    {
      |store| == 2 * len && (len > 0 ==> Fits(shape, 0, len - 1) && Holds(store, 0, shape) && Inv(op, shape))
    }

    /** The sequence of `len` values the tree represents. */
    ghost function Elements(): seq<V>
      reads this
    {
      if len == 0 then [] else Leaves(shape)
    }

    /** SegTree(size, nil_value), and StaticSegTree(nil_value) with
        `size` = Size: every slot is nil. */
    constructor Sized(op: (V, V) -> V, size: nat, nil: V)
      requires op(nil, nil) == nil
      ensures Valid() && Elements() == seq(size, _ => nil)
      ensures this.op == op && this.nil == nil && len == size
    {
      this.op := op;
      this.nil := nil;
      len := size;
      store := seq(2 * size, _ => nil);
      if size > 0 {
        shape := NilShape(nil, 0, size - 1);
        NilFits(nil, 0, size - 1);
        NilHolds(seq(2 * size, _ => nil), 0, nil, 0, size - 1);
        NilLeaves(nil, 0, size - 1);
        NilInv(op, nil, 0, size - 1);
      } else {
        shape := Leaf(nil);
      }
    }

    /** SegTree(source, nil_value): builds over the whole source, which must
        not be empty (building an empty source writes past the store). */
    constructor FromSeq(op: (V, V) -> V, source: seq<V>, nil: V)
      requires |source| > 0
      ensures Valid() && Elements() == source
      ensures this.op == op && this.nil == nil && len == |source|
    {
      this.op := op;
      this.nil := nil;
      len := |source|;
      store := seq(2 * |source|, _ => nil);
      shape := Leaf(nil);
      new;
      Install(source, |source|);
      assert source[0..|source|] == source;
    }

    /** StaticSegTree(source, nil_value): builds over the first `size`
        values of the source. */
    constructor StaticFromSeq(op: (V, V) -> V, source: seq<V>, size: nat, nil: V)
      requires 0 < size <= |source|
      ensures Valid() && Elements() == source[..size]
      ensures this.op == op && this.nil == nil && len == size
    {
      this.op := op;
      this.nil := nil;
      len := size;
      store := seq(2 * size, _ => nil);
      shape := Leaf(nil);
      new;
      Install(source, size);
    }

    /** The constructors' call build(source, 0, 0, size - 1). */
    method Install(source: seq<V>, size: nat)
      requires 0 < size <= |source| && len == size && |store| == 2 * size
      modifies this
      ensures Valid() && Elements() == source[0..size]
    {
      ghost var s := store;
      var n := size - 1;
      BuiltInv(op, source, 0, n);
      BuiltFits(op, source, 0, n);
      BuiltLeaves(op, source, 0, n);
      var t := Build(source, 0, 0, n);
      WriteHolds(s, 0, t);
      shape := t;
    }

    /** build(source, idx, l, r): writes the subtree over l..r from slot
        `idx` on. */
    method Build(source: seq<V>, idx: nat, l: int, r: int) returns (ghost t: Shape<V>)
      requires 0 <= l <= r < |source| && idx + Span(l, r) <= |store|
      modifies this
      ensures t == Built(op, source, l, r) && Slots(t) == Span(l, r)
      ensures store == Write(old(store), idx, t)
      ensures shape == old(shape)
      decreases r - l
    {
      if l == r {
        store := store[idx := source[l]];
        t := Leaf(source[l]);
        return;
      }
      var ix := ComputeIndices(idx, l, r);
      var lc, rc, m := ix.0, ix.1, ix.2;
      ghost var s := store;
      BuiltNode(op, source, l, m, r);
      var a := Build(source, lc, l, m);
      var b := Build(source, rc, m + 1, r);
      WriteBoth(s, store, idx, lc, rc, op(a.v, b.v), a, b);
      store := store[idx := op(store[lc], store[rc])];
      t := Node(op(a.v, b.v), a, b);
    }

    /** mutate<replace>(u, w, idx, l, r): position `u`, if inside l..r,
        becomes `w` (replace) or op(old value, w); slots are recombined on
        the way back up. */
    method Mutate(replace: bool, u: int, w: V, idx: nat, l: int, r: int, ghost t: Shape<V>) returns (ghost t': Shape<V>)
      requires Fits(t, l, r) && Holds(store, idx, t)
      modifies this
      ensures t' == Mutated(op, t, replace, u, w, l, r)
      ensures store == Write(old(store), idx, t')
      ensures shape == old(shape)
      decreases r - l
    {
      if u > r || u < l {
        WriteSame(store, idx, t);
        return t;
      }
      if u == l && u == r {
        t' := Leaf(if replace then w else op(t.v, w));
        if replace {
          store := store[idx := w];
        } else {
          store := store[idx := op(store[idx], w)];
        }
        return;
      }
      var ix := ComputeIndices(idx, l, r);
      var lc, rc, m := ix.0, ix.1, ix.2;
      SizeSpan(t.left, l, m);
      HoldsChildren(store, idx, lc, rc, t);
      ghost var s := store;
      ghost var a, b;
      if u <= m {
        MutatedLeft(op, t, replace, u, w, l, m, r);
        a := Mutate(replace, u, w, lc, l, m, t.left);
        b := t.right;
        ghost var s1 := store;
        WriteLeft(s, s1, idx, lc, rc, op(a.v, b.v), a, b);
      } else {
        MutatedRight(op, t, replace, u, w, l, m, r);
        a := t.left;
        b := Mutate(replace, u, w, rc, m + 1, r, t.right);
        ghost var s1 := store;
        WriteRight(s, s1, idx, lc, rc, op(a.v, b.v), a, b);
      }
      store := store[idx := op(store[lc], store[rc])];
      t' := Node(op(a.v, b.v), a, b);
    }

    /** set(pos, value); a position outside 0..len-1 changes nothing. */
    method Set(pos: int, value: V)
      requires Valid()
      modifies this
      ensures Valid()
      ensures Elements() == Changed(op, old(Elements()), true, pos, value)
    {
      Change(true, pos, value);
    }

    /** update(pos, value): position `pos` becomes op(old value, value). */
    method Update(pos: int, value: V)
      requires Valid()
      modifies this
      ensures Valid()
      ensures Elements() == Changed(op, old(Elements()), false, pos, value)
    {
      Change(false, pos, value);
    }

    /** The public entry to mutate<replace>(pos, value, 0, 0, size - 1). */
    method Change(replace: bool, pos: int, value: V)
      requires Valid()
      modifies this
      ensures Valid()
      ensures Elements() == Changed(op, old(Elements()), replace, pos, value)
    {
      if len > 0 {
        ghost var s, t0 := store, shape;
        var n := len - 1;
        MutatedInv(op, t0, replace, pos, value, 0, n);
        MutatedFits(op, t0, replace, pos, value, 0, n);
        MutatedLeaves(op, t0, replace, pos, value, 0, n);
        var t := Mutate(replace, pos, value, 0, 0, n, t0);
        WriteHolds(s, 0, t);
        shape := t;
      }
    }

    /** query(left, right), inclusive: the aggregate of the positions of
        left..right inside the tree. On an empty tree the source reads slot 0
        when left < 0 <= right; every other query of it is nil. */
    function Query(left: int, right: int): (res: V)
      reads this
      requires Valid() && Monoid(op, nil) && (len > 0 || 0 <= left || right < 0)
      ensures res == Fold(op, nil, Window(Elements(), 0, left, right))
    {
      if len == 0 then
        WindowNone(Elements(), 0, left, right);
        nil
      else
        QueryRangeFold(op, nil, store, left, right, 0, 0, len - 1, shape);
        QueryRange(op, nil, store, left, right, 0, 0, len - 1, shape)
    }

    function Size(): (n: nat)
      reads this
      requires Valid()
      ensures n == |Elements()|
    {
      if len > 0 then LeavesSize(shape, 0, len - 1); len else len
    }
  }
}
