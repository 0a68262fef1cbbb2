/** The implicit treap of treap.hpp: a randomized binary search tree keyed only by
    in-order position. Nodes are modelled as a datatype (`Tree`), the private
    helpers `propagate`, `update(Node*)` and `get` as functions on it, the
    node-rewiring `split` and `merge` as methods returning new trees, and
    `ImplicitTreap` as a class whose public methods reassign `root`.
    Node priorities, drawn from `rng32()` in the source, are supplied by the caller. */
module Treap {
  import opened Algebra

  /** `Null` is the C++ nullptr; a `Node` carries the fields of `Treap::Node`. */
  datatype Tree<V> = Null
                   | Node(val: V, cumVal: V, left: Tree<V>, right: Tree<V>,
                          priority: int, size: nat, flip: bool)

  /** The number of nodes; a termination measure and the meaning of `size`. */
  function Count<V>(t: Tree<V>): nat {
    match t
    case Null => 0
    case Node(_, _, l, r, _, _, _) => 1 + Count(l) + Count(r)
  }

  /** The abstract sequence held by a tree: its in-order walk, where a pending
      `flip` on a node reverses that node's whole subtree. */
  function Seq<V>(t: Tree<V>): (s: seq<V>)
    ensures |s| == Count(t)
  {
    match t
    case Null => []
    case Node(v, _, l, r, _, _, f) =>
      var inner := Seq(l) + [v] + Seq(r);
      if f then Rev(inner) else inner
  }

  /** safe_get_size */
  function SizeOf<V>(t: Tree<V>): nat {
    if t.Null? then 0 else t.size
  }

  /** Every node's `size` field counts the nodes of its subtree. */
  ghost predicate Sized<V>(t: Tree<V>) {
    match t
    case Null => true
    case Node(_, _, l, r, _, sz, _) => sz == Count(t) && Sized(l) && Sized(r)
  }

  ghost predicate Above<V>(t: Tree<V>, p: int) {
    t.Null? || t.priority >= p
  }

  /** Heap order on priority as `merge` builds it: a node's priority is at most
      its children's, so the smallest priority is at the root. */
  ghost predicate Heap<V>(t: Tree<V>) {
    match t
    case Null => true
    case Node(_, _, l, r, p, _, _) => Above(l, p) && Above(r, p) && Heap(l) && Heap(r)
  }

  /** The formula `update(Node*)` uses for `cum_val`: the node's own value
      first, then the left child's aggregate, then the right child's. */
  function CumOf<V>(op: (V, V) -> V, v: V, l: Tree<V>, r: Tree<V>): V {
    var c := if l.Null? then v else op(v, l.cumVal);
    if r.Null? then c else op(c, r.cumVal)
  }

  ghost predicate Cached<V>(op: (V, V) -> V, t: Tree<V>) {
    match t
    case Null => true
    case Node(v, c, l, r, _, _, _) => c == CumOf(op, v, l, r) && Cached(op, l) && Cached(op, r)
  }

  /** The aggregate kept in `cum_val` is only an order-independent value when
      `op` is associative and commutative (as the default `std::plus` is). */
  ghost predicate Lawful<V(!new)>(op: (V, V) -> V) {
    Associative(op) && Commutative(op)
  }

  ghost predicate Wf<V(!new)>(op: (V, V) -> V, t: Tree<V>) {
    Sized(t) && Heap(t) && (Lawful(op) ==> Cached(op, t))
  }

  /** `child->flip ^= node->flip` with `node->flip` set. */
  function Toggle<V>(t: Tree<V>): (u: Tree<V>)
    ensures Count(u) == Count(t) && SizeOf(u) == SizeOf(t)
    ensures u.Null? <==> t.Null?
    ensures u.Node? ==> u.priority == t.priority && u.cumVal == t.cumVal
  {
    if t.Null? then t else t.(flip := !t.flip)
  }

  lemma ToggleSeq<V>(t: Tree<V>)
    ensures Seq(Toggle(t)) == Rev(Seq(t))
  {
    if t.Node? {
      var inner := Seq(t.left) + [t.val] + Seq(t.right);
      RevRev(inner);
    }
  }

  lemma ToggleWf<V(!new)>(op: (V, V) -> V, t: Tree<V>)
    ensures Wf(op, Toggle(t)) == Wf(op, t)
  {
  }

  /** propagate: a pending flip swaps the children and is pushed onto them. */
  function Propagate<V>(t: Tree<V>): (p: Tree<V>)
    ensures Count(p) == Count(t) && SizeOf(p) == SizeOf(t)
    ensures p.Null? <==> t.Null?
    ensures p.Node? ==> !p.flip && p.val == t.val && p.priority == t.priority && p.cumVal == t.cumVal
  {
    if t.Null? || !t.flip then t
    else t.(left := Toggle(t.right), right := Toggle(t.left), flip := false)
  }

  lemma PropagateSeq<V>(t: Tree<V>)
    ensures Seq(Propagate(t)) == Seq(t)
  {
    if t.Node? && t.flip {
      var l, r := t.left, t.right;
      ToggleSeq(l);
      ToggleSeq(r);
      RevConcat(Seq(l) + [t.val], Seq(r));
      RevConcat(Seq(l), [t.val]);
    }
  }

  /** Swapping the children leaves `cum_val` as it was, which is still the
      aggregate of the children when `op` is lawful. */
  lemma PropagateWf<V(!new)>(op: (V, V) -> V, t: Tree<V>)
    requires Wf(op, t)
    ensures Wf(op, Propagate(t))
  {
    if t.Node? && t.flip {
      var l, r, v := t.left, t.right, t.val;
      ToggleWf(op, l);
      ToggleWf(op, r);
      if Lawful(op) && l.Node? && r.Node? {
        calc {
          op(op(v, l.cumVal), r.cumVal);
          op(v, op(l.cumVal, r.cumVal));
          op(v, op(r.cumVal, l.cumVal));
          op(op(v, r.cumVal), l.cumVal);
        }
      }
    }
  }

  /** update(Node*): propagate both children, then recompute `cum_val` and
      `size` from them. */
  function UpdateNode<V>(op: (V, V) -> V, t: Tree<V>): (u: Tree<V>)
    requires t.Node?
    ensures u.Node? && u.val == t.val && u.priority == t.priority && u.flip == t.flip
    ensures Count(u) == Count(t)
  {
    var l := Propagate(t.left);
    var r := Propagate(t.right);
    t.(left := l, right := r, cumVal := CumOf(op, t.val, l, r),
       size := 1 + SizeOf(l) + SizeOf(r))
  }

  lemma SizedCount<V>(t: Tree<V>)
    requires Sized(t)
    ensures SizeOf(t) == Count(t)
  {
  }

  /** A node whose children are well formed and not above it in priority is
      well formed once updated, and keeps its sequence. */
  lemma UpdateNodeWf<V(!new)>(op: (V, V) -> V, t: Tree<V>)
    requires t.Node? && Wf(op, t.left) && Wf(op, t.right)
    requires Above(t.left, t.priority) && Above(t.right, t.priority)
    ensures Wf(op, UpdateNode(op, t))
    ensures Seq(UpdateNode(op, t)) == Seq(t)
  {
    PropagateWf(op, t.left);
    PropagateWf(op, t.right);
    PropagateSeq(t.left);
    PropagateSeq(t.right);
    SizedCount(Propagate(t.left));
    SizedCount(Propagate(t.right));
  }

  /** The facts about a well-formed node that `split` and `get` descend by. */
  lemma NodeFacts<V(!new)>(op: (V, V) -> V, t: Tree<V>)
    requires Wf(op, t) && t.Node?
    ensures Wf(op, t.left) && Wf(op, t.right)
    ensures Above(t.left, t.priority) && Above(t.right, t.priority)
    ensures SizeOf(t.left) == Count(t.left) && SizeOf(t.right) == Count(t.right)
    ensures SizeOf(t) == 1 + SizeOf(t.left) + SizeOf(t.right)
    ensures !t.flip ==> Seq(t) == Seq(t.left) + [t.val] + Seq(t.right)
  {
  }

  lemma Assoc4<V>(a: seq<V>, b: seq<V>, c: seq<V>, d: seq<V>)
    ensures a + (b + c + d) == (a + b) + c + d
    ensures (a + b + c) + d == a + b + (c + d)
  {
  }

  lemma Halves<V>(a: seq<V>, b: seq<V>, s: seq<V>)
    requires a + b == s
    ensures a == s[..|a|] && b == s[|a|..]
  {
  }

  /** Private split(node, k): the first `k` elements and the rest; both
      pieces keep the invariants and sit no higher than `t`'s root. */
  method SplitTree<V(!new)>(op: (V, V) -> V, t: Tree<V>, k: nat) returns (a: Tree<V>, b: Tree<V>)
    requires Wf(op, t) && k <= SizeOf(t)
    ensures Wf(op, a) && Wf(op, b)
    ensures Seq(a) + Seq(b) == Seq(t) && Count(a) == k
    ensures t.Node? ==> Above(a, t.priority) && Above(b, t.priority)
    decreases Count(t)
  {
    if t.Null? {
      return Null, Null;
    }
    PropagateWf(op, t);
    PropagateSeq(t);
    var n := Propagate(t);
    NodeFacts(op, n);
    if k <= SizeOf(n.left) {
      var mid;
      a, mid := SplitTree(op, n.left, k);
      var m := n.(left := mid);
      UpdateNodeWf(op, m);
      NodeFacts(op, UpdateNode(op, m));
      Assoc4(Seq(a), Seq(mid), [n.val], Seq(n.right));
      b := UpdateNode(op, m);
    } else {
      var mid;
      mid, b := SplitTree(op, n.right, k - SizeOf(n.left) - 1);
      var m := n.(right := mid);
      UpdateNodeWf(op, m);
      NodeFacts(op, UpdateNode(op, m));
      Assoc4(Seq(n.left), [n.val], Seq(mid), Seq(b));
      a := UpdateNode(op, m);
    }
  }

  /** Private merge(left, right): the strictly smaller priority becomes the
      root; on a tie the right tree's root wins. */
  method MergeTrees<V(!new)>(op: (V, V) -> V, a: Tree<V>, b: Tree<V>) returns (m: Tree<V>)
    requires Wf(op, a) && Wf(op, b)
    ensures Wf(op, m) && Seq(m) == Seq(a) + Seq(b)
    ensures m.Null? <==> a.Null? && b.Null?
    ensures m.Node? ==> (a.Node? && m.priority == a.priority) || (b.Node? && m.priority == b.priority)
    decreases Count(a) + Count(b)
  {
    if a.Null? {
      return b;
    }
    PropagateWf(op, a);
    PropagateSeq(a);
    var a' := Propagate(a);
    if b.Null? {
      return a';
    }
    PropagateWf(op, b);
    PropagateSeq(b);
    var b' := Propagate(b);
    NodeFacts(op, a');
    NodeFacts(op, b');
    if a'.priority < b'.priority {
      var right := MergeTrees(op, a'.right, b');
      var n := a'.(right := right);
      UpdateNodeWf(op, n);
      NodeFacts(op, UpdateNode(op, n));
      Assoc4(Seq(a'.left), [a'.val], Seq(a'.right), Seq(b'));
      m := UpdateNode(op, n);
    } else {
      var left := MergeTrees(op, a', b'.left);
      var n := b'.(left := left);
      UpdateNodeWf(op, n);
      NodeFacts(op, UpdateNode(op, n));
      Assoc4(Seq(a'), Seq(b'.left), [b'.val], Seq(b'.right));
      m := UpdateNode(op, n);
    }
  }

  /** Private get(node, offset): descend by subtree sizes after propagating. */
  function Get<V(!new)>(op: (V, V) -> V, t: Tree<V>, k: nat): (v: V)
    requires Wf(op, t) && k < SizeOf(t)
    ensures v == Seq(t)[k]
    decreases Count(t)
  {
    PropagateWf(op, t);
    PropagateSeq(t);
    var n := Propagate(t);
    NodeFacts(op, n);
    NodeAt(op, n, k);
    var cur := SizeOf(n.left);
    if k == cur then n.val
    else if k < cur then Get(op, n.left, k)
    else Get(op, n.right, k - cur - 1)
  }

  /** Position k of an unflipped node: in its left subtree, at its own
      value, or in its right subtree. */
  lemma NodeAt<V(!new)>(op: (V, V) -> V, n: Tree<V>, k: nat)
    requires Wf(op, n) && n.Node? && !n.flip && k < SizeOf(n)
    ensures SizeOf(n.left) == |Seq(n.left)| && SizeOf(n.right) == |Seq(n.right)|
    ensures var cur := SizeOf(n.left);
            Seq(n)[k] == if k < cur then Seq(n.left)[k] else if k == cur then n.val else Seq(n.right)[k - cur - 1]
  {
    NodeFacts(op, n);
  }

  /** walk_inorder, collecting the visited values. */
  function WalkInOrder<V>(t: Tree<V>): (s: seq<V>)
    ensures s == Seq(t)
    decreases Count(t)
  {
    if t.Null? then []
    else
      PropagateSeq(t);
      var n := Propagate(t);
      WalkInOrder(n.left) + [n.val] + WalkInOrder(n.right)
  }

  /** `new Node(val, priority)`: a single node whose aggregate is its value. */
  function Leaf<V>(x: V, priority: int): (t: Tree<V>)
    ensures t.Node? && Seq(t) == [x] && Count(t) == 1
  {
    Node(x, x, Null, Null, priority, 1, false)
  }

  lemma LeafWf<V(!new)>(op: (V, V) -> V, x: V, priority: int)
    ensures Wf(op, Leaf(x, priority))
  {
  }

  /** The three pieces the public operations cut out around positions l..r. */
  method Isolate<V(!new)>(op: (V, V) -> V, t: Tree<V>, l: nat, r: nat) returns (left: Tree<V>, mid: Tree<V>, right: Tree<V>)
    requires Wf(op, t) && l <= r < SizeOf(t)
    ensures Wf(op, left) && Wf(op, mid) && Wf(op, right) && mid.Node?
    ensures Seq(left) == Seq(t)[..l] && Seq(mid) == Seq(t)[l..r + 1] && Seq(right) == Seq(t)[r + 1..]
  {
    SizedCount(t);
    var rest;
    left, rest := SplitTree(op, t, l);
    SizedCount(rest);
    mid, right := SplitTree(op, rest, r - l + 1);
    IsolateSlices(Seq(left), Seq(mid), Seq(right), Seq(t), l, r);
  }

  lemma IsolateSlices<V>(a: seq<V>, b: seq<V>, c: seq<V>, s: seq<V>, l: nat, r: nat)
    requires |a| == l && |b| == r - l + 1 && a + (b + c) == s
    ensures a == s[..l] && b == s[l..r + 1] && c == s[r + 1..]
  {
    Halves(a, b + c, s);
    Halves(b, c, s[l..]);
    assert s[l..][..r - l + 1] == s[l..r + 1];
  }

  /** merge(merge(left, mid), right) */
  method Rejoin<V(!new)>(op: (V, V) -> V, left: Tree<V>, mid: Tree<V>, right: Tree<V>) returns (t: Tree<V>)
    requires Wf(op, left) && Wf(op, mid) && Wf(op, right)
    ensures Wf(op, t) && Seq(t) == Seq(left) + Seq(mid) + Seq(right)
  {
    var lm := MergeTrees(op, left, mid);
    t := MergeTrees(op, lm, right);
  }

  /** For a lawful operator the cached aggregate of a subtree is the reduction
      of its sequence, whatever flips are pending. */
  lemma {:induction false} CachedIsReduce<V(!new)>(op: (V, V) -> V, t: Tree<V>)
    requires Lawful(op) && Cached(op, t) && t.Node?
    ensures t.cumVal == Reduce(op, Seq(t))
    decreases t
  {
    var l, v, r := t.left, t.val, t.right;
    var inner := Seq(l) + [v] + Seq(r);
    var lv := Seq(l) + [v];
    if l.Node? {
      CachedIsReduce(op, l);
      ReduceConcat(op, Seq(l), [v]);
      assert Reduce(op, lv) == op(v, l.cumVal);
    } else {
      assert lv == [v];
    }
    if r.Node? {
      CachedIsReduce(op, r);
      ReduceConcat(op, lv, Seq(r));
    } else {
      assert inner == lv;
    }
    assert t.cumVal == Reduce(op, inner);
    if t.flip {
      ReduceRev(op, inner);
    }
  }

  /** `cum_val` combines the node's value before its left subtree: for a
      non-commutative operator (sequence concatenation) it is not the in-order
      aggregate. */
  lemma CumValIsValFirst()
    ensures var concat := (a: seq<int>, b: seq<int>) => a + b;
            var leaf := Node([1], [1], Null, Null, 5, 1, false);
            var t := UpdateNode(concat, Node([2], [2], leaf, Null, 0, 1, false));
            t.cumVal == [2, 1] && Seq(t) == [[1], [2]]
  {
  }

  /** The sequence after `reverse(l, r)`. */
  function ReversedRange<V>(s: seq<V>, l: nat, r: nat): seq<V>
    requires l <= r < |s|
  {
    s[..l] + Rev(s[l..r + 1]) + s[r + 1..]
  }

  lemma ReversedRangeTwice<V>(s: seq<V>, l: nat, r: nat)
    requires l <= r < |s|
    ensures |ReversedRange(s, l, r)| == |s|
    ensures ReversedRange(ReversedRange(s, l, r), l, r) == s
  {
    var t := ReversedRange(s, l, r);
    assert t[..l] == s[..l];
    assert t[l..r + 1] == Rev(s[l..r + 1]);
    assert t[r + 1..] == s[r + 1..];
    RevRev(s[l..r + 1]);
    assert s == s[..l] + s[l..r + 1] + s[r + 1..];
  }

  /** A one-node tree rebuilt with value `x` holds exactly [x] and stays well formed. */
  lemma LeafFacts<V(!new)>(op: (V, V) -> V, target: Tree<V>, x: V)
    requires Wf(op, target) && Count(target) == 1
    ensures Wf(op, UpdateNode(op, target.(val := x)))
    ensures Seq(UpdateNode(op, target.(val := x))) == [x]
  {
    UpdateNodeWf(op, target.(val := x));
  }

  lemma SnocPrefix<V>(s: seq<V>, i: nat)
    requires i < |s|
    ensures s[..i + 1] == s[..i] + [s[i]]
  {
  }

  lemma SpliceOne<V>(s: seq<V>, pos: nat, x: V)
    requires pos < |s|
    ensures s[..pos] + [x] + s[pos + 1..] == s[pos := x]
  {
  }

  lemma Reassemble<V>(s: seq<V>, l: nat, r: nat)
    requires l <= r < |s|
    ensures s[..l] + s[l..r + 1] + s[r + 1..] == s
  {
  }

  class ImplicitTreap<V(!new)> {
    var root: Tree<V>
    const op: (V, V) -> V
    /** The `is_reversible` template flag: `reverse` exists only when set. */
    const reversible: bool

    ghost predicate Valid()
      reads this
    {
      Wf(op, root)
    }

    /** The in-order sequence the treap represents. */
    ghost function Contents(): seq<V>
      reads this
    {
      Seq(root)
    }

    constructor Empty(op: (V, V) -> V, reversible: bool)
      ensures Valid() && Contents() == []
      ensures this.op == op && this.reversible == reversible
    {
      this.op := op;
      this.reversible := reversible;
      root := Null;
    }

    /** The constructor from an indexable container: `push_back` of each
        element, the i-th with priority `priorities[i]`. */
    constructor FromSeq(op: (V, V) -> V, reversible: bool, source: seq<V>, priorities: seq<int>)
      requires |priorities| == |source|
      ensures Valid() && Contents() == source
      ensures this.op == op && this.reversible == reversible
    {
      this.op := op;
      this.reversible := reversible;
      root := Null;
      new;
      var i := 0;
      while i < |source|
        invariant 0 <= i <= |source|
        invariant Valid() && Contents() == source[..i]
      {
        PushBack(source[i], priorities[i]);
        SnocPrefix(source, i);
        i := i + 1;
      }
      assert source[..i] == source;
    }

    /** The copy constructor: an in-order walk of `other` merging one fresh
        node per value (fresh priorities, hence possibly another shape). */
    constructor Copy(other: ImplicitTreap<V>, priorities: seq<int>)
      requires other.Valid() && |priorities| == |other.Contents()|
      ensures Valid() && Contents() == other.Contents()
      ensures op == other.op && reversible == other.reversible
    {
      var o := other.op;
      var values := WalkInOrder(other.root);
      var t: Tree<V> := Null;
      var i := 0;
      while i < |values|
        invariant 0 <= i <= |values| == |priorities|
        invariant Wf(o, t) && Seq(t) == values[..i]
      {
        LeafWf(o, values[i], priorities[i]);
        t := MergeTrees(o, t, Leaf(values[i], priorities[i]));
        SnocPrefix(values, i);
        i := i + 1;
      }
      assert values[..i] == values;
      op := o;
      reversible := other.reversible;
      root := t;
    }

    /** The private constructor ImplicitTreap(Node*). */
    constructor FromTree(op: (V, V) -> V, reversible: bool, t: Tree<V>)
      requires Wf(op, t)
      ensures Valid() && Contents() == Seq(t)
      ensures this.op == op && this.reversible == reversible
    {
      this.op := op;
      this.reversible := reversible;
      root := t;
    }

    function Size(): (n: nat)
      reads this
      requires Valid()
      ensures n == |Contents()|
    {
      SizedCount(root);
      SizeOf(root)
    }

    /** operator[] */
    function At(pos: nat): (v: V)
      reads this
      requires Valid() && pos < |Contents()|
      ensures v == Contents()[pos]
    {
      SizedCount(root);
      Get(op, root, pos)
    }

    /** set(pos, val): element `pos` becomes `x`. */
    method Set(pos: nat, x: V)
      requires Valid() && pos < |Contents()|
      modifies this
      ensures Valid()
      ensures Contents() == old(Contents())[pos := x]
    {
      SizedCount(root);
      var left, target, right := Isolate(op, root, pos, pos);
      LeafFacts(op, target, x);
      root := Rejoin(op, left, UpdateNode(op, target.(val := x)), right);
      SpliceOne(old(Contents()), pos, x);
    }

    /** update(pos, val): element `pos` becomes op(element, x). */
    method Update(pos: nat, x: V)
      requires Valid() && pos < |Contents()|
      modifies this
      ensures Valid()
      ensures Contents() == old(Contents())[pos := op(old(Contents())[pos], x)]
    {
      SizedCount(root);
      var left, target, right := Isolate(op, root, pos, pos);
      assert Seq(target) == [target.val] by {
        NodeFacts(op, target);
      }
      var y := op(target.val, x);
      LeafFacts(op, target, y);
      root := Rejoin(op, left, UpdateNode(op, target.(val := y)), right);
      SpliceOne(old(Contents()), pos, y);
    }

    /** query(l, r): the cached aggregate of the isolated range. The sequence
        is unchanged; the answer is the range's reduction for a lawful `op`. */
    method Query(l: nat, r: nat) returns (res: V)
      requires Valid() && l <= r < |Contents()|
      modifies this
      ensures Valid() && Contents() == old(Contents())
      ensures Lawful(op) ==> res == Reduce(op, Contents()[l..r + 1])
    {
      SizedCount(root);
      var left, target, right := Isolate(op, root, l, r);
      res := target.cumVal;
      if Lawful(op) {
        CachedIsReduce(op, target);
      }
      root := Rejoin(op, left, target, right);
      Reassemble(old(Contents()), l, r);
    }

    /** push_back: insert at the end. */
    method PushBack(x: V, priority: int)
      requires Valid()
      modifies this
      ensures Valid() && Contents() == old(Contents()) + [x]
    {
      SizedCount(root);
      Insert(SizeOf(root), x, priority);
      assert old(Contents())[..|old(Contents())|] == old(Contents());
    }

    /** insert(pos, val): a fresh node with the given priority between the
        first `pos` elements and the rest. */
    method Insert(pos: nat, x: V, priority: int)
      requires Valid() && pos <= |Contents()|
      modifies this
      ensures Valid()
      ensures Contents() == old(Contents())[..pos] + [x] + old(Contents())[pos..]
    {
      SizedCount(root);
      var left, right := SplitTree(op, root, pos);
      Halves(Seq(left), Seq(right), Seq(root));
      LeafWf(op, x, priority);
      root := Rejoin(op, left, Leaf(x, priority), right);
    }

    /** erase(l, r): removes positions l..r inclusive. */
    method Erase(l: nat, r: nat)
      requires Valid() && l <= r < |Contents()|
      modifies this
      ensures Valid()
      ensures Contents() == old(Contents())[..l] + old(Contents())[r + 1..]
    {
      SizedCount(root);
      var left, target, right := Isolate(op, root, l, r);
      root := MergeTrees(op, left, right);
    }

    /** erase(pos) as written: it forwards to erase(pos, pos + 1), which
        removes two elements and needs pos + 1 < size. */
    method EraseAtAsWritten(pos: nat)
      requires Valid() && pos + 1 < |Contents()|
      modifies this
      ensures Valid()
      ensures Contents() == old(Contents())[..pos] + old(Contents())[pos + 2..]
    {
      Erase(pos, pos + 1);
    }

    /** erase(pos) as intended: removes the single element at `pos`. */
    method EraseAt(pos: nat)
      requires Valid() && pos < |Contents()|
      modifies this
      ensures Valid()
      ensures Contents() == old(Contents())[..pos] + old(Contents())[pos + 1..]
    {
      Erase(pos, pos);
    }

    /** reverse(l, r): toggles the flip of the isolated range's root. */
    method Reverse(l: nat, r: nat)
      requires Valid() && reversible && l <= r < |Contents()|
      modifies this
      ensures Valid()
      ensures Contents() == ReversedRange(old(Contents()), l, r)
    {
      SizedCount(root);
      var left, target, right := Isolate(op, root, l, r);
      ToggleSeq(target);
      ToggleWf(op, target);
      root := Rejoin(op, left, Toggle(target), right);
    }

    /** The public split(left_size): two new treaps holding the first
        `leftSize` elements and the rest; this treap is left empty. */
    method SplitOff(leftSize: nat) returns (a: ImplicitTreap<V>, b: ImplicitTreap<V>)
      requires Valid() && leftSize <= |Contents()|
      modifies this
      ensures Valid() && Contents() == []
      ensures fresh(a) && fresh(b) && a.Valid() && b.Valid()
      ensures a.Contents() == old(Contents())[..leftSize]
      ensures b.Contents() == old(Contents())[leftSize..]
      ensures a.op == op && b.op == op && a.reversible == reversible && b.reversible == reversible
    {
      SizedCount(root);
      var left, right := SplitTree(op, root, leftSize);
      Halves(Seq(left), Seq(right), Seq(root));
      root := Null;
      a := new ImplicitTreap.FromTree(op, reversible, left);
      b := new ImplicitTreap.FromTree(op, reversible, right);
    }

    /** join(other): the elements of `other` appended after this treap's. */
    method Join(other: ImplicitTreap<V>)
      requires Valid() && other.Valid() && other.op == op
      modifies this
      ensures Valid() && Contents() == old(Contents()) + old(other.Contents())
    {
      root := MergeTrees(op, root, other.root);
    }

    /** for_each(func): `func` sees the elements in order, so what it is
        applied to is the represented sequence. */
    method ForEach() returns (s: seq<V>)
      requires Valid()
      ensures s == Contents()
    {
      s := WalkInOrder(root);
    }

    /** map(func): `func` applied to every element, in order. */
    method Map<U>(f: V -> U) returns (s: seq<U>)
      requires Valid()
      ensures |s| == |Contents()|
      ensures forall i :: 0 <= i < |s| ==> s[i] == f(Contents()[i])
    {
      var values := WalkInOrder(root);
      s := [];
      var i := 0;
      while i < |values|
        invariant 0 <= i <= |values|
        invariant |s| == i && forall j :: 0 <= j < i ==> s[j] == f(values[j])
      {
        s := s + [f(values[i])];
        i := i + 1;
      }
    }
  }

  /** The scenario of an integer treap under `+`: [10, 20, 30, 40], then
      insert(2, 99), then erase(0, 1), leaving [99, 30, 40]. */
  method InsertEraseScenario() returns (size: nat, front: int)
    ensures size == 3 && front == 99
  {
    var plus := (a: int, b: int) => a + b;
    var t := new ImplicitTreap<int>.FromSeq(plus, false, [10, 20, 30, 40], [7, 3, 9, 1]);
    t.Insert(2, 99, 4);
    assert t.Contents() == [10, 20, 99, 30, 40];
    t.Erase(0, 1);
    assert t.Contents() == [99, 30, 40];
    size := t.Size();
    front := t.At(0);
  }

  /** The counterexample to erase(pos): on [10, 20, 30], erase(0) as written
      leaves the single element 30, while the intended erase leaves 20, 30. */
  method EraseAtScenario() returns (writtenSize: nat, writtenFront: int, intendedSize: nat, intendedFront: int)
    ensures writtenSize == 1 && writtenFront == 30
    ensures intendedSize == 2 && intendedFront == 20
  {
    var plus := (a: int, b: int) => a + b;
    var w := new ImplicitTreap<int>.FromSeq(plus, false, [10, 20, 30], [5, 2, 8]);
    w.EraseAtAsWritten(0);
    assert w.Contents() == [30];
    writtenSize := w.Size();
    writtenFront := w.At(0);
    var c := new ImplicitTreap<int>.FromSeq(plus, false, [10, 20, 30], [5, 2, 8]);
    c.EraseAt(0);
    assert c.Contents() == [20, 30];
    intendedSize := c.Size();
    intendedFront := c.At(0);
  }
}
