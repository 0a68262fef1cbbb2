/** `SparseTable<Val, Op>` of sparsetable.hpp: row i holds, at each j, the
    op-combination of the block source[j .. j + 2^i - 1], built by doubling.
    A range query combines two overlapping blocks, which is the reduction of
    the range when op is associative and idempotent (min, max, gcd); the
    forward query combines disjoint blocks along the binary digits of the
    step, which is the fold of the range for any monoid. */
module SparseTables {
  import opened Algebra
  import opened Bits

  /** The value row i holds at j: source[j] for i == 0, else the two
      half-blocks combined. */
  function Block<V>(op: (V, V) -> V, s: seq<V>, i: nat, j: nat): V
    requires j + Pow2(i) <= |s|
    decreases i
  {
    if i == 0 then s[j]
    else op(Block(op, s, i - 1, j), Block(op, s, i - 1, j + Pow2(i - 1)))
  }

  /** For an associative op a block is the reduction of its 2^i elements. */
  lemma {:induction false} BlockReduce<V(!new)>(op: (V, V) -> V, s: seq<V>, i: nat, j: nat)
    requires Associative(op) && j + Pow2(i) <= |s|
    ensures Block(op, s, i, j) == Reduce(op, s[j..j + Pow2(i)])
    decreases i
  {
    if i == 0 {
      assert s[j..j + 1] == [s[j]];
    } else {
      var h := Pow2(i - 1);
      var m, e := j + h, j + Pow2(i);
      BlockReduce(op, s, i - 1, j);
      BlockReduce(op, s, i - 1, m);
      Split2(s, j, m, e);
      ReduceConcat(op, s[j..m], s[m..e]);
    }
  }

  lemma Split2<V>(s: seq<V>, a: nat, b: nat, c: nat)
    requires a <= b <= c <= |s|
    ensures s[a..c] == s[a..b] + s[b..c]
  {
  }

  /** lg in query(l, r): bit_width(r - l + 1) - 1, the largest power of two
      that fits in the range. */
  function QueryLog(l: nat, r: nat): (lg: nat)
    requires l <= r
    ensures Pow2(lg) <= r - l + 1 < 2 * Pow2(lg)
  {
    BitWidthBounds(r - l + 1);
    BitWidth(r - l + 1) - 1
  }

  /** Row i as the constructor leaves it: the block at j where it fits,
      nil where it does not. */
  function Row<V>(op: (V, V) -> V, s: seq<V>, nil: V, i: nat): (row: seq<V>)
    ensures |row| == |s|
  {
    seq(|s|, j requires 0 <= j < |s| => if j + Pow2(i) <= |s| then Block(op, s, i, j) else nil)
  }

  /** Row i while the inner loop is at j: blocks before j, nil after. */
  function Partial<V>(op: (V, V) -> V, s: seq<V>, nil: V, i: nat, j: nat): (row: seq<V>)
    requires j <= |s| && (j > 0 ==> j - 1 + Pow2(i) <= |s|)
    ensures |row| == |s|
  {
    seq(|s|, j' requires 0 <= j' < |s| => if j' < j then Block(op, s, i, j') else nil)
  }

  lemma RowZero<V>(op: (V, V) -> V, s: seq<V>, nil: V)
    ensures Row(op, s, nil, 0) == s
  {
    assert Pow2(0) == 1;
    assert forall j :: 0 <= j < |s| ==> Row(op, s, nil, 0)[j] == s[j];
  }

  /** The inner loop's write at j extends the row by one block. */
  lemma PartialStep<V>(op: (V, V) -> V, s: seq<V>, nil: V, i: nat, j: nat, row: seq<V>, prev: seq<V>)
    requires i >= 1 && j + Pow2(i) <= |s| && Pow2(i) == 2 * Pow2(i - 1)
    requires row == Partial(op, s, nil, i, j) && prev == Row(op, s, nil, i - 1)
    ensures row[j := op(prev[j], prev[j + Pow2(i - 1)])] == Partial(op, s, nil, i, j + 1)
  {
  }

  /** Once no block fits at j, the partial row is the whole row. */
  lemma PartialRow<V>(op: (V, V) -> V, s: seq<V>, nil: V, i: nat, j: nat)
    requires j <= |s| && (j > 0 ==> j - 1 + Pow2(i) <= |s|) && j + Pow2(i) > |s|
    ensures Partial(op, s, nil, i, j) == Row(op, s, nil, i)
  {
  }

  class SparseTable<V(!new)> {
    const len: nat
    const nilValue: V
    const op: (V, V) -> V
    const store: seq<seq<V>>
    ghost const source: seq<V>

    /** What the constructor leaves: bit_width(len) rows of len entries,
        each the block at j where it fits and nil where it does not. */
    ghost predicate Valid() {
      len == |source| && |store| == BitWidth(len) &&
      forall i :: 0 <= i < |store| ==> store[i] == Row(op, source, nilValue, i)
    }

    /** SparseTable(source, nil): row 0 is a copy of source; row i is built
        from row i - 1 for every j with j + 2^i <= len. */
    constructor (source: seq<V>, nil: V, op: (V, V) -> V)
      requires |source| > 0
      ensures Valid() && this.source == source && nilValue == nil && this.op == op
    {
      var len := |source|;
      var bw := BitWidth(len);
      var rows := seq(bw, _ => seq(len, _ => nil));
      RowZero(op, source, nil);
      rows := rows[0 := source];
      for i := 1 to bw + 1
        invariant |rows| == bw
        invariant forall k :: 0 <= k < i && k < bw ==> rows[k] == Row(op, source, nil, k)
        invariant forall k :: i <= k < bw ==> rows[k] == seq(len, _ => nil)
      {
        var j := 0;
        BitWidthBounds(len);
        if bw <= i {
          Pow2Monotone(bw, i);
        }
        while j + Pow2(i) <= len
          invariant |rows| == bw && j <= len && (j > 0 ==> j - 1 + Pow2(i) <= len)
          invariant forall k :: 0 <= k < i ==> rows[k] == Row(op, source, nil, k)
          invariant forall k :: i < k < bw ==> rows[k] == seq(len, _ => nil)
          invariant i < bw ==> rows[i] == Partial(op, source, nil, i, j)
        {
          assert Pow2(i) == 2 * Pow2(i - 1);
          PartialStep(op, source, nil, i, j, rows[i], rows[i - 1]);
          rows := rows[i := rows[i][j := op(rows[i - 1][j], rows[i - 1][j + Pow2(i - 1)])]];
          j := j + 1;
        }
        if i < bw {
          PartialRow(op, source, nil, i, j);
        }
      }
      this.len := len;
      nilValue := nil;
      this.op := op;
      store := rows;
      this.source := source;
    }

    /** query(l, r): the blocks of size 2^lg starting at l and ending at r,
        which together cover exactly l..r; for an associative, idempotent op
        their combination is the reduction of source[l..r]. */
    function Query(l: nat, r: nat): (v: V)
      requires Valid() && l <= r < len
      ensures Associative(op) && Idempotent(op) ==> v == Reduce(op, source[l..r + 1])
    {
      var lg := QueryLog(l, r);
      LogFits(len, l, r);
      CoverReduce(op, source, l, r, lg);
      op(store[lg][l], store[lg][r - Pow2(lg) + 1])
    }

    /** query_forward(idx, step): the blocks along the set bits of step,
        highest first, which tile idx..idx+step-1 in order; for a monoid
        with identity nil, the fold of that range. */
    method QueryForward(idx: nat, step: nat) returns (ans: V)
      requires Valid() && idx + step <= len
      ensures Monoid(op, nilValue) ==> ans == Fold(op, nilValue, source[idx..idx + step])
    {
      ans := nilValue;
      var at := idx;
      var i := |store| - 1;
      BitWidthBounds(len);
      LowAll(step, |store|);
      assert source[idx..idx] == [];
      while i >= 0
        invariant -1 <= i < |store| && idx <= at
        invariant at + Low(step, i + 1) == idx + step
        invariant Monoid(op, nilValue) ==> ans == Fold(op, nilValue, source[idx..at])
        decreases i + 1
      {
        if Bit(step, i) {
          ForwardStep(op, nilValue, source, idx, at, i, ans, store[i]);
          ans := op(ans, store[i][at]);
          at := at + Pow2(i);
        }
        i := i - 1;
      }
    }

    /** size(): len. */
    function Size(): (n: nat)
      requires Valid()
      ensures n == |source|
    {
      len
    }
  }

  /** The rows query(l, r) reads exist. */
  lemma LogFits(n: nat, l: nat, r: nat)
    requires l <= r < n
    ensures QueryLog(l, r) < BitWidth(n)
  {
    BitWidthBounds(n);
    if BitWidth(n) <= QueryLog(l, r) {
      Pow2Monotone(BitWidth(n), QueryLog(l, r));
    }
  }

  /** One step of query_forward: the fold so far, combined with the next
      block, is the fold up to that block's end. */
  lemma ForwardStep<V(!new)>(op: (V, V) -> V, e: V, s: seq<V>, idx: nat, at: nat, i: nat, acc: V, row: seq<V>)
    requires idx <= at && at + Pow2(i) <= |s| && row == Row(op, s, e, i)
    ensures at < |row|
    ensures Monoid(op, e) && acc == Fold(op, e, s[idx..at]) ==>
      op(acc, row[at]) == Fold(op, e, s[idx..at + Pow2(i)])
  {
    if Monoid(op, e) && acc == Fold(op, e, s[idx..at]) {
      ForwardBlock(op, e, s, idx, at, i);
    }
  }

  lemma ForwardBlock<V(!new)>(op: (V, V) -> V, e: V, s: seq<V>, idx: nat, at: nat, i: nat)
    requires Monoid(op, e) && idx <= at && at + Pow2(i) <= |s|
    ensures op(Fold(op, e, s[idx..at]), Block(op, s, i, at)) == Fold(op, e, s[idx..at + Pow2(i)])
  {
    BlockReduce(op, s, i, at);
    ReduceIsFold(op, e, s[at..at + Pow2(i)]);
    assert s[idx..at + Pow2(i)] == s[idx..at] + s[at..at + Pow2(i)];
    FoldConcat(op, e, s[idx..at], s[at..at + Pow2(i)]);
  }

  /** Three consecutive slices, and the two overlapping pairs of them. */
  lemma Split3<V>(s: seq<V>, a: nat, b: nat, c: nat, d: nat)
    requires a <= b < c <= d <= |s|
    ensures s[a..c] == s[a..b] + s[b..c]
    ensures s[b..d] == s[b..c] + s[c..d]
    ensures s[a..d] == s[a..b] + (s[b..c] + s[c..d])
  {
  }

  /** Combining two overlapping parts counts the shared middle once. */
  lemma Overlap<V(!new)>(op: (V, V) -> V, x: V, y: V, z: V)
    requires Associative(op) && Idempotent(op)
    ensures op(op(x, y), op(y, z)) == op(x, op(y, z))
  {
    assert op(op(x, y), op(y, z)) == op(x, op(y, op(y, z)));
    assert op(op(y, y), z) == op(y, op(y, z));
    assert op(y, y) == y;
  }

  /** The two blocks of query(l, r) overlap in a non-empty middle part, so
      an idempotent op counts it once. */
  lemma CoverReduce<V(!new)>(op: (V, V) -> V, s: seq<V>, l: nat, r: nat, lg: nat)
    requires l <= r < |s|
    requires Pow2(lg) <= r - l + 1 < 2 * Pow2(lg)
    ensures Associative(op) && Idempotent(op) ==>
      op(Block(op, s, lg, l), Block(op, s, lg, r - Pow2(lg) + 1)) == Reduce(op, s[l..r + 1])
  {
    if Associative(op) && Idempotent(op) {
      CoverBlocks(op, s, l, r, lg);
    }
  }

  lemma CoverBlocks<V(!new)>(op: (V, V) -> V, s: seq<V>, l: nat, r: nat, lg: nat)
    requires Associative(op) && Idempotent(op) && l <= r < |s|
    requires Pow2(lg) <= r - l + 1 < 2 * Pow2(lg)
    ensures op(Block(op, s, lg, l), Block(op, s, lg, r - Pow2(lg) + 1)) == Reduce(op, s[l..r + 1])
  {
    var h := Pow2(lg);
    var b := r - h + 1;
    BlockReduce(op, s, lg, l);
    BlockReduce(op, s, lg, b);
    if b > l {
      CoverSlices(op, s, l, b, l + h, r + 1);
    }
  }

  /** Two overlapping slices a..c and b..d of s, combined, reduce to the
      slice a..d they cover, the shared middle b..c counted once. */
  lemma CoverSlices<V(!new)>(op: (V, V) -> V, s: seq<V>, a: nat, b: nat, c: nat, d: nat)
    requires Associative(op) && Idempotent(op) && a < b < c < d <= |s|
    ensures op(Reduce(op, s[a..c]), Reduce(op, s[b..d])) == Reduce(op, s[a..d])
  {
    var x, y, z := s[a..b], s[b..c], s[c..d];
    Split3(s, a, b, c, d);
    ReduceConcat(op, x, y);
    ReduceConcat(op, y, z);
    ReduceConcat(op, x, y + z);
    Overlap(op, Reduce(op, x), Reduce(op, y), Reduce(op, z));
  }
}
