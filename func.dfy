/** The vector pipelines of func.hpp: `vec | stage` for the stages map,
    filter, partition_by, group_by, fold_with, running_fold_with,
    reduce_with, running_reduce_with, to_sorted_with and transform_with,
    the ready-made transforms and `pipe_vec`, which threads a vector
    through a list of stages from left to right.

    Each `operator|` overload becomes a method whose loop appends to its
    result as the source's `push_back` loop does; each is proved against a
    function on sequences, and the laws of the pipeline are lemmas about
    those functions. */
module Functional {
  import opened Algebra
  import opened Sorting
  import Zip

  /** f applied to every element. */
  function Mapped<T(!new), R>(f: T -> R, s: seq<T>): (r: seq<R>)
    ensures |r| == |s| && forall i :: 0 <= i < |s| ==> r[i] == f(s[i])
  {
    seq(|s|, i requires 0 <= i < |s| => f(s[i]))
  }

  /** The elements of s satisfying p, in their order in s. */
  function Filtered<T(!new)>(p: T -> bool, s: seq<T>): (r: seq<T>)
    ensures |r| <= |s|
    ensures forall x :: x in r <==> x in s && p(x)
    decreases |s|
  {
    if |s| == 0 then []
    else
      assert s == s[..|s| - 1] + [s[|s| - 1]];
      Filtered(p, s[..|s| - 1]) + (if p(s[|s| - 1]) then [s[|s| - 1]] else [])
  }

  /** The complement of a predicate. */
  function Neg<T(!new)>(p: T -> bool): T -> bool {
    x => !p(x)
  }

  /** Having key k. */
  ghost function KeyIs<T(!new), K>(key: T -> K, k: K): T -> bool {
    x => key(x) == k
  }

  /** Left fold with an accumulator of another type:
      f(...f(f(init, s[0]), s[1])..., s[n-1]). */
  function FoldL<A, T(!new)>(f: (A, T) -> A, init: A, s: seq<T>): A
    decreases |s|
  {
    if |s| == 0 then init else f(FoldL(f, init, s[..|s| - 1]), s[|s| - 1])
  }

  /** vec | func: ret[i] == func(vec[i]). */
  method MapPipe<T(!new), R>(vec: seq<T>, func: T -> R) returns (ret: seq<R>)
    ensures ret == Mapped(func, vec)
  {
    ret := [];
    for k := 0 to |vec|
      invariant |ret| == k && forall i :: 0 <= i < k ==> ret[i] == func(vec[i])
    {
      ret := ret + [func(vec[k])];
    }
  }

  /** vec | filter(func): the elements satisfying func, in order. */
  method FilterPipe<T(!new)>(vec: seq<T>, func: T -> bool) returns (ret: seq<T>)
    ensures ret == Filtered(func, vec)
  {
    ret := [];
    for k := 0 to |vec|
      invariant ret == Filtered(func, vec[..k])
    {
      assert vec[..k + 1][..k] == vec[..k];
      if func(vec[k]) {
        ret := ret + [vec[k]];
      }
    }
    assert vec[..|vec|] == vec;
  }

  /** vec | partition_by(func): the elements satisfying func, then the
      others, each part in input order. */
  method PartitionPipe<T(!new)>(vec: seq<T>, func: T -> bool) returns (ret: (seq<T>, seq<T>))
    ensures ret.0 == Filtered(func, vec) && ret.1 == Filtered(Neg(func), vec)
    ensures multiset(ret.0 + ret.1) == multiset(vec)
  {
    var first, second := [], [];
    for k := 0 to |vec|
      invariant first == Filtered(func, vec[..k]) && second == Filtered(Neg(func), vec[..k])
    {
      assert vec[..k + 1][..k] == vec[..k];
      if func(vec[k]) {
        first := first + [vec[k]];
      } else {
        second := second + [vec[k]];
      }
    }
    assert vec[..|vec|] == vec;
    PartitionPermutes(func, vec);
    ret := (first, second);
  }

  /** vec | group_by(func): a bucket per key that occurs, holding the
      elements with that key in input order. */
  method GroupByPipe<T(!new), K(==)>(vec: seq<T>, func: T -> K) returns (groups: map<K, seq<T>>)
    ensures forall k :: k in groups <==> exists x :: x in vec && func(x) == k
    ensures forall k :: k in groups ==> groups[k] == Filtered(KeyIs(func, k), vec)
  {
    groups := map[];
    for i := 0 to |vec|
      invariant forall k :: k in groups <==> exists x :: x in vec[..i] && func(x) == k
      invariant forall k :: k in groups ==> groups[k] == Filtered(KeyIs(func, k), vec[..i])
    {
      var key := func(vec[i]);
      assert vec[..i + 1] == vec[..i] + [vec[i]];
      if key !in groups {
        FilteredNone(KeyIs(func, key), vec[..i]);
      }
      var bucket := if key in groups then groups[key] else [];
      groups := groups[key := bucket + [vec[i]]];
    }
    assert vec[..|vec|] == vec;
  }

  /** vec | fold_with(init, func): the left fold. */
  method FoldPipe<A, T(!new)>(vec: seq<T>, init: A, func: (A, T) -> A) returns (ret: A)
    ensures ret == FoldL(func, init, vec)
  {
    ret := init;
    for k := 0 to |vec|
      invariant ret == FoldL(func, init, vec[..k])
    {
      assert vec[..k + 1][..k] == vec[..k];
      ret := func(ret, vec[k]);
    }
    assert vec[..|vec|] == vec;
  }

  /** vec | running_fold_with(init, func): the folds of every prefix, from
      init (the empty prefix) to the fold of the whole vector. */
  method RunningFoldPipe<A, T(!new)>(vec: seq<T>, init: A, func: (A, T) -> A) returns (ret: seq<A>)
    ensures |ret| == |vec| + 1
    ensures forall i :: 0 <= i <= |vec| ==> ret[i] == FoldL(func, init, vec[..i])
    ensures ret[0] == init && ret[|vec|] == FoldL(func, init, vec)
  {
    ret := [init];
    for k := 0 to |vec|
      invariant |ret| == k + 1
      invariant forall i :: 0 <= i <= k ==> ret[i] == FoldL(func, init, vec[..i])
    {
      assert vec[..k + 1][..k] == vec[..k];
      ret := ret + [func(ret[k], vec[k])];
    }
    assert vec[..|vec|] == vec;
  }

  /** vec | reduce_with(func): the left fold from vec[0]; vec[0] is read
      unconditionally, so the vector must not be empty. */
  method ReducePipe<T(!new)>(vec: seq<T>, func: (T, T) -> T) returns (ret: T)
    requires |vec| > 0
    ensures ret == Reduce(func, vec)
    ensures ret == FoldL(func, vec[0], vec[1..])
  {
    ret := vec[0];
    for i := 1 to |vec|
      invariant ret == Reduce(func, vec[..i])
    {
      ReducePrefix(func, vec, i);
      ret := func(ret, vec[i]);
    }
    assert vec[..|vec|] == vec;
    ReduceIsFoldL(func, vec);
  }

  /** vec | running_reduce_with(func): the reductions of the non-empty
      prefixes, from vec[0] to the reduction of the whole vector. */
  method RunningReducePipe<T(!new)>(vec: seq<T>, func: (T, T) -> T) returns (ret: seq<T>)
    requires |vec| > 0
    ensures |ret| == |vec|
    ensures forall i :: 0 <= i < |vec| ==> ret[i] == Reduce(func, vec[..i + 1])
    ensures ret[0] == vec[0] && ret[|vec| - 1] == Reduce(func, vec)
  {
    ret := [vec[0]];
    for i := 1 to |vec|
      invariant |ret| == i
      invariant forall k :: 0 <= k < i ==> ret[k] == Reduce(func, vec[..k + 1])
    {
      ReducePrefix(func, vec, i);
      ret := ret + [func(ret[i - 1], vec[i])];
    }
    assert vec[..|vec|] == vec;
  }

  /** vec | to_sorted_with(cmp), as written: std::sort without the
      comparator, so the result is ascending whatever cmp is. */
  method SortedPipe(vec: seq<int>, cmp: (int, int) -> bool) returns (ret: seq<int>)
    ensures SortedBy(ret, Le) && multiset(ret) == multiset(vec)
  {
    LeTotal();
    ret := SortBy(vec, Le);
  }

  /** to_sorted_desc, as written, leaves [1, 2] ascending: any sorted
      permutation of it by the pipe's contract is [1, 2], which is not
      descending. */
  lemma SortedDescAscends(ret: seq<int>)
    requires SortedBy(ret, Le) && multiset(ret) == multiset([1, 2])
    ensures ret == [1, 2] && !SortedBy(ret, Ge)
  {
    assert |ret| == |multiset(ret)| == 2;
    assert ret[0] in multiset(ret) && ret[1] in multiset(ret);
    assert ret[0] <= ret[1];
    assert ret == [ret[0], ret[1]];
  }

  /** vec | to_sorted_with(le), as intended: sorted by the comparator
      given, so to_sorted_desc (le == Ge) is descending. */
  method SortedWithPipe(vec: seq<int>, le: (int, int) -> bool) returns (ret: seq<int>)
    requires TotalPreorder(le)
    ensures SortedBy(ret, le) && multiset(ret) == multiset(vec)
  {
    ret := SortBy(vec, le);
  }

  /** to_reversed: the elements back to front. */
  function Reversed<T(!new)>(vec: seq<T>): (r: seq<T>)
    ensures |r| == |vec| && forall i :: 0 <= i < |vec| ==> r[i] == vec[|vec| - 1 - i]
  {
    var r := Rev(vec);
    forall i | 0 <= i < |vec|
      ensures r[i] == vec[|vec| - 1 - i]
    {
      RevIndex(vec, i);
    }
    r
  }

  /** Reversing twice gives the vector back. */
  lemma ReversedReversed<T(!new)>(vec: seq<T>)
    ensures Reversed(Reversed(vec)) == vec
  {
  }

  /** to_unique: sorted, then each run of equal values cut to one. The
      result is strictly increasing and holds the same values. */
  method ToUnique(vec: seq<int>) returns (ret: seq<int>)
    ensures Increasing(ret) && forall x :: x in ret <==> x in vec
  {
    LeTotal();
    var sorted := SortBy(vec, Le);
    assert forall x :: x in sorted <==> x in multiset(vec);
    UniqueSorted(sorted);
    ret := UniqueBy(sorted, Eq);
  }

  /** int_range(lo, hi): lo, lo + 1, ..., hi; the range must not be
      empty. */
  method IntRange(lo: int, hi: int) returns (ret: seq<int>)
    requires lo <= hi
    ensures |ret| == hi - lo + 1 && forall i :: 0 <= i < |ret| ==> ret[i] == lo + i
  {
    ret := [];
    var v := lo;
    for k := 0 to hi - lo + 1
      invariant |ret| == k && v == lo + k && forall i :: 0 <= i < k ==> ret[i] == lo + i
    {
      ret := ret + [v];
      v := v + 1;
    }
  }

  /** index_range_of(vec): the indices of vec, none for an empty vector. */
  method IndexRangeOf<T(!new)>(vec: seq<T>) returns (ret: seq<int>)
    ensures |ret| == |vec| && forall i :: 0 <= i < |ret| ==> ret[i] == i
  {
    if |vec| == 0 {
      return [];
    }
    ret := IntRange(0, |vec| - 1);
  }

  /** with_index: each element paired with its index. */
  method WithIndex<T(!new)>(vec: seq<T>) returns (ret: seq<(int, T)>)
    ensures |ret| == |vec| && forall i :: 0 <= i < |vec| ==> ret[i] == (i, vec[i])
    ensures Zip.Seconds(ret) == vec
  {
    var idx := IndexRangeOf(vec);
    ret := Zip.Zip(idx, vec);
    Zip.UnzipZip(idx, vec);
    assert vec[..|idx|] == vec;
  }

  /** A stage of a pipeline whose element type stays T: a plain function,
      a filter or a transform of the whole vector. */
  datatype Stage<!T> = MapStage(f: T -> T) | FilterStage(p: T -> bool) | TransformStage(tr: seq<T> -> seq<T>)

  /** vec | stage. */
  function Apply<T(!new)>(vec: seq<T>, stage: Stage<T>): seq<T> {
    match stage
    case MapStage(f) => Mapped(f, vec)
    case FilterStage(p) => Filtered(p, vec)
    case TransformStage(tr) => tr(vec)
  }

  /** (vec | stages[0] | stages[1] | ...), grouped from the left as the
      fold expression of pipe_vec groups it. */
  function Pipe<T(!new)>(vec: seq<T>, stages: seq<Stage<T>>): seq<T>
    decreases |stages|
  {
    if |stages| == 0 then vec else Apply(Pipe(vec, stages[..|stages| - 1]), stages[|stages| - 1])
  }

  /** pipe_vec(vec, stages...): each stage applied by its operator| in
      turn. */
  method PipeVec<T(!new)>(vec: seq<T>, stages: seq<Stage<T>>) returns (ret: seq<T>)
    ensures ret == Pipe(vec, stages)
  {
    ret := vec;
    for k := 0 to |stages|
      invariant ret == Pipe(vec, stages[..k])
    {
      assert stages[..k + 1][..k] == stages[..k];
      match stages[k]
      case MapStage(f) =>
        ret := MapPipe(ret, f);
      case FilterStage(p) =>
        ret := FilterPipe(ret, p);
      case TransformStage(tr) =>
        ret := tr(ret);
    }
    assert stages[..|stages|] == stages;
  }

  // Laws of the stages.

  /** Filtering distributes over concatenation. */
  lemma {:induction false} FilteredConcat<T(!new)>(p: T -> bool, a: seq<T>, b: seq<T>)
    ensures Filtered(p, a + b) == Filtered(p, a) + Filtered(p, b)
    decreases |b|
  {
    if |b| > 0 {
      var b' := b[..|b| - 1];
      assert (a + b)[..|a + b| - 1] == a + b';
      FilteredConcat(p, a, b');
    } else {
      assert a + b == a;
    }
  }

  /** Nothing satisfying p leaves nothing. */
  lemma FilteredNone<T(!new)>(p: T -> bool, s: seq<T>)
    requires forall x :: x in s ==> !p(x)
    ensures Filtered(p, s) == []
  {
  }

  /** Everything satisfying p is kept whole. */
  lemma {:induction false} FilteredAll<T(!new)>(p: T -> bool, s: seq<T>)
    requires forall x :: x in s ==> p(x)
    ensures Filtered(p, s) == s
    decreases |s|
  {
    if |s| > 0 {
      assert s == s[..|s| - 1] + [s[|s| - 1]];
      FilteredAll(p, s[..|s| - 1]);
    }
  }

  /** Filtering twice by the same predicate is filtering once. */
  lemma FilteredIdempotent<T(!new)>(p: T -> bool, s: seq<T>)
    ensures Filtered(p, Filtered(p, s)) == Filtered(p, s)
  {
    FilteredAll(p, Filtered(p, s));
  }

  /** The two parts of a partition together are a permutation of the
      input. */
  lemma {:induction false} PartitionPermutes<T(!new)>(p: T -> bool, s: seq<T>)
    ensures multiset(Filtered(p, s)) + multiset(Filtered(Neg(p), s)) == multiset(s)
    decreases |s|
  {
    if |s| > 0 {
      var init, x := s[..|s| - 1], s[|s| - 1];
      assert s == init + [x];
      PartitionPermutes(p, init);
      FilteredSnoc(p, init, x);
      FilteredSnoc(Neg(p), init, x);
    }
  }

  /** Filtering a sequence extended by x extends the result by x exactly
      when x passes. */
  lemma FilteredSnoc<T(!new)>(p: T -> bool, s: seq<T>, x: T)
    ensures Filtered(p, s + [x]) == Filtered(p, s) + (if p(x) then [x] else [])
  {
    assert (s + [x])[..|s|] == s;
  }

  /** The elements satisfying p and those that do not add up to all. */
  lemma FilteredCounts<T(!new)>(p: T -> bool, s: seq<T>)
    ensures |Filtered(p, s)| + |Filtered(Neg(p), s)| == |s|
  {
    PartitionPermutes(p, s);
    assert |multiset(Filtered(p, s)) + multiset(Filtered(Neg(p), s))| == |multiset(s)|;
  }

  /** Every element lands in the group of its own key. */
  lemma GroupedByKey<T(!new), K>(key: T -> K, s: seq<T>, x: T)
    requires x in s
    ensures x in Filtered(KeyIs(key, key(x)), s)
    ensures forall y :: y in Filtered(KeyIs(key, key(x)), s) ==> key(y) == key(x)
  {
  }

  /** Folding a concatenation folds the second part from the fold of the
      first. */
  lemma {:induction false} FoldLConcat<A, T(!new)>(f: (A, T) -> A, init: A, a: seq<T>, b: seq<T>)
    ensures FoldL(f, init, a + b) == FoldL(f, FoldL(f, init, a), b)
    decreases |b|
  {
    if |b| > 0 {
      var b' := b[..|b| - 1];
      assert (a + b)[..|a + b| - 1] == a + b';
      FoldLConcat(f, init, a, b');
    } else {
      assert a + b == a;
    }
  }

  /** Reducing is folding the tail from the first element. */
  lemma {:induction false} ReduceIsFoldL<T(!new)>(f: (T, T) -> T, s: seq<T>)
    requires |s| > 0
    ensures Reduce(f, s) == FoldL(f, s[0], s[1..])
    decreases |s|
  {
    if |s| > 1 {
      var init := s[..|s| - 1];
      ReduceIsFoldL(f, init);
      assert init[1..] == s[1..][..|s[1..]| - 1];
      ReducePrefix(f, s, |s| - 1);
      assert s[..|s|] == s;
    }
  }

  /** Mapping distributes over concatenation. */
  lemma MappedConcat<T(!new), R>(f: T -> R, a: seq<T>, b: seq<T>)
    ensures Mapped(f, a + b) == Mapped(f, a) + Mapped(f, b)
  {
  }

  /** Mapping twice is mapping by the composition. */
  lemma MappedMapped<T(!new)>(f: T -> T, g: T -> T, s: seq<T>)
    ensures Mapped(g, Mapped(f, s)) == Mapped(x => g(f(x)), s)
  {
  }

  /** A pipeline of a + b is the pipeline of b applied to the result of
      the pipeline of a. */
  lemma {:induction false} PipeConcat<T(!new)>(vec: seq<T>, a: seq<Stage<T>>, b: seq<Stage<T>>)
    ensures Pipe(vec, a + b) == Pipe(Pipe(vec, a), b)
    decreases |b|
  {
    if |b| > 0 {
      var b' := b[..|b| - 1];
      assert (a + b)[..|a + b| - 1] == a + b';
      PipeConcat(vec, a, b');
    } else {
      assert a + b == a;
    }
  }
}
