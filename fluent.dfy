/** FluentCollection of fluent.hpp: a stored container plus a list of
    pending per-element steps. `map` and `filter` only append a step; the
    steps run element by element when the collection is read (`get`,
    `get_vector`), and every other operation reads it and builds a new
    collection or a value from the result.

    The model keeps one element type for the pending steps (a map step is
    T -> T); operations whose result has another element type read the
    collection first and start a new one over the result. */
module Fluent {
  import opened Algebra
  import opened Sorting
  import opened Functional
  import Zip

  datatype Option<T> = None | Some(value: T)

  /** A pending step: a plain map, or a filter-kind step, one returning an
      optional, that drops the element when it returns nothing. */
  datatype Step<!T> = MapStep(f: T -> T) | FilterStep(g: T -> Option<T>)

  /** get_helper(val, funcs): the steps applied to one element in order.
      A filter-kind step that lets the element through passes on the value
      it was given, not the one inside the optional it returned. */
  function GetHelper<T>(val: T, funcs: seq<Step<T>>): Option<T>
    decreases |funcs|
  {
    if |funcs| == 0 then Some(val)
    else
      match funcs[0]
      case FilterStep(g) => if g(val).None? then None else GetHelper(val, funcs[1..])
      case MapStep(f) => GetHelper(f(val), funcs[1..])
  }

  /** The survivors of the steps, in store order. */
  function Evaluated<T>(store: seq<T>, funcs: seq<Step<T>>): seq<T>
    decreases |store|
  {
    if |store| == 0 then []
    else
      var e := GetHelper(store[|store| - 1], funcs);
      Evaluated(store[..|store| - 1], funcs) + (if e.Some? then [e.value] else [])
  }

  /** The step `filter(p)` records: the element if p holds, else nothing. */
  function Keep<T>(p: T -> bool): T -> Option<T> {
    v => if p(v) then Some(v) else None
  }

  /** The ascending indices of the elements satisfying p. */
  function Indices<T(!new)>(p: T -> bool, s: seq<T>): (r: seq<int>)
    ensures forall i :: i in r <==> 0 <= i < |s| && p(s[i])
    ensures forall i, j :: 0 <= i < j < |r| ==> r[i] < r[j]
    ensures forall i :: 0 <= i < |r| ==> 0 <= r[i] < |s|
    decreases |s|
  {
    if |s| == 0 then []
    else
      var n := |s| - 1;
      var r := Indices(p, s[..n]);
      assert forall i :: 0 <= i < n ==> s[..n][i] == s[i];
      r + (if p(s[n]) then [n] else [])
  }

  /** Each element paired with its index, in the order with_index builds
      the rows: (value, index). */
  function Indexed<T>(s: seq<T>): (r: seq<(T, int)>)
    ensures |r| == |s| && forall i :: 0 <= i < |s| ==> r[i] == (s[i], i)
  {
    seq(|s|, i requires 0 <= i < |s| => (s[i], i))
  }

  /** The row predicate index_of filters by: p on the value. */
  function OnValue<T>(p: T -> bool): ((T, int)) -> bool {
    (row: (T, int)) => p(row.0)
  }

  /** The row map index_of ends with: the index. */
  function IndexOfRow<T>(row: (T, int)): int {
    row.1
  }

  class FluentCollection<T(!new)> {
    const store: seq<T>
    const funcs: seq<Step<T>>

    /** What reading the collection gives. */
    ghost function Contents(): seq<T> {
      Evaluated(store, funcs)
    }

    /** FluentCollection(source): the source and no pending steps. */
    constructor (source: seq<T>)
      ensures store == source && funcs == []
    {
      store := source;
      funcs := [];
    }

    /** The private constructor: a shared store and a list of steps. */
    constructor Pending(shared: seq<T>, steps: seq<Step<T>>)
      ensures store == shared && funcs == steps
    {
      store := shared;
      funcs := steps;
    }

    /** get_vector(): every stored element through the steps, with the
        dropped ones left out. */
    method GetVector() returns (ret: seq<T>)
      ensures ret == Evaluated(store, funcs)
    {
      ret := [];
      for k := 0 to |store|
        invariant ret == Evaluated(store[..k], funcs)
      {
        assert store[..k + 1][..k] == store[..k];
        var eval := GetHelper(store[k], funcs);
        if eval.Some? {
          ret := ret + [eval.value];
        }
      }
      assert store[..|store|] == store;
    }

    /** get(): the store itself when nothing is pending, else get_vector(). */
    method Get() returns (ret: seq<T>)
      ensures ret == Evaluated(store, funcs)
      ensures funcs == [] ==> ret == store
    {
      if |funcs| == 0 {
        EvaluatedNoSteps(store);
        ret := store;
      } else {
        ret := GetVector();
      }
    }

    /** get_first(): the first element read; there must be one. */
    method GetFirst() returns (ret: T)
      requires |Evaluated(store, funcs)| > 0
      ensures ret == Evaluated(store, funcs)[0]
    {
      var got := Get();
      ret := got[0];
    }

    /** map(func): the same store with func appended to the steps; reading
        it maps func over what this collection reads. */
    method Map(func: T -> T) returns (c: FluentCollection<T>)
      ensures c.store == store && c.funcs == funcs + [MapStep(func)]
      ensures c.Contents() == Mapped(func, Contents())
    {
      c := new FluentCollection.Pending(store, funcs + [MapStep(func)]);
      EvaluatedMap(store, funcs, func);
    }

    /** filter(func): the same store with a filter-kind step appended;
        reading it filters what this collection reads. */
    method Filter(func: T -> bool) returns (c: FluentCollection<T>)
      ensures c.store == store && c.funcs == funcs + [FilterStep(Keep(func))]
      ensures c.Contents() == Filtered(func, Contents())
    {
      c := new FluentCollection.Pending(store, funcs + [FilterStep(Keep(func))]);
      EvaluatedFilter(store, funcs, func);
    }

    /** flush(): a new collection over what this one reads. */
    method Flush() returns (c: FluentCollection<T>)
      ensures c.store == Contents() && c.funcs == []
    {
      var got := Get();
      c := new FluentCollection(got);
    }

    /** transform(func): a new collection over func of what this one reads. */
    method Transform<R(!new)>(func: seq<T> -> seq<R>) returns (c: FluentCollection<R>)
      ensures c.store == func(Contents()) && c.funcs == []
    {
      var got := Get();
      c := new FluentCollection(func(got));
    }

    /** partition(func): two vectors, the elements satisfying func and the
        others, each in order. */
    method Partition(func: T -> bool) returns (c: FluentCollection<seq<T>>)
      ensures c.store == [Filtered(func, Contents()), Filtered(Neg(func), Contents())]
      ensures c.funcs == []
      ensures multiset(c.store[0] + c.store[1]) == multiset(Contents())
    {
      var got := Get();
      var parts := PartitionPipe(got, func);
      c := new FluentCollection([parts.0, parts.1]);
    }

    /** group(func): a bucket per occurring key, holding the elements with
        that key in order. */
    method Group<K(==)>(func: T -> K) returns (groups: map<K, seq<T>>)
      ensures forall k :: k in groups <==> exists x :: x in Contents() && func(x) == k
      ensures forall k :: k in groups ==> groups[k] == Filtered(KeyIs(func, k), Contents())
    {
      var got := Get();
      groups := GroupByPipe(got, func);
    }

    /** group_ranged(range, func): bucket k holds the elements with key k
        in order; every key must lie in [0, range). */
    method GroupRanged(range: int, func: T -> int) returns (c: FluentCollection<seq<T>>)
      requires range >= 0
      requires forall x :: x in Contents() ==> 0 <= func(x) < range
      ensures |c.store| == range && c.funcs == []
      ensures forall k :: 0 <= k < range ==> c.store[k] == Filtered(KeyIs(func, k), Contents())
    {
      var got := Get();
      var ret: seq<seq<T>> := seq(range, _ => []);
      for i := 0 to |got|
        invariant |ret| == range
        invariant forall k :: 0 <= k < range ==> ret[k] == Filtered(KeyIs(func, k), got[..i])
      {
        assert got[..i + 1] == got[..i] + [got[i]];
        assert got[i] in got;
        var key := func(got[i]);
        ret := ret[key := ret[key] + [got[i]]];
      }
      assert got[..|got|] == got;
      c := new FluentCollection(ret);
    }

    /** reduce(op): the left fold from the first element read; there must
        be one. */
    method Reduce(op: (T, T) -> T) returns (ret: T)
      requires |Contents()| > 0
      ensures ret == Algebra.Reduce(op, Contents())
    {
      var got := Get();
      ret := ReducePipe(got, op);
    }

    /** running_reduce(op): the reductions of the non-empty prefixes of
        what is read; there must be an element. */
    method RunningReduce(op: (T, T) -> T) returns (c: FluentCollection<T>)
      requires |Contents()| > 0
      ensures |c.store| == |Contents()| && c.funcs == []
      ensures forall i :: 0 <= i < |c.store| ==> c.store[i] == Algebra.Reduce(op, Contents()[..i + 1])
    {
      var got := Get();
      var ret := RunningReducePipe(got, op);
      c := new FluentCollection(ret);
    }

    /** fold(init, op): the left fold from init. */
    method Fold<A>(init: A, op: (A, T) -> A) returns (ret: A)
      ensures ret == FoldL(op, init, Contents())
    {
      var got := Get();
      ret := FoldPipe(got, init, op);
    }

    /** running_fold(init, op): the folds of every prefix, from init to the
        fold of everything read. */
    method RunningFold<A(!new)>(init: A, op: (A, T) -> A) returns (c: FluentCollection<A>)
      ensures |c.store| == |Contents()| + 1 && c.funcs == []
      ensures forall i :: 0 <= i <= |Contents()| ==> c.store[i] == FoldL(op, init, Contents()[..i])
      ensures c.store[|Contents()|] == FoldL(op, init, Contents())
    {
      var got := Get();
      var ret := RunningFoldPipe(got, init, op);
      c := new FluentCollection(ret);
    }

    /** sorted_with(cmp): what is read, sorted by le (le(a, b) standing for
        !cmp(b, a)). */
    method SortedWith(le: (T, T) -> bool) returns (c: FluentCollection<T>)
      requires TotalPreorder(le)
      ensures SortedBy(c.store, le) && multiset(c.store) == multiset(Contents()) && c.funcs == []
    {
      var got := Get();
      var sorted := SortBy(got, le);
      c := new FluentCollection(sorted);
    }

    /** reversed(): what is read, back to front. */
    method Reversed() returns (c: FluentCollection<T>)
      ensures |c.store| == |Contents()| && c.funcs == []
      ensures forall i :: 0 <= i < |c.store| ==> c.store[i] == Contents()[|Contents()| - 1 - i]
    {
      var got := Get();
      c := new FluentCollection(Functional.Reversed(got));
    }

    /** with_index(): each element read paired with its index, as rows
        (value, index). */
    method WithIndex() returns (c: FluentCollection<(T, int)>)
      ensures c.store == Indexed(Contents()) && c.funcs == []
    {
      var got := Get();
      var index := IndexRangeOf(got);
      var rows := Zip.Zip(got, index);
      c := new FluentCollection(rows);
    }

    /** index_of(func): the ascending indices of the elements satisfying
        func. The source leaves the filter and the final map pending on the
        rows of with_index; here they are applied at once, the map changing
        the element type. */
    method IndexOf(func: T -> bool) returns (c: FluentCollection<int>)
      ensures c.store == Indices(func, Contents()) && c.funcs == []
    {
      var rows := WithIndex();
      EvaluatedNoSteps(rows.store);
      var kept := rows.Filter(OnValue(func));
      var got := kept.GetVector();
      var idx := MapPipe(got, IndexOfRow);
      IndicesOfRows(func, Contents());
      c := new FluentCollection(idx);
    }

    /** count(func): how many elements read satisfy func. */
    method Count(func: T -> bool) returns (count: int)
      ensures count == |Filtered(func, Contents())|
    {
      var got := Get();
      count := 0;
      for k := 0 to |got|
        invariant count == |Filtered(func, got[..k])|
      {
        assert got[..k + 1][..k] == got[..k];
        count := count + if func(got[k]) then 1 else 0;
      }
      assert got[..|got|] == got;
    }

    /** sorted_by(key): what is read, ordered by key, a permutation of it
        in which elements with equal keys keep their order. */
    method SortedByKey(key: T -> int) returns (c: FluentCollection<T>, ghost perm: seq<int>)
      ensures multiset(c.store) == multiset(Contents()) && c.funcs == []
      ensures forall i, j :: 0 <= i < j < |c.store| ==> key(c.store[i]) <= key(c.store[j])
      ensures |perm| == |c.store| == |Contents()|
      ensures forall i :: 0 <= i < |perm| ==> 0 <= perm[i] < |Contents()| && c.store[i] == Contents()[perm[i]]
      ensures forall i, j :: 0 <= i < j < |c.store| && key(c.store[i]) == key(c.store[j]) ==> perm[i] < perm[j]
    {
      var got := Get();
      var ret;
      ret, perm := SortByKey(got, key);
      c := new FluentCollection(ret);
    }

    /** distinct_by(key): per key that occurs, the first element read with
        that key, ordered by key. */
    method DistinctBy(key: T -> int) returns (c: FluentCollection<T>, ghost idx: seq<int>)
      ensures c.funcs == [] && |c.store| <= |Contents()| && |idx| == |c.store|
      ensures forall i :: 0 <= i < |idx| ==> 0 <= idx[i] < |Contents()| && c.store[i] == Contents()[idx[i]]
      ensures forall i, j :: 0 <= i < j < |c.store| ==> key(c.store[i]) < key(c.store[j])
      ensures forall i, j :: 0 <= i < |c.store| && 0 <= j < |Contents()| && key(Contents()[j]) == key(c.store[i]) ==> idx[i] <= j
      ensures forall j :: 0 <= j < |Contents()| ==> key(Contents()[j]) in Mapped(key, c.store)
    {
      var got := Get();
      var ret;
      ret, idx := DistinctByKey(got, key);
      c := new FluentCollection(ret);
    }
  }

  /** sorted(): ascending. */
  method Sorted(fc: FluentCollection<int>) returns (c: FluentCollection<int>)
    ensures SortedBy(c.store, Le) && multiset(c.store) == multiset(fc.Contents()) && c.funcs == []
  {
    LeTotal();
    c := fc.SortedWith(Le);
  }

  /** sorted_desc(): descending. */
  method SortedDesc(fc: FluentCollection<int>) returns (c: FluentCollection<int>)
    ensures SortedBy(c.store, Ge) && multiset(c.store) == multiset(fc.Contents()) && c.funcs == []
  {
    LeTotal();
    c := fc.SortedWith(Ge);
  }

  /** distinct(): sorted, then each run of equal values cut to one: the
      distinct values read, strictly increasing. */
  method Distinct(fc: FluentCollection<int>) returns (c: FluentCollection<int>)
    ensures Increasing(c.store) && c.funcs == []
    ensures forall x :: x in c.store <==> x in fc.Contents()
  {
    var sorted := Sorted(fc);
    assert forall x :: x in sorted.store <==> x in multiset(fc.Contents());
    var got := sorted.Get();
    UniqueSorted(got);
    c := new FluentCollection(UniqueBy(got, Eq));
  }

  /** max(): the largest value read (std::max_element); there must be one. */
  method Max(fc: FluentCollection<int>) returns (m: int)
    requires |fc.Contents()| > 0
    ensures m in fc.Contents() && forall x :: x in fc.Contents() ==> x <= m
  {
    var got := fc.Get();
    m := got[0];
    for i := 1 to |got|
      invariant m in got[..i] && forall k :: 0 <= k < i ==> got[k] <= m
    {
      assert got[..i + 1] == got[..i] + [got[i]];
      if m < got[i] {
        m := got[i];
      }
    }
    assert got[..|got|] == got;
  }

  /** min(): the smallest value read (std::min_element); there must be one. */
  method Min(fc: FluentCollection<int>) returns (m: int)
    requires |fc.Contents()| > 0
    ensures m in fc.Contents() && forall x :: x in fc.Contents() ==> m <= x
  {
    var got := fc.Get();
    m := got[0];
    for i := 1 to |got|
      invariant m in got[..i] && forall k :: 0 <= k < i ==> m <= got[k]
    {
      assert got[..i + 1] == got[..i] + [got[i]];
      if got[i] < m {
        m := got[i];
      }
    }
    assert got[..|got|] == got;
  }

  /** get_unzip(): the rows read, split into their columns; zipping the
      columns back gives the rows. */
  method GetUnzip<A(!new), B(!new)>(fc: FluentCollection<(A, B)>) returns (ret: (seq<A>, seq<B>))
    ensures |ret.0| == |fc.Contents()| && |ret.1| == |fc.Contents()|
    ensures forall i :: 0 <= i < |ret.0| ==> fc.Contents()[i] == (ret.0[i], ret.1[i])
  {
    var got := fc.Get();
    ret := Zip.Unzip(got);
  }

  /** Integer addition, std::plus<>. */
  function Plus(a: int, b: int): int {
    a + b
  }

  /** The sum of a sequence. */
  function Total(s: seq<int>): int
    decreases |s|
  {
    if |s| == 0 then 0 else Total(s[..|s| - 1]) + s[|s| - 1]
  }

  /** sum(): reduce with std::plus<>; there must be an element. */
  method Sum(fc: FluentCollection<int>) returns (total: int)
    requires |fc.Contents()| > 0
    ensures total == Total(fc.Contents())
  {
    total := fc.Reduce(Plus);
    ReducePlus(fc.Contents());
  }

  /** Reducing with addition sums. */
  lemma {:induction false} ReducePlus(s: seq<int>)
    requires |s| > 0
    ensures Algebra.Reduce(Plus, s) == Total(s)
    decreases |s|
  {
    if |s| > 1 {
      ReducePlus(s[..|s| - 1]);
      Algebra.ReducePrefix(Plus, s, |s| - 1);
      assert s[..|s|] == s;
    } else {
      assert s[..0] == [];
    }
  }

  /** fluent_range(lo, hi): a collection over lo, lo + 1, ..., hi; the
      range must not be empty. */
  method FluentRange(lo: int, hi: int) returns (c: FluentCollection<int>)
    requires lo <= hi
    ensures |c.store| == hi - lo + 1 && c.funcs == []
    ensures forall i :: 0 <= i < |c.store| ==> c.store[i] == lo + i
  {
    var range := IntRange(lo, hi);
    c := new FluentCollection(range);
  }

  /** fluent_iota(hi): a collection over 0, 1, ..., hi - 1; hi must be
      positive. */
  method FluentIota(hi: int) returns (c: FluentCollection<int>)
    requires hi > 0
    ensures |c.store| == hi && c.funcs == []
    ensures forall i :: 0 <= i < hi ==> c.store[i] == i
  {
    c := FluentRange(0, hi - 1);
  }

  /** fluent_index(collection): the indices of the collection; it must not
      be empty, as fluent_iota demands. */
  method FluentIndex<X>(collection: seq<X>) returns (c: FluentCollection<int>)
    requires |collection| > 0
    ensures |c.store| == |collection| && c.funcs == []
    ensures forall i :: 0 <= i < |collection| ==> c.store[i] == i
  {
    c := FluentIota(|collection|);
  }

  // Laws of the pending steps.

  /** No steps pass every element through. */
  lemma {:induction false} EvaluatedNoSteps<T>(store: seq<T>)
    ensures Evaluated(store, []) == store
    decreases |store|
  {
    if |store| > 0 {
      EvaluatedNoSteps(store[..|store| - 1]);
    }
  }

  /** A map step at the end maps the result of the earlier steps. */
  lemma {:induction false} HelperMap<T>(val: T, funcs: seq<Step<T>>, f: T -> T)
    ensures GetHelper(val, funcs + [MapStep(f)])
         == match GetHelper(val, funcs) case None => None case Some(w) => Some(f(w))
    decreases |funcs|
  {
    if |funcs| > 0 {
      assert (funcs + [MapStep(f)])[1..] == funcs[1..] + [MapStep(f)];
      match funcs[0]
      case FilterStep(g) => HelperMap(val, funcs[1..], f);
      case MapStep(h) => HelperMap(h(val), funcs[1..], f);
    }
  }

  /** A filter-kind step at the end drops what it returns nothing for and
      passes the rest unchanged. */
  lemma {:induction false} HelperFilter<T>(val: T, funcs: seq<Step<T>>, g: T -> Option<T>)
    ensures GetHelper(val, funcs + [FilterStep(g)])
         == match GetHelper(val, funcs) case None => None case Some(w) => if g(w).None? then None else Some(w)
    decreases |funcs|
  {
    if |funcs| > 0 {
      assert (funcs + [FilterStep(g)])[1..] == funcs[1..] + [FilterStep(g)];
      match funcs[0]
      case FilterStep(g') => HelperFilter(val, funcs[1..], g);
      case MapStep(h) => HelperFilter(h(val), funcs[1..], g);
    }
  }

  /** Recording map(f) maps f over what is read. */
  lemma {:induction false} EvaluatedMap<T(!new)>(store: seq<T>, funcs: seq<Step<T>>, f: T -> T)
    ensures Evaluated(store, funcs + [MapStep(f)]) == Mapped(f, Evaluated(store, funcs))
    decreases |store|
  {
    if |store| > 0 {
      var init, x := store[..|store| - 1], store[|store| - 1];
      EvaluatedMap(init, funcs, f);
      HelperMap(x, funcs, f);
      var a := Evaluated(init, funcs);
      var e := GetHelper(x, funcs);
      var b := if e.Some? then [e.value] else [];
      MappedConcat(f, a, b);
    }
  }

  /** Recording filter(p) filters what is read by p. */
  lemma {:induction false} EvaluatedFilter<T(!new)>(store: seq<T>, funcs: seq<Step<T>>, p: T -> bool)
    ensures Evaluated(store, funcs + [FilterStep(Keep(p))]) == Filtered(p, Evaluated(store, funcs))
    decreases |store|
  {
    if |store| > 0 {
      var init, x := store[..|store| - 1], store[|store| - 1];
      var a := Evaluated(init, funcs);
      var e := GetHelper(x, funcs);
      var b := if e.Some? then [e.value] else [];
      assert Evaluated(init, funcs + [FilterStep(Keep(p))]) == Filtered(p, a) by {
        EvaluatedFilter(init, funcs, p);
      }
      assert GetHelper(x, funcs + [FilterStep(Keep(p))]) == if e.Some? && p(e.value) then e else None by {
        HelperFilter(x, funcs, Keep(p));
      }
      assert Filtered(p, b) == if e.Some? && p(e.value) then [e.value] else [] by {
        if e.Some? {
          assert b[..0] == [];
        }
      }
      FilteredConcat(p, a, b);
    }
  }

  /** The filter and the map index_of applies to the rows give the indices
      of the elements satisfying p. */
  lemma {:induction false} IndicesOfRows<T(!new)>(p: T -> bool, s: seq<T>)
    ensures Mapped(IndexOfRow, Filtered(OnValue(p), Indexed(s))) == Indices(p, s)
    decreases |s|
  {
    if |s| > 0 {
      var n := |s| - 1;
      var rows := Indexed(s);
      var a := Filtered(OnValue(p), rows[..n]);
      var b := if p(s[n]) then [rows[n]] else [];
      var tail := if p(s[n]) then [n] else [];
      assert Mapped(IndexOfRow, a) == Indices(p, s[..n]) by {
        assert rows[..n] == Indexed(s[..n]);
        IndicesOfRows(p, s[..n]);
      }
      assert Filtered(OnValue(p), rows) == a + b by {
        assert rows[..|rows| - 1] == rows[..n];
      }
      assert Mapped(IndexOfRow, b) == tail;
      assert Indices(p, s) == Indices(p, s[..n]) + tail;
      MappedConcat(IndexOfRow, a, b);
    }
  }

  // sorted_by and distinct_by sort (key, index) pairs.

  /** The order std::sort gives pairs: by key, then by index. */
  function LexLe(a: (int, int), b: (int, int)): bool {
    a.0 < b.0 || (a.0 == b.0 && a.1 <= b.1)
  }

  lemma LexTotal()
    ensures TotalPreorder(LexLe)
  {
  }

  /** The pairs (key(vec[i]), i) the two lambdas start from. */
  function Keyed<T>(key: T -> int, vec: seq<T>): (r: seq<(int, int)>)
    ensures |r| == |vec| && forall i :: 0 <= i < |vec| ==> r[i] == (key(vec[i]), i)
  {
    seq(|vec|, i requires 0 <= i < |vec| => (key(vec[i]), i))
  }

  /** Building the pairs with emplace_back. */
  method KeyPairs<T>(vec: seq<T>, key: T -> int) returns (order: seq<(int, int)>)
    ensures order == Keyed(key, vec)
  {
    order := [];
    for i := 0 to |vec|
      invariant |order| == i && forall k :: 0 <= k < i ==> order[k] == (key(vec[k]), k)
    {
      order := order + [(key(vec[i]), i)];
    }
  }

  /** A rearrangement of the pairs holds pairs (key(vec[j]), j). */
  lemma FromKeyed<T>(key: T -> int, vec: seq<T>, order: seq<(int, int)>, i: int)
    requires multiset(order) == multiset(Keyed(key, vec)) && 0 <= i < |order|
    ensures 0 <= order[i].1 < |vec| && order[i].0 == key(vec[order[i].1])
  {
    assert order[i] in multiset(order);
    var j :| 0 <= j < |vec| && Keyed(key, vec)[j] == order[i];
  }

  /** Every pair occurs once among the pairs built from vec. */
  lemma {:induction false} KeyedOnce<T>(key: T -> int, vec: seq<T>, x: (int, int))
    ensures multiset(Keyed(key, vec))[x] <= 1
    decreases |vec|
  {
    if |vec| > 0 {
      var n := |vec| - 1;
      var r := Keyed(key, vec);
      assert r == Keyed(key, vec[..n]) + [r[n]];
      KeyedOnce(key, vec[..n], x);
      if x == r[n] {
        assert x !in Keyed(key, vec[..n]);
      }
    }
  }

  /** An element at two positions occurs twice. */
  lemma TwoCopies<X>(s: seq<X>, i: int, j: int)
    requires 0 <= i < j < |s| && s[i] == s[j]
    ensures multiset(s)[s[i]] >= 2
  {
    assert s == s[..j] + [s[j]] + s[j + 1..];
    assert s[i] in multiset(s[..j]);
  }

  /** A rearrangement of the pairs names every index at most once. */
  lemma OrderInjective<T>(key: T -> int, vec: seq<T>, order: seq<(int, int)>)
    requires multiset(order) == multiset(Keyed(key, vec))
    ensures forall i, j :: 0 <= i < j < |order| ==> order[i].1 != order[j].1
  {
    forall i, j | 0 <= i < j < |order|
      ensures order[i].1 != order[j].1
    {
      FromKeyed(key, vec, order, i);
      FromKeyed(key, vec, order, j);
      if order[i].1 == order[j].1 {
        TwoCopies(order, i, j);
        KeyedOnce(key, vec, order[i]);
      }
    }
  }

  /** Mapping over two rearrangements of each other gives rearrangements of
      each other. */
  lemma {:induction false} MultisetMapped<X(!new), Y>(g: X -> Y, a: seq<X>, b: seq<X>)
    requires multiset(a) == multiset(b)
    ensures multiset(Mapped(g, a)) == multiset(Mapped(g, b))
    decreases |a|
  {
    if |a| == 0 {
      assert |b| == |multiset(b)| == 0;
    } else {
      var n := |a| - 1;
      var x := a[n];
      assert a == a[..n] + [x];
      assert x in multiset(b);
      var j :| 0 <= j < |b| && b[j] == x;
      RemoveAt(b, j);
      MultisetMapped(g, a[..n], b[..j] + b[j + 1..]);
      MappedLast(g, a);
      MappedRemoveAt(g, b, j);
    }
  }

  lemma MappedLast<X(!new), Y>(g: X -> Y, a: seq<X>)
    requires |a| > 0
    ensures multiset(Mapped(g, a)) == multiset(Mapped(g, a[..|a| - 1])) + multiset{g(a[|a| - 1])}
  {
    assert Mapped(g, a) == Mapped(g, a[..|a| - 1]) + [g(a[|a| - 1])];
  }

  lemma MappedRemoveAt<X(!new), Y>(g: X -> Y, b: seq<X>, j: int)
    requires 0 <= j < |b|
    ensures multiset(Mapped(g, b)) == multiset(Mapped(g, b[..j] + b[j + 1..])) + multiset{g(b[j])}
  {
    var m := Mapped(g, b);
    assert Mapped(g, b[..j] + b[j + 1..]) == m[..j] + m[j + 1..];
    RemoveAt(m, j);
  }

  /** Removing position j removes one copy of its element. */
  lemma RemoveAt<X>(s: seq<X>, j: int)
    requires 0 <= j < |s|
    ensures multiset(s[..j] + s[j + 1..]) == multiset(s) - multiset{s[j]}
  {
    assert s == s[..j] + [s[j]] + s[j + 1..];
  }

  /** The lambda of sorted_by(key): the pairs sorted, then the element at
      each pair's index. The result is ordered by key and is a permutation
      of vec; `perm` gives each result's index in vec, and of two elements
      with equal keys the earlier one in vec comes first. */
  method SortByKey<T(!new)>(vec: seq<T>, key: T -> int) returns (ret: seq<T>, ghost perm: seq<int>)
    ensures |ret| == |vec| && multiset(ret) == multiset(vec)
    ensures forall i, j :: 0 <= i < j < |ret| ==> key(ret[i]) <= key(ret[j])
    ensures |perm| == |ret| && forall i :: 0 <= i < |ret| ==> 0 <= perm[i] < |vec| && ret[i] == vec[perm[i]]
    ensures forall i, j :: 0 <= i < j < |ret| && key(ret[i]) == key(ret[j]) ==> perm[i] < perm[j]
  {
    var order := KeyPairs(vec, key);
    LexTotal();
    order := SortBy(order, LexLe);
    assert |order| == |multiset(order)| == |vec|;
    OrderInjective(key, vec, order);
    ret := [];
    perm := [];
    for i := 0 to |vec|
      invariant |ret| == i && |perm| == i
      invariant forall k :: 0 <= k < i ==> perm[k] == order[k].1 && 0 <= perm[k] < |vec| && ret[k] == vec[perm[k]]
    {
      FromKeyed(key, vec, order, i);
      ret := ret + [vec[order[i].1]];
      perm := perm + [order[i].1];
    }
    forall i | 0 <= i < |ret|
      ensures key(ret[i]) == order[i].0
    {
      FromKeyed(key, vec, order, i);
    }
    if |vec| > 0 {
      var g := (p: (int, int)) => if 0 <= p.1 < |vec| then vec[p.1] else vec[0];
      MultisetMapped(g, order, Keyed(key, vec));
      assert Mapped(g, order) == ret;
      assert Mapped(g, Keyed(key, vec)) == vec;
    }
  }

  /** Two pairs have the same key: the comparison distinct_by hands to
      std::unique. */
  function SameKey(a: (int, int), b: (int, int)): bool {
    a.0 == b.0
  }

  /** Some pair of u has x's key and an index no larger than x's. */
  ghost predicate HasRep(u: seq<(int, int)>, x: (int, int)) {
    exists y :: y in u && y.0 == x.0 && y.1 <= x.1
  }

  /** std::unique by key on pairs sorted by (key, index): one pair per key,
      keys increasing, and each key's pair has the smallest index. */
  lemma UniqueByKey(order: seq<(int, int)>)
    requires SortedBy(order, LexLe)
    ensures forall i, j :: 0 <= i < j < |UniqueBy(order, SameKey)| ==> UniqueBy(order, SameKey)[i].0 < UniqueBy(order, SameKey)[j].0
    ensures forall x :: x in order ==> HasRep(UniqueBy(order, SameKey), x)
  {
    if |order| > 0 {
      UniqueFromKeys(order[1..], [order[0]]);
      UniqueFromCovers(order[1..], [order[0]]);
      assert order == [order[0]] + order[1..];
      var u := UniqueBy(order, SameKey);
      assert u[..1] == [order[0]];
      assert order[0] in u;
    }
  }

  /** The scan keeps the keys strictly increasing ... */
  lemma {:induction false} UniqueFromKeys(s: seq<(int, int)>, kept: seq<(int, int)>)
    requires |kept| > 0 && SortedBy(s, LexLe)
    requires forall i, j :: 0 <= i < j < |kept| ==> kept[i].0 < kept[j].0
    requires forall x :: x in s ==> LexLe(kept[|kept| - 1], x)
    ensures forall i, j :: 0 <= i < j < |UniqueFrom(s, SameKey, kept)| ==> UniqueFrom(s, SameKey, kept)[i].0 < UniqueFrom(s, SameKey, kept)[j].0
    decreases |s|
  {
    if |s| > 0 {
      var last := kept[|kept| - 1];
      var k := if SameKey(last, s[0]) then kept else kept + [s[0]];
      assert s[0] in s;
      assert forall x :: x in s[1..] ==> LexLe(s[0], x);
      if !SameKey(last, s[0]) {
        assert forall i :: 0 <= i < |kept| ==> kept[i].0 < s[0].0;
      }
      assert LexLe(k[|k| - 1], s[0]) && k[|k| - 1].0 == s[0].0;
      UniqueFromKeys(s[1..], k);
      assert UniqueFrom(s, SameKey, kept) == UniqueFrom(s[1..], SameKey, k);
    }
  }

  /** ... and keeps, for every pair it passes, one with the same key and an
      index no larger. */
  lemma {:induction false} UniqueFromCovers(s: seq<(int, int)>, kept: seq<(int, int)>)
    requires |kept| > 0 && SortedBy(s, LexLe)
    requires forall x :: x in s ==> LexLe(kept[|kept| - 1], x)
    ensures forall x :: x in s ==> HasRep(UniqueFrom(s, SameKey, kept), x)
    decreases |s|
  {
    if |s| > 0 {
      var last := kept[|kept| - 1];
      var k := if SameKey(last, s[0]) then kept else kept + [s[0]];
      assert s[0] in s;
      assert forall x :: x in s[1..] ==> LexLe(s[0], x);
      assert LexLe(k[|k| - 1], s[0]) && k[|k| - 1].0 == s[0].0;
      UniqueFromCovers(s[1..], k);
      var r := UniqueFrom(s, SameKey, kept);
      assert r == UniqueFrom(s[1..], SameKey, k);
      assert r[..|k|] == k;
      assert k[|k| - 1] in r;
      assert HasRep(r, s[0]);
      assert forall x :: x in s ==> x == s[0] || x in s[1..];
    }
  }

  /** The pairs distinct_by keeps name valid positions of vec. */
  lemma ChosenValid<T>(key: T -> int, vec: seq<T>, order: seq<(int, int)>, u: seq<(int, int)>)
    requires multiset(order) == multiset(Keyed(key, vec))
    requires forall x :: x in u ==> x in order
    ensures forall i :: 0 <= i < |u| ==> 0 <= u[i].1 < |vec| && u[i].0 == key(vec[u[i].1])
  {
    forall i | 0 <= i < |u|
      ensures 0 <= u[i].1 < |vec| && u[i].0 == key(vec[u[i].1])
    {
      assert u[i] in order;
      var p :| 0 <= p < |order| && order[p] == u[i];
      FromKeyed(key, vec, order, p);
    }
  }

  /** Every position of vec has its key's pair among those kept, with an
      index no larger. */
  lemma ChosenCover<T>(key: T -> int, vec: seq<T>, order: seq<(int, int)>, u: seq<(int, int)>)
    requires multiset(order) == multiset(Keyed(key, vec))
    requires forall x :: x in order ==> HasRep(u, x)
    ensures forall j :: 0 <= j < |vec| ==> KeptAt(u, KeyAt(key, vec, j), j)
  {
    forall j | 0 <= j < |vec|
      ensures KeptAt(u, KeyAt(key, vec, j), j)
    {
      assert Keyed(key, vec)[j] in multiset(order);
      assert Keyed(key, vec)[j] in order;
      assert HasRep(u, (key(vec[j]), j));
      var y :| y in u && y.0 == key(vec[j]) && y.1 <= j;
      var i :| 0 <= i < |u| && u[i] == y;
      assert u[i].0 == KeyAt(key, vec, j) && u[i].1 <= j;
    }
  }

  /** The key of vec[j]; named so that a statement about every position
      does not fire on every element term. */
  ghost function KeyAt<T>(key: T -> int, vec: seq<T>, j: int): int
    requires 0 <= j < |vec|
  {
    key(vec[j])
  }

  /** Some pair of u has key k and an index no larger than j. */
  ghost predicate KeptAt(u: seq<(int, int)>, k: int, j: int) {
    exists i :: 0 <= i < |u| && u[i].0 == k && u[i].1 <= j
  }

  /** What the pairs distinct_by keeps satisfy: they name positions of
      vec with their keys, the keys increase, and every position of vec has
      its key's pair kept, with an index no larger. */
  ghost predicate Chosen<T>(key: T -> int, vec: seq<T>, u: seq<(int, int)>) {
    (forall i :: 0 <= i < |u| ==> 0 <= u[i].1 < |vec| && u[i].0 == key(vec[u[i].1])) &&
    (forall i, j :: 0 <= i < j < |u| ==> u[i].0 < u[j].0) &&
    (forall j :: 0 <= j < |vec| ==> KeptAt(u, KeyAt(key, vec, j), j))
  }

  lemma ChosenPairs<T>(key: T -> int, vec: seq<T>, order: seq<(int, int)>)
    requires multiset(order) == multiset(Keyed(key, vec)) && SortedBy(order, LexLe)
    ensures Chosen(key, vec, UniqueBy(order, SameKey))
  {
    UniqueByKey(order);
    var u := UniqueBy(order, SameKey);
    ChosenValid(key, vec, order, u);
    ChosenCover(key, vec, order, u);
  }

  /** The elements at the kept pairs' indices are what distinct_by
      promises. */
  lemma ChosenElements<T(!new)>(key: T -> int, vec: seq<T>, u: seq<(int, int)>, ret: seq<T>, idx: seq<int>)
    requires Chosen(key, vec, u)
    requires |ret| == |u| && |idx| == |u|
    requires forall k :: 0 <= k < |u| ==> idx[k] == u[k].1 && ret[k] == vec[u[k].1]
    ensures forall i :: 0 <= i < |ret| ==> 0 <= idx[i] < |vec| && ret[i] == vec[idx[i]]
    ensures forall i, j :: 0 <= i < j < |ret| ==> key(ret[i]) < key(ret[j])
    ensures forall i, j :: 0 <= i < |ret| && 0 <= j < |vec| && key(vec[j]) == key(ret[i]) ==> idx[i] <= j
    ensures forall j :: 0 <= j < |vec| ==> key(vec[j]) in Mapped(key, ret)
  {
    assert forall i :: 0 <= i < |ret| ==> key(ret[i]) == u[i].0;
    forall i, j | 0 <= i < |ret| && 0 <= j < |vec| && key(vec[j]) == key(ret[i])
      ensures idx[i] <= j
    {
      assert KeptAt(u, KeyAt(key, vec, j), j);
      var i' :| 0 <= i' < |u| && u[i'].0 == KeyAt(key, vec, j) && u[i'].1 <= j;
      assert i' == i;
    }
    forall j | 0 <= j < |vec|
      ensures key(vec[j]) in Mapped(key, ret)
    {
      assert KeptAt(u, KeyAt(key, vec, j), j);
      var i' :| 0 <= i' < |u| && u[i'].0 == KeyAt(key, vec, j) && u[i'].1 <= j;
      assert Mapped(key, ret)[i'] == key(vec[j]);
    }
  }

  /** The lambda of distinct_by(key): for each key that occurs, the element
      of vec with the smallest index among those with that key, ordered by
      key. `idx` gives each result's index in vec. */
  method DistinctByKey<T(!new)>(vec: seq<T>, key: T -> int) returns (ret: seq<T>, ghost idx: seq<int>)
    ensures |ret| <= |vec| && |idx| == |ret|
    ensures forall i :: 0 <= i < |ret| ==> 0 <= idx[i] < |vec| && ret[i] == vec[idx[i]]
    ensures forall i, j :: 0 <= i < j < |ret| ==> key(ret[i]) < key(ret[j])
    ensures forall i, j :: 0 <= i < |ret| && 0 <= j < |vec| && key(vec[j]) == key(ret[i]) ==> idx[i] <= j
    ensures forall j :: 0 <= j < |vec| ==> key(vec[j]) in Mapped(key, ret)
  {
    var order := KeyPairs(vec, key);
    LexTotal();
    order := SortBy(order, LexLe);
    assert |order| == |multiset(order)| == |vec|;
    ChosenPairs(key, vec, order);
    var u := UniqueBy(order, SameKey);
    ret := [];
    idx := [];
    for i := 0 to |u|
      invariant |ret| == i && |idx| == i
      invariant forall k :: 0 <= k < i ==> idx[k] == u[k].1 && ret[k] == vec[u[k].1]
    {
      assert 0 <= u[i].1 < |vec|;
      ret := ret + [vec[u[i].1]];
      idx := idx + [u[i].1];
    }
    ChosenElements(key, vec, u, ret, idx);
  }
}
