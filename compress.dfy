/** The coordinate compressors of compress.hpp.

    `LiveCompressor` hands out ids 0, 1, 2, ... to elements in the order
    they are first inserted. `DeferredCompressor` collects values and
    `finalize` turns them into a `FinalizedCompressor`, which maps a value
    to its rank among the distinct collected values. */
module Compress {
  import opened Sorting


  /** The ids of a live compressor: `order` lists the inserted elements by
      id, and `store` maps each element back to its id. */
  ghost predicate Numbered<T>(store: map<T, nat>, ptr: nat, order: seq<T>) {
    |order| == ptr && |store| == ptr &&
    (forall i :: 0 <= i < |order| ==> order[i] in store && store[order[i]] == i) &&
    (forall k :: k in store ==> store[k] < ptr && order[store[k]] == k)
  }

  /** store and ptr after `insert` of each of es in turn. */
  function InsertAll<T(==)>(store: map<T, nat>, ptr: nat, es: seq<T>): (r: (map<T, nat>, nat))
    ensures r.0.Keys == store.Keys + set e | e in es
    decreases |es|
  {
    if |es| == 0 then (store, ptr)
    else
      var s1 := if es[0] in store then store else store[es[0] := ptr];
      var p1 := if es[0] in store then ptr else ptr + 1;
      var r := InsertAll(s1, p1, es[1..]);
      assert (set e | e in es) == {es[0]} + set e | e in es[1..];
      r
  }

  /** LiveCompressor<T, Store>: `store` is the Store map, `ptr` the next id. */
  class LiveCompressor<T(==)> {
    var store: map<T, nat>
    var ptr: nat
    ghost var order: seq<T>

    ghost predicate Valid()
      reads this
    {
      Numbered(store, ptr, order)
    }

    constructor ()
      ensures Valid() && store == map[] && ptr == 0
    {
      store := map[];
      ptr := 0;
      order := [];
    }

    /** insert(element): a new element gets id ptr and ptr moves on; an
        element already present changes nothing. */
    method Insert(element: T)
      requires Valid()
      modifies this
      ensures Valid()
      ensures element in old(store) ==> store == old(store) && ptr == old(ptr) && order == old(order)
      ensures element !in old(store) ==>
        store == old(store)[element := old(ptr)] && ptr == old(ptr) + 1 && order == old(order) + [element]
    {
      if element !in store {
        store := store[element := ptr];
        ptr := ptr + 1;
        order := order + [element];
      }
    }

    /** insert(elements): insert each in turn. */
    method InsertSeq(elements: seq<T>)
      requires Valid()
      modifies this
      ensures Valid() && (store, ptr) == InsertAll(old(store), old(ptr), elements)
    {
      for k := 0 to |elements|
        invariant Valid()
        invariant InsertAll(store, ptr, elements[k..]) == InsertAll(old(store), old(ptr), elements)
      {
        assert elements[k..][1..] == elements[k + 1..];
        Insert(elements[k]);
      }
    }

    /** compress(val): the id of an inserted value. */
    function Compress(val: T): (id: nat)
      reads this
      requires Valid() && val in store
      ensures id < Size() && order[id] == val
    {
      store[val]
    }

    /** compress(vals): compress of each, in order. */
    method CompressSeq(vals: seq<T>) returns (ret: seq<nat>)
      requires Valid() && forall v :: v in vals ==> v in store
      ensures |ret| == |vals|
      ensures forall i :: 0 <= i < |vals| ==> ret[i] == Compress(vals[i])
    {
      ret := [];
      for k := 0 to |vals|
        invariant |ret| == k
        invariant forall i :: 0 <= i < k ==> ret[i] == Compress(vals[i])
      {
        ret := ret + [Compress(vals[k])];
      }
    }

    /** size(): the number of distinct elements inserted, which is also the
        next id. */
    function Size(): (n: nat)
      reads this
      requires Valid()
      ensures n == |order| == ptr
    {
      |store|
    }
  }

  /** Two elements share an id only if they are equal: ids are distinct. */
  lemma CompressInjective<T>(c: LiveCompressor<T>, a: T, b: T)
    requires c.Valid() && a in c.store && b in c.store
    ensures c.Compress(a) == c.Compress(b) <==> a == b
  {
  }

  /** After inserting es into an empty compressor, the ids follow first
      appearance: an element's id is the number of distinct elements that
      appear before its first occurrence. */
  lemma {:induction false} InsertAllFirstSeen<T>(store: map<T, nat>, ptr: nat, order: seq<T>, es: seq<T>)
    requires Numbered(store, ptr, order)
    ensures Numbered(InsertAll(store, ptr, es).0, InsertAll(store, ptr, es).1, order + Fresh(order, es))
    decreases |es|
  {
    if |es| > 0 {
      var e := es[0];
      SeenIff(store, ptr, order, e);
      if e in store {
        InsertAllFirstSeen(store, ptr, order, es[1..]);
      } else {
        NumberedInsert(store, ptr, order, e);
        InsertAllFirstSeen(store[e := ptr], ptr + 1, order + [e], es[1..]);
        Assoc(order, e, Fresh(order + [e], es[1..]));
      }
    }
  }

  lemma Assoc<T>(a: seq<T>, e: T, b: seq<T>)
    ensures a + ([e] + b) == (a + [e]) + b
  {
  }

  /** An element has an id exactly when it is listed. */
  lemma SeenIff<T>(store: map<T, nat>, ptr: nat, order: seq<T>, e: T)
    requires Numbered(store, ptr, order)
    ensures e in store <==> e in order
  {
    if e in order {
      var i :| 0 <= i < |order| && order[i] == e;
    }
  }

  /** Inserting a new element keeps the numbering. */
  lemma NumberedInsert<T>(store: map<T, nat>, ptr: nat, order: seq<T>, e: T)
    requires Numbered(store, ptr, order) && e !in store
    ensures Numbered(store[e := ptr], ptr + 1, order + [e])
  {
    var s1, o1 := store[e := ptr], order + [e];
    forall i | 0 <= i < |o1|
      ensures o1[i] in s1 && s1[o1[i]] == i
    {
      if i < |order| {
        assert o1[i] == order[i] && order[i] != e;
      }
    }
  }

  /** The elements of es not seen before, in first-appearance order. */
  function Fresh<T(==)>(seen: seq<T>, es: seq<T>): seq<T>
    decreases |es|
  {
    if |es| == 0 then []
    else if es[0] in seen then Fresh(seen, es[1..])
    else [es[0]] + Fresh(seen + [es[0]], es[1..])
  }

  /** The exact order the source promises: starting empty, `order` is the
      list of distinct elements in first-appearance order. */
  lemma InsertAllFromEmpty<T>(es: seq<T>)
    ensures Numbered(InsertAll(map[], 0, es).0, InsertAll(map[], 0, es).1, Fresh([], es))
  {
    InsertAllFirstSeen(map[], 0, [], es);
    assert [] + Fresh([], es) == Fresh([], es);
  }

  /** init's vectors one after another. */
  function Flatten(init: seq<seq<int>>): (r: seq<int>)
  {
    if |init| == 0 then [] else Flatten(init[..|init| - 1]) + init[|init| - 1]
  }

  /** DeferredCompressor<T>, for T = int: `store` collects the values. */
  class DeferredCompressor {
    var store: seq<int>

    /** DeferredCompressor(): nothing collected. */
    constructor ()
      ensures store == []
    {
      store := [];
    }

    /** DeferredCompressor(init): the vectors of init concatenated in order. */
    constructor FromVectors(init: seq<seq<int>>)
      ensures store == Flatten(init)
    {
      var total := 0;
      for k := 0 to |init|
        invariant total == |Flatten(init[..k])|
      {
        assert init[..k + 1][..k] == init[..k];
        total := total + |init[k]|;
      }
      assert init[..|init|] == init;
      var s := [];
      for k := 0 to |init|
        invariant s == Flatten(init[..k])
      {
        assert init[..k + 1][..k] == init[..k];
        s := s + init[k];
      }
      store := s;
    }

    /** insert(element): appended. */
    method Insert(element: int)
      modifies this
      ensures store == old(store) + [element]
    {
      store := store + [element];
    }

    /** insert(elements): appended in order. */
    method InsertSeq(elements: seq<int>)
      modifies this
      ensures store == old(store) + elements
    {
      for k := 0 to |elements|
        invariant store == old(store) + elements[..k]
      {
        assert elements[..k + 1] == elements[..k] + [elements[k]];
        Insert(elements[k]);
      }
      assert elements[..|elements|] == elements;
    }

    /** finalize(): a compressor over the distinct collected values in
        increasing order; the collected values stay as they are. */
    method Finalize() returns (f: FinalizedCompressor)
      ensures fresh(f) && f.Valid()
      ensures forall x :: x in f.store <==> x in store
    {
      LeTotal();
      var sorted := SortBy(store, Le);
      assert forall x :: x in sorted <==> x in multiset(store);
      UniqueSorted(sorted);
      f := new FinalizedCompressor(UniqueBy(sorted, Eq));
    }
  }

  /** The number of leading elements of s smaller than v: where
      std::lower_bound stops. */
  function LowerBound(s: seq<int>, v: int): (p: nat)
    ensures p <= |s|
    ensures forall i :: 0 <= i < p ==> s[i] < v
    ensures p < |s| ==> s[p] >= v
  {
    if |s| == 0 || s[0] >= v then 0 else 1 + LowerBound(s[1..], v)
  }

  /** In a sorted sequence every element from the lower bound on is at
      least v, so the lower bound counts the elements smaller than v. */
  lemma LowerBoundSplits(s: seq<int>, v: int)
    requires Increasing(s)
    ensures forall i :: LowerBound(s, v) <= i < |s| ==> s[i] >= v
  {
  }

  /** FinalizedCompressor<T>: the distinct values, increasing. */
  class FinalizedCompressor {
    const store: seq<int>

    ghost predicate Valid()
      reads this
    {
      Increasing(store)
    }

    /** FinalizedCompressor(data): keeps data. */
    constructor (data: seq<int>)
      ensures store == data
    {
      store := data;
    }

    /** compress(val): lower_bound's position, by binary search. */
    method Compress(val: int) returns (pos: nat)
      requires Valid()
      ensures pos == LowerBound(store, val)
    {
      var lo, hi := 0, |store|;
      LowerBoundSplits(store, val);
      while lo < hi
        invariant 0 <= lo <= LowerBound(store, val) <= hi <= |store|
      {
        var mid := lo + (hi - lo) / 2;
        if store[mid] < val {
          lo := mid + 1;
        } else {
          hi := mid;
        }
      }
      pos := lo;
    }

    /** compress(vals): compress of each, in order. */
    method CompressSeq(vals: seq<int>) returns (ret: seq<nat>)
      requires Valid()
      ensures |ret| == |vals|
      ensures forall i :: 0 <= i < |vals| ==> ret[i] == LowerBound(store, vals[i])
    {
      ret := [];
      for k := 0 to |vals|
        invariant |ret| == k
        invariant forall i :: 0 <= i < k ==> ret[i] == LowerBound(store, vals[i])
      {
        var c := Compress(vals[k]);
        ret := ret + [c];
      }
    }

    /** size(): the number of distinct values. */
    function Size(): (n: nat)
      reads this
      ensures n == |store|
    {
      |store|
    }
  }

  /** A stored value's compressed id is its index: store[compress(v)] == v. */
  lemma LowerBoundFinds(s: seq<int>, v: int)
    requires Increasing(s) && v in s
    ensures LowerBound(s, v) < |s| && s[LowerBound(s, v)] == v
  {
    var j :| 0 <= j < |s| && s[j] == v;
    var p := LowerBound(s, v);
    assert p <= j;
  }

  /** Compression preserves order: on stored values it is strictly
      monotone, and on any values non-decreasing. */
  lemma LowerBoundMonotone(s: seq<int>, a: int, b: int)
    requires Increasing(s) && a < b
    ensures LowerBound(s, a) <= LowerBound(s, b)
    ensures a in s ==> LowerBound(s, a) < LowerBound(s, b)
  {
    var pa, pb := LowerBound(s, a), LowerBound(s, b);

    if a in s {
      LowerBoundFinds(s, a);
      assert s[pa] == a < b;
    }
  }
}
