/** Sorting and de-duplication as the library calls them (`std::sort`,
    `std::unique` followed by `erase`). `std::sort` is modelled by an
    insertion sort over a total preorder `le`, where le(a, b) stands for
    "not cmp(b, a)"; only its result is modelled, which is determined up to
    the order of equivalent elements. */
module Sorting {

  /** le is total and transitive: the "not after" relation of a strict
      weak order. */
  ghost predicate TotalPreorder<T(!new)>(le: (T, T) -> bool) {
    (forall a, b :: le(a, b) || le(b, a)) &&
    (forall a, b, c :: le(a, b) && le(b, c) ==> le(a, c))
  }

  /** s is ordered by le. */
  ghost predicate SortedBy<T>(s: seq<T>, le: (T, T) -> bool) {
    forall i, j :: 0 <= i < j < |s| ==> le(s[i], s[j])
  }

  /** x placed into s before the first element it is not after. */
  function InsertBy<T>(s: seq<T>, x: T, le: (T, T) -> bool): (r: seq<T>)
    ensures multiset(r) == multiset(s) + multiset{x}
    ensures |r| == |s| + 1 && r[0] == if |s| == 0 || le(x, s[0]) then x else s[0]
  {
    if |s| == 0 then [x]
    else if le(x, s[0]) then [x] + s
    else
      assert s == [s[0]] + s[1..];
      [s[0]] + InsertBy(s[1..], x, le)
  }

  lemma {:induction false} InsertBySorted<T(!new)>(s: seq<T>, x: T, le: (T, T) -> bool)
    requires TotalPreorder(le) && SortedBy(s, le)
    ensures SortedBy(InsertBy(s, x, le), le)
  {
    if |s| > 0 && !le(x, s[0]) {
      InsertBySorted(s[1..], x, le);
      var t := InsertBy(s[1..], x, le);
      assert le(s[0], t[0]);
      assert forall j :: 0 <= j < |t| ==> le(s[0], t[j]);
    } else if |s| > 0 {
      assert forall j :: 0 <= j < |s| ==> le(x, s[j]);
    }
  }

  /** std::sort(begin, end, cmp): a permutation of s ordered by le. */
  method SortBy<T(!new)>(s: seq<T>, le: (T, T) -> bool) returns (r: seq<T>)
    requires TotalPreorder(le)
    ensures SortedBy(r, le) && multiset(r) == multiset(s)
  {
    r := [];
    for k := 0 to |s|
      invariant SortedBy(r, le) && multiset(r) == multiset(s[..k])
    {
      assert s[..k + 1] == s[..k] + [s[k]];
      InsertBySorted(r, s[k], le);
      r := InsertBy(r, s[k], le);
    }
    assert s[..|s|] == s;
  }

  /** The natural order of integers, as `std::less<>` sorts them. */
  function Le(a: int, b: int): bool {
    a <= b
  }

  /** The reverse order, as `std::greater<>` sorts them. */
  function Ge(a: int, b: int): bool {
    a >= b
  }

  lemma LeTotal()
    ensures TotalPreorder(Le) && TotalPreorder(Ge)
  {
  }

  /** Strictly increasing. */
  ghost predicate Increasing(s: seq<int>) {
    forall i, j :: 0 <= i < j < |s| ==> s[i] < s[j]
  }

  /** std::unique then erase, with `same` comparing an element to the last
      one kept: the first element of every run of `same` elements. */
  function UniqueBy<T>(s: seq<T>, same: (T, T) -> bool): (r: seq<T>)
    ensures |r| <= |s| && (|s| > 0 ==> |r| > 0 && r[0] == s[0])
    ensures forall x :: x in r ==> x in s
  {
    if |s| == 0 then [] else UniqueFrom(s[1..], same, [s[0]])
  }

  /** The rest of the scan, with `kept` so far (never empty). */
  function UniqueFrom<T>(s: seq<T>, same: (T, T) -> bool, kept: seq<T>): (r: seq<T>)
    requires |kept| > 0
    ensures |r| <= |kept| + |s| && |r| >= |kept| && r[..|kept|] == kept
    ensures forall x :: x in r ==> x in kept || x in s
    decreases |s|
  {
    if |s| == 0 then kept
    else
      var k := if same(kept[|kept| - 1], s[0]) then kept else kept + [s[0]];
      var r := UniqueFrom(s[1..], same, k);
      assert r[..|kept|] == r[..|k|][..|kept|];
      assert forall x :: x in s[1..] ==> x in s;
      r
  }

  /** Equality, as `std::unique` compares by default. */
  function Eq(a: int, b: int): bool {
    a == b
  }

  /** std::unique on a sorted sequence of integers leaves them strictly
      increasing, with the same elements. */
  lemma UniqueSorted(s: seq<int>)
    requires SortedBy(s, Le)
    ensures Increasing(UniqueBy(s, Eq))
    ensures forall x :: x in UniqueBy(s, Eq) <==> x in s
  {
    if |s| > 0 {
      UniqueFromSorted(s[1..], [s[0]]);
      assert s == [s[0]] + s[1..];
    }
  }

  lemma {:induction false} UniqueFromSorted(s: seq<int>, kept: seq<int>)
    requires |kept| > 0 && Increasing(kept) && SortedBy(s, Le)
    requires forall x :: x in s ==> kept[|kept| - 1] <= x
    ensures Increasing(UniqueFrom(s, Eq, kept))
    ensures forall x :: x in UniqueFrom(s, Eq, kept) <==> x in kept || x in s
    decreases |s|
  {
    if |s| > 0 {
      var k := if Eq(kept[|kept| - 1], s[0]) then kept else kept + [s[0]];
      SortedTail(s);
      assert s[0] in s;
      KeepStep(kept, s[0]);
      UniqueFromSorted(s[1..], k);
      assert UniqueFrom(s, Eq, kept) == UniqueFrom(s[1..], Eq, k);
      forall y
        ensures y in s <==> y == s[0] || y in s[1..]
      {
        assert s == [s[0]] + s[1..];
      }
    }
  }

  /** The rest of a sorted sequence is sorted and bounded below by its head. */
  lemma SortedTail(s: seq<int>)
    requires |s| > 0 && SortedBy(s, Le)
    ensures SortedBy(s[1..], Le) && forall x :: x in s[1..] ==> s[0] <= x
  {
    assert forall x :: x in s[1..] ==> exists j :: 1 <= j < |s| && s[j] == x;
  }

  /** One step of unique on increasing kept values: x, not below the last
      kept value, is kept unless it equals it. */
  lemma KeepStep(kept: seq<int>, x: int)
    requires |kept| > 0 && Increasing(kept) && kept[|kept| - 1] <= x
    ensures var k := if Eq(kept[|kept| - 1], x) then kept else kept + [x];
            Increasing(k) && k[|k| - 1] == x && forall y :: y in k <==> y in kept || y == x
  {
    if !Eq(kept[|kept| - 1], x) {
      assert forall i :: 0 <= i < |kept| ==> kept[i] < x;
    }
  }
}
