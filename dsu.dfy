/** `DisjointSet` of dsu.hpp: union-find over 0..n-1 with path compression
    in get_root, a join that keeps as root the set whose count is NOT larger,
    and make_root, which moves the root of a set to a chosen member.

    `parent` and `counts` are the source's vectors; the ghost `depth` only
    witnesses that following parents ends at a root: it strictly decreases
    from a node to its parent. */
module DisjointSets {

  /** Every parent is a node, and depth strictly decreases towards the
      root. */
  ghost predicate Forest(p: seq<int>, d: seq<nat>) {
    |d| == |p| &&
    forall x :: 0 <= x < |p| ==> 0 <= p[x] < |p| && (p[x] != x ==> d[p[x]] < d[x])
  }

  /** The root reached from x by following parents. */
  ghost function Root(p: seq<int>, d: seq<nat>, x: int): (r: int)
    requires Forest(p, d) && 0 <= x < |p|
    ensures 0 <= r < |p| && p[r] == r
    ensures r == x || d[r] < d[x]
    decreases d[x]
  {
    if p[x] == x then x else Root(p, d, p[x])
  }

  /** The members of the set rooted at r. */
  ghost function Members(p: seq<int>, d: seq<nat>, r: int): set<int>
    requires Forest(p, d)
  {
    set z | 0 <= z < |p| && Root(p, d, z) == r
  }

  /** Each root's count is the size of its set. */
  ghost predicate Counted(p: seq<int>, d: seq<nat>, cnt: seq<int>)
    requires Forest(p, d)
  {
    |cnt| == |p| && forall r :: 0 <= r < |p| && p[r] == r ==> cnt[r] == |Members(p, d, r)|
  }

  /** The state invariant of a disjoint-set forest. */
  ghost predicate Sets(p: seq<int>, d: seq<nat>, cnt: seq<int>) {
    Forest(p, d) && Counted(p, d, cnt)
  }

  /** The root does not depend on which depth witness is used. */
  lemma {:induction false} RootWitness(p: seq<int>, d: seq<nat>, e: seq<nat>, x: int)
    requires Forest(p, d) && Forest(p, e) && 0 <= x < |p|
    ensures Root(p, d, x) == Root(p, e, x)
    decreases d[x]
  {
    if p[x] != x {
      RootWitness(p, d, e, p[x]);
    }
  }

  /** Two forests over the same roots have members and counts alike. */
  lemma SameRoots(p: seq<int>, d: seq<nat>, q: seq<int>, e: seq<nat>, cnt: seq<int>)
    requires Forest(p, d) && Forest(q, e) && |p| == |q| && Counted(p, d, cnt)
    requires forall z :: 0 <= z < |p| ==> Root(q, e, z) == Root(p, d, z)
    requires forall r :: 0 <= r < |p| ==> (p[r] == r <==> q[r] == r)
    ensures Counted(q, e, cnt)
  {
    forall r | 0 <= r < |p| && q[r] == r
      ensures cnt[r] == |Members(q, e, r)|
    {
      assert Members(q, e, r) == Members(p, d, r);
    }
  }

  /** The nodes from x up to and including its root. */
  ghost function Path(p: seq<int>, d: seq<nat>, x: int): set<int>
    requires Forest(p, d) && 0 <= x < |p|
    decreases d[x]
  {
    if p[x] == x then {x} else {x} + Path(p, d, p[x])
  }

  /** Every node on the path has the same root, at least as deep as it. */
  lemma {:induction false} PathFacts(p: seq<int>, d: seq<nat>, x: int, z: int)
    requires Forest(p, d) && 0 <= x < |p| && z in Path(p, d, x)
    ensures 0 <= z < |p| && d[z] <= d[x] && Root(p, d, z) == Root(p, d, x)
    decreases d[x]
  {
    if p[x] != x && z != x {
      PathFacts(p, d, p[x], z);
    }
  }

  lemma {:induction false} RootOnPath(p: seq<int>, d: seq<nat>, x: int)
    requires Forest(p, d) && 0 <= x < |p|
    ensures Root(p, d, x) in Path(p, d, x)
    decreases d[x]
  {
    if p[x] != x {
      RootOnPath(p, d, p[x]);
    }
  }

  /** `p` after get_root(x): every node on x's path points at the root. */
  ghost function Compressed(p: seq<int>, d: seq<nat>, x: int): (c: seq<int>)
    requires Forest(p, d) && 0 <= x < |p|
    ensures |c| == |p|
  {
    var r := Root(p, d, x);
    var path := Path(p, d, x);
    seq(|p|, z requires 0 <= z < |p| => if z in path then r else p[z])
  }

  /** Compressing from x is compressing from its parent and then pointing x
      at the root. */
  lemma CompressedStep(p: seq<int>, d: seq<nat>, x: int)
    requires Forest(p, d) && 0 <= x < |p| && p[x] != x
    ensures x !in Path(p, d, p[x])
    ensures Compressed(p, d, x) == Compressed(p, d, p[x])[x := Root(p, d, x)]
  {
    if x in Path(p, d, p[x]) {
      PathFacts(p, d, p[x], x);
    }
  }

  /** Path compression keeps the forest and every node's root. */
  lemma {:induction false} CompressedRoots(p: seq<int>, d: seq<nat>, x: int, z: int)
    requires Forest(p, d) && 0 <= x < |p| && 0 <= z < |p|
    ensures Forest(Compressed(p, d, x), d)
    ensures Root(Compressed(p, d, x), d, z) == Root(p, d, z)
    decreases d[z]
  {
    var c := Compressed(p, d, x);
    var r := Root(p, d, x);
    forall y | 0 <= y < |p| && y in Path(p, d, x)
      ensures c[y] == r && (r == y || d[r] < d[y])
    {
      PathFacts(p, d, x, y);
    }
    assert Forest(c, d);
    if z in Path(p, d, x) {
      PathFacts(p, d, x, z);
      RootOnPath(p, d, x);
    } else if p[z] != z {
      CompressedRoots(p, d, x, p[z]);
    }
  }

  /** Path compression keeps every set and count. */
  lemma CompressedCounted(p: seq<int>, d: seq<nat>, cnt: seq<int>, x: int)
    requires Forest(p, d) && Counted(p, d, cnt) && 0 <= x < |p|
    ensures Forest(Compressed(p, d, x), d) && Counted(Compressed(p, d, x), d, cnt)
    ensures forall z :: 0 <= z < |p| ==> Root(Compressed(p, d, x), d, z) == Root(p, d, z)
  {
    var c := Compressed(p, d, x);
    CompressedRoots(p, d, x, x);
    forall z | 0 <= z < |p|
      ensures Root(c, d, z) == Root(p, d, z)
    {
      CompressedRoots(p, d, x, z);
    }
    forall r | 0 <= r < |p|
      ensures p[r] == r <==> c[r] == r
    {
      if r in Path(p, d, x) {
        PathFacts(p, d, x, r);
      }
    }
    SameRoots(p, d, c, d, cnt);
  }

  /** The depths after hanging the set of root b below a: its members move
      down by d[a] + 1. */
  ghost function Hung(p: seq<int>, d: seq<nat>, b: int, a: int): (e: seq<nat>)
    requires Forest(p, d) && 0 <= a < |p|
    ensures |e| == |d|
  {
    seq(|p|, z requires 0 <= z < |p| => if Root(p, d, z) == b then d[z] + d[a] + 1 else d[z])
  }

  /** parent[b] = a for two distinct roots: b's set joins a's. */
  lemma {:induction false} HangRoots(p: seq<int>, d: seq<nat>, a: int, b: int, z: int)
    requires Forest(p, d) && 0 <= a < |p| && 0 <= b < |p| && p[a] == a && p[b] == b && a != b
    requires 0 <= z < |p|
    ensures Forest(p[b := a], Hung(p, d, b, a))
    ensures Root(p[b := a], Hung(p, d, b, a), z) == if Root(p, d, z) == b then a else Root(p, d, z)
    decreases d[z]
  {
    var q, e := p[b := a], Hung(p, d, b, a);
    forall y | 0 <= y < |p| && q[y] != y
      ensures e[q[y]] < e[y]
    {
      if y != b {
        assert Root(p, d, y) == Root(p, d, p[y]);
      }
    }
    assert Forest(q, e);
    if z == b {
      assert q[a] == a;
    } else if p[z] != z {
      HangRoots(p, d, a, b, p[z]);
    }
  }

  /** After the join the merged root counts both sets. */
  lemma HangCounted(p: seq<int>, d: seq<nat>, cnt: seq<int>, a: int, b: int)
    requires Forest(p, d) && Counted(p, d, cnt)
    requires 0 <= a < |p| && 0 <= b < |p| && p[a] == a && p[b] == b && a != b
    ensures Sets(p[b := a], Hung(p, d, b, a), cnt[a := cnt[a] + cnt[b]])
    ensures forall z :: 0 <= z < |p| ==>
      Root(p[b := a], Hung(p, d, b, a), z) == if Root(p, d, z) == b then a else Root(p, d, z)
  {
    var q, e := p[b := a], Hung(p, d, b, a);
    HangRoots(p, d, a, b, a);
    forall z | 0 <= z < |p|
      ensures Root(q, e, z) == if Root(p, d, z) == b then a else Root(p, d, z)
    {
      HangRoots(p, d, a, b, z);
    }
    forall r | 0 <= r < |p| && q[r] == r
      ensures cnt[a := cnt[a] + cnt[b]][r] == |Members(q, e, r)|
    {
      HangMembers(p, d, cnt, q, e, a, b, r);
    }
  }

  lemma HangMembers(p: seq<int>, d: seq<nat>, cnt: seq<int>, q: seq<int>, e: seq<nat>, a: int, b: int, r: int)
    requires Forest(p, d) && Counted(p, d, cnt) && Forest(q, e) && |q| == |p|
    requires 0 <= a < |p| && 0 <= b < |p| && p[a] == a && p[b] == b && a != b
    requires q == p[b := a]
    requires forall z :: 0 <= z < |p| ==> Root(q, e, z) == if Root(p, d, z) == b then a else Root(p, d, z)
    requires 0 <= r < |p| && q[r] == r
    ensures cnt[a := cnt[a] + cnt[b]][r] == |Members(q, e, r)|
  {
    if r == a {
      assert Members(q, e, a) == Members(p, d, a) + Members(p, d, b);
      assert Members(p, d, a) * Members(p, d, b) == {};
    } else {
      assert Members(q, e, r) == Members(p, d, r);
    }
  }

  /** The depths after make_root(x) moves the root of x's set from y to x:
      x gets depth 0, the rest of the set moves down by one. */
  ghost function Rerooted(p: seq<int>, d: seq<nat>, x: int, y: int): (e: seq<nat>)
    requires Forest(p, d)
    ensures |e| == |d|
  {
    seq(|p|, z requires 0 <= z < |p| => if z == x then 0 else if Root(p, d, z) == y then d[z] + 1 else d[z])
  }

  /** make_root on a node x whose parent is its root y. */
  lemma {:induction false} RerootRoots(p: seq<int>, d: seq<nat>, x: int, y: int, z: int)
    requires Forest(p, d) && 0 <= x < |p| && p[x] == y && y != x && p[y] == y && 0 <= z < |p|
    ensures Forest(p[x := x][y := x], Rerooted(p, d, x, y))
    ensures Root(p[x := x][y := x], Rerooted(p, d, x, y), z) == if Root(p, d, z) == y then x else Root(p, d, z)
    decreases d[z]
  {
    var q, e := p[x := x][y := x], Rerooted(p, d, x, y);
    assert Root(p, d, x) == y;
    forall w | 0 <= w < |p| && q[w] != w
      ensures e[q[w]] < e[w]
    {
      if w != y {
        assert Root(p, d, w) == Root(p, d, p[w]);
      }
    }
    assert Forest(q, e);
    if z == y || z == x {
      assert q[x] == x;
    } else if p[z] != z {
      RerootRoots(p, d, x, y, p[z]);
    }
  }

  lemma RerootCounted(p: seq<int>, d: seq<nat>, cnt: seq<int>, x: int, y: int)
    requires Forest(p, d) && Counted(p, d, cnt)
    requires 0 <= x < |p| && p[x] == y && y != x && p[y] == y
    ensures Sets(p[x := x][y := x], Rerooted(p, d, x, y), cnt[x := cnt[y]])
    ensures forall z :: 0 <= z < |p| ==>
      Root(p[x := x][y := x], Rerooted(p, d, x, y), z) == if Root(p, d, z) == y then x else Root(p, d, z)
  {
    var q, e := p[x := x][y := x], Rerooted(p, d, x, y);
    RerootRoots(p, d, x, y, x);
    forall z | 0 <= z < |p|
      ensures Root(q, e, z) == if Root(p, d, z) == y then x else Root(p, d, z)
    {
      RerootRoots(p, d, x, y, z);
    }
    var cnt' := cnt[x := cnt[y]];
    forall r | 0 <= r < |p| && q[r] == r
      ensures cnt'[r] == |Members(q, e, r)|
    {
      if r == x {
        assert Members(q, e, x) == Members(p, d, y);
      } else {
        assert Members(q, e, r) == Members(p, d, r);
      }
    }
  }

  class DisjointSet {
    var parent: seq<int>
    var counts: seq<int>
    ghost var depth: seq<nat>

    ghost predicate Valid()
      reads this
    {
      Sets(parent, depth, counts)
    }

    /** The root of x's set: two nodes are in one set exactly when their
        roots agree. */
    ghost function Find(x: int): int
      reads this
      requires Valid() && 0 <= x < |parent|
    {
      Root(parent, depth, x)
    }

    /** DisjointSet(size): every node is its own root with count 1. */
    constructor (size: nat)
      ensures Valid() && |parent| == size
      ensures forall x :: 0 <= x < size ==> parent[x] == x && counts[x] == 1
    {
      parent := seq(size, i => i);
      counts := seq(size, _ => 1);
      depth := seq(size, _ => 0);
      new;
      forall r | 0 <= r < size
        ensures counts[r] == |Members(parent, depth, r)|
      {
        assert Members(parent, depth, r) == {r};
      }
    }

    /** get_root(x): the root of x's set; every node on the path from x is
        pointed directly at it. No set changes. */
    method GetRoot(x: int) returns (r: int)
      requires Valid() && 0 <= x < |parent|
      modifies this
      ensures Valid() && depth == old(depth) && counts == old(counts)
      ensures r == old(Find(x)) && parent[r] == r
      ensures parent == Compressed(old(parent), depth, x)
      ensures forall z :: 0 <= z < |parent| ==> Find(z) == old(Find(z))
      decreases depth[x]
    {
      ghost var p0 := parent;
      CompressedCounted(p0, depth, counts, x);
      if parent[x] == x {
        assert parent == Compressed(p0, depth, x);
        return x;
      }
      CompressedStep(p0, depth, x);
      var y := parent[x];
      r := GetRoot(y);
      parent := parent[x := r];
    }

    /** make_root(x): x becomes the root of its set, taking over the old
        root's count; no set changes. */
    method MakeRoot(x: int)
      requires Valid() && 0 <= x < |parent|
      modifies this
      ensures Valid() && |parent| == old(|parent|)
      ensures parent[x] == x
      ensures forall z :: 0 <= z < |parent| ==>
        Find(z) == if old(Find(z)) == old(Find(x)) then x else old(Find(z))
      ensures counts == old(counts)[x := old(counts[Find(x)])]
    {
      var y := GetRoot(x);
      if x == y {
        return;
      }
      ghost var p, d, cnt := parent, depth, counts;
      parent, counts, depth := parent[x := x][y := x], counts[x := counts[y]], Rerooted(p, d, x, y);
      RerootCounted(p, d, cnt, x, y);
    }

    /** get_count(x): the stored count, the size of x's set when x is a
        root. */
    function GetCount(x: int): (c: int)
      reads this
      requires Valid() && 0 <= x < |parent|
      ensures parent[x] == x ==> c == |Members(parent, depth, x)|
    {
      counts[x]
    }

    /** join(x, y): the two sets become one whose root is the old root with
        the smaller count (x's on a tie), counting both; joining a set with
        itself changes nothing. */
    method Join(x: int, y: int)
      requires Valid() && 0 <= x < |parent| && 0 <= y < |parent|
      modifies this
      ensures Valid() && |parent| == old(|parent|)
      ensures var a, b := old(Find(x)), old(Find(y));
              var w := if old(counts[a]) > old(counts[b]) then b else a;
              (forall z :: 0 <= z < |parent| ==>
                 Find(z) == if old(Find(z)) == a || old(Find(z)) == b then w else old(Find(z))) &&
              counts == if a == b then old(counts) else old(counts)[w := old(counts[a]) + old(counts[b])]
    {
      var a, b := Roots(x, y);
      JoinRoots(a, b);
    }

    /** The two get_root calls that open join: the roots of x and y, found
        without changing any set or count. */
    method Roots(x: int, y: int) returns (a: int, b: int)
      requires Valid() && 0 <= x < |parent| && 0 <= y < |parent|
      modifies this
      ensures Valid() && |parent| == old(|parent|) && counts == old(counts)
      ensures a == old(Find(x)) && b == old(Find(y)) && parent[a] == a && parent[b] == b
      ensures forall z :: 0 <= z < |parent| ==> Find(z) == old(Find(z))
    {
      a := GetRoot(x);
      b := GetRoot(y);
    }

    /** join once both roots are known: nothing when they agree, otherwise
        the root with the larger count is hung below the other. */
    method JoinRoots(a: int, b: int)
      requires Valid() && 0 <= a < |parent| && 0 <= b < |parent|
      requires parent[a] == a && parent[b] == b
      modifies this
      ensures Valid() && |parent| == old(|parent|)
      ensures var w := if old(counts[a]) > old(counts[b]) then b else a;
              (forall z :: 0 <= z < |parent| ==>
                 Find(z) == if old(Find(z)) == a || old(Find(z)) == b then w else old(Find(z))) &&
              counts == if a == b then old(counts) else old(counts)[w := old(counts[a]) + old(counts[b])]
    {
      if a == b {
        return;
      }
      if counts[a] > counts[b] {
        Link(b, a);
      } else {
        Link(a, b);
      }
    }

    /** The end of join for two distinct roots: counts[a] += counts[b] and
        parent[b] = a. */
    method Link(a: int, b: int)
      requires Valid() && 0 <= a < |parent| && 0 <= b < |parent|
      requires parent[a] == a && parent[b] == b && a != b
      modifies this
      ensures Valid() && |parent| == old(|parent|)
      ensures forall z :: 0 <= z < |parent| ==> Find(z) == if old(Find(z)) == b then a else old(Find(z))
      ensures counts == old(counts)[a := old(counts[a]) + old(counts[b])]
    {
      ghost var p, d, cnt := parent, depth, counts;
      parent, counts, depth := parent[b := a], counts[a := counts[a] + counts[b]], Hung(p, d, b, a);
      HangCounted(p, d, cnt, a, b);
    }

    function Size(): (n: nat)
      reads this
      ensures n == |parent|
    {
      |parent|
    }
  }

  /** Over five elements, join(0, 1) and then join(1, 2) put 0 and 2 in one
      set of three, which leaves 3 out. */
  method Example() returns (r0: int, r2: int, r3: int, c: int)
    ensures r0 == r2 && r3 != r0 && c == 3
  {
    var sets := new DisjointSet(5);
    assert sets.Find(0) == 0 && sets.Find(1) == 1 && sets.Find(2) == 2 && sets.Find(3) == 3;
    sets.Join(0, 1);
    assert sets.Find(0) == 0 && sets.Find(1) == 0 && sets.Find(2) == 2 && sets.Find(3) == 3;
    assert sets.counts[0] == 2 && sets.counts[2] == 1;
    sets.Join(1, 2);
    assert sets.Find(0) == 2 && sets.Find(2) == 2 && sets.Find(3) == 3 && sets.counts[2] == 3;
    r0 := sets.GetRoot(0);
    r2 := sets.GetRoot(2);
    r3 := sets.GetRoot(3);
    c := sets.GetCount(r0);
  }
}
