/** `LCA` of lca.hpp: an Euler tour of a rooted tree, recorded by a DFS as
    (depth, vertex) pairs, and range-minimum queries on it through a
    sparse table.

    The tree is given as adjacency lists. The ghost witnesses `par` (the
    parent of each vertex, -1 at the root) and `dep` (its depth) state that
    the lists describe a tree rooted at `root`: the neighbours of a vertex
    are its parent and its children. */
module LowestCommonAncestor {
  import opened Algebra
  import opened SparseTables

  datatype Tree = Tree(n: int, adj: seq<seq<int>>, root: int, par: seq<int>, dep: seq<nat>)

  /** adj holds the undirected edges of a tree on 0..n-1 rooted at root,
      each neighbour listed once; par and dep are its parents and depths. */
  ghost predicate Wf(g: Tree) {
    |g.adj| == g.n && |g.par| == g.n && |g.dep| == g.n &&
    0 <= g.root < g.n && g.par[g.root] == -1 && g.dep[g.root] == 0 &&
    (forall x :: 0 <= x < g.n ==> g.dep[x] < g.n) &&
    (forall x {:trigger g.par[x]} :: 0 <= x < g.n && x != g.root ==>
       0 <= g.par[x] < g.n && g.dep[x] == g.dep[g.par[x]] + 1) &&
    (forall x {:trigger g.adj[g.par[x]]} :: 0 <= x < g.n && x != g.root ==> x in g.adj[g.par[x]]) &&
    (forall v, k :: 0 <= v < g.n && 0 <= k < |g.adj[v]| ==>
       0 <= g.adj[v][k] < g.n && (g.adj[v][k] == g.par[v] || g.par[g.adj[v][k]] == v)) &&
    (forall v {:trigger Distinct(g.adj[v])} :: 0 <= v < g.n ==> Distinct(g.adj[v]))
  }

  ghost predicate Distinct(s: seq<int>) {
    forall j, k :: 0 <= j < k < |s| ==> s[j] != s[k]
  }

  /** a lies on the path from x up to the root (x itself included). */
  ghost predicate Ancestor(g: Tree, a: int, x: int)
    requires Wf(g) && 0 <= x < g.n
    decreases g.dep[x]
  {
    x == a || (x != g.root && Ancestor(g, a, g.par[x]))
  }

  /** The child of a on the path down to its proper descendant x. */
  ghost function TopChild(g: Tree, a: int, x: int): (c: int)
    requires Wf(g) && 0 <= x < g.n && Ancestor(g, a, x) && x != a
    ensures 0 <= c < g.n && c != g.root && g.par[c] == a && Ancestor(g, c, x)
    decreases g.dep[x]
  {
    if g.par[x] == a then x else TopChild(g, a, g.par[x])
  }

  /** The first position of x in s. */
  ghost function IndexOf(s: seq<int>, x: int): (k: int)
    requires x in s
    ensures 0 <= k < |s| && s[k] == x
    decreases |s|
  {
    if s[0] == x then 0 else assert x in s[1..]; 1 + IndexOf(s[1..], x)
  }

  /** The pairs the DFS at v has appended once it has gone through
      adj[v][..i]: v on entry, then for each child the child's tour followed
      by v again; the parent is skipped. */
  ghost function Walk(g: Tree, v: int, i: int): seq<(int, int)>
    requires Wf(g) && 0 <= v < g.n && 0 <= i <= |g.adj[v]|
    decreases g.n - g.dep[v], i, 1
  {
    if i == 0 then [(g.dep[v], v)] else Walk(g, v, i - 1) + Piece(g, v, i - 1)
  }

  /** What the DFS at v appends for its neighbour adj[v][k]. */
  ghost function Piece(g: Tree, v: int, k: int): seq<(int, int)>
    requires Wf(g) && 0 <= v < g.n && 0 <= k < |g.adj[v]|
    decreases g.n - g.dep[v], k + 1, 0
  {
    var c := g.adj[v][k];
    if c == g.par[v] then [] else Tour(g, c) + [(g.dep[v], v)]
  }

  /** The Euler tour of the subtree of v: what dfs(v) appends to data. */
  ghost function Tour(g: Tree, v: int): seq<(int, int)>
    requires Wf(g) && 0 <= v < g.n
    decreases g.n - g.dep[v], |g.adj[v]| + 1, 0
  {
    Walk(g, v, |g.adj[v]|)
  }

  /** Every walk, and so every tour, starts and ends at its own vertex. */
  lemma {:induction false} WalkEnds(g: Tree, v: int, i: int)
    requires Wf(g) && 0 <= v < g.n && 0 <= i <= |g.adj[v]|
    ensures var w := Walk(g, v, i); |w| >= 1 && w[0] == (g.dep[v], v) && w[|w| - 1] == (g.dep[v], v)
    decreases i
  {
    if i > 0 {
      WalkEnds(g, v, i - 1);
    }
  }

  lemma TourEnds(g: Tree, v: int)
    requires Wf(g) && 0 <= v < g.n
    ensures var t := Tour(g, v); |t| >= 1 && t[0] == (g.dep[v], v) && t[|t| - 1] == (g.dep[v], v)
  {
    WalkEnds(g, v, |g.adj[v]|);
  }

  /** Where the tour of x starts inside the tour of its ancestor a. */
  ghost function Enter(g: Tree, a: int, x: int): nat
    requires Wf(g) && 0 <= a < g.n && 0 <= x < g.n && Ancestor(g, a, x)
    decreases g.n - g.dep[a]
  {
    if x == a then 0
    else
      var c := TopChild(g, a, x);
      |Walk(g, a, IndexOf(g.adj[a], c))| + Enter(g, c, x)
  }

  /** Where the tour of x ends inside the tour of its ancestor a. */
  ghost function Exit(g: Tree, a: int, x: int): int
    requires Wf(g) && 0 <= a < g.n && 0 <= x < g.n && Ancestor(g, a, x)
  {
    Enter(g, a, x) + |Tour(g, x)| - 1
  }

  /** in[x] and out[x] once the DFS from the root is done. */
  ghost function In(g: Tree, x: int): nat
    requires Wf(g) && 0 <= x < g.n
  {
    AncestorRoot(g, x);
    Enter(g, g.root, x)
  }

  ghost function Out(g: Tree, x: int): int
    requires Wf(g) && 0 <= x < g.n
  {
    In(g, x) + |Tour(g, x)| - 1
  }

  /** Ancestors of x are vertices no deeper than x, and only x itself is as
      deep. */
  lemma {:induction false} AncestorDepth(g: Tree, a: int, x: int)
    requires Wf(g) && 0 <= x < g.n && Ancestor(g, a, x)
    ensures 0 <= a < g.n && g.dep[a] <= g.dep[x] && (g.dep[a] == g.dep[x] ==> a == x)
    decreases g.dep[x]
  {
    if x != a {
      AncestorDepth(g, a, g.par[x]);
    }
  }

  /** Only the root has depth 0. */
  lemma DepthZero(g: Tree, x: int)
    requires Wf(g) && 0 <= x < g.n
    ensures g.dep[x] == 0 <==> x == g.root
  {
    if x != g.root {
      assert 0 <= g.par[x] < g.n;
    }
  }

  /** The root is an ancestor of every vertex: the tree is connected. */
  lemma {:induction false} AncestorRoot(g: Tree, x: int)
    requires Wf(g) && 0 <= x < g.n
    ensures Ancestor(g, g.root, x)
    decreases g.dep[x]
  {
    if x != g.root {
      AncestorRoot(g, g.par[x]);
    }
  }

  lemma {:induction false} AncestorTrans(g: Tree, a: int, b: int, x: int)
    requires Wf(g) && 0 <= b < g.n && 0 <= x < g.n && Ancestor(g, a, b) && Ancestor(g, b, x)
    ensures Ancestor(g, a, x)
    decreases g.dep[x]
  {
    if x != b {
      AncestorTrans(g, a, b, g.par[x]);
    }
  }

  /** Below a child c of a, the path from a goes through c. */
  lemma {:induction false} TopChildOf(g: Tree, a: int, c: int, x: int)
    requires Wf(g) && 0 <= c < g.n && c != g.root && g.par[c] == a && 0 <= x < g.n && Ancestor(g, c, x)
    ensures Ancestor(g, a, x) && x != a && TopChild(g, a, x) == c
    decreases g.dep[x]
  {
    AncestorDepth(g, c, x);
    if x != c {
      TopChildOf(g, a, c, g.par[x]);
    }
  }

  /** With no repeated neighbours, the neighbour at k is found at k. */
  lemma IndexOfAt(g: Tree, v: int, k: int)
    requires Wf(g) && 0 <= v < g.n && 0 <= k < |g.adj[v]|
    ensures IndexOf(g.adj[v], g.adj[v][k]) == k
  {
    assert Distinct(g.adj[v]);
  }

  /** A walk extends every shorter walk of the same vertex. */
  lemma {:induction false} WalkGrows(g: Tree, v: int, i: int, j: int)
    requires Wf(g) && 0 <= v < g.n && 0 <= i <= j <= |g.adj[v]|
    ensures |Walk(g, v, i)| <= |Walk(g, v, j)|
    decreases j
  {
    if i < j {
      WalkGrows(g, v, i, j - 1);
    }
  }

  lemma {:induction false} WalkPrefixAt(g: Tree, v: int, i: int, j: int, k: int)
    requires Wf(g) && 0 <= v < g.n && 0 <= i <= j <= |g.adj[v]| && 0 <= k < |Walk(g, v, i)|
    ensures k < |Walk(g, v, j)| && Walk(g, v, j)[k] == Walk(g, v, i)[k]
    decreases j
  {
    if i < j {
      WalkPrefixAt(g, v, i, j - 1, k);
      assert Walk(g, v, j) == Walk(g, v, j - 1) + Piece(g, v, j - 1);
    }
  }

  /** Offsets add up along a chain of ancestors. */
  lemma {:induction false} EnterTrans(g: Tree, a: int, b: int, x: int)
    requires Wf(g) && 0 <= a < g.n && 0 <= b < g.n && 0 <= x < g.n
    requires Ancestor(g, a, b) && Ancestor(g, b, x)
    ensures Ancestor(g, a, x) && Enter(g, a, x) == Enter(g, a, b) + Enter(g, b, x)
    decreases g.n - g.dep[a]
  {
    AncestorTrans(g, a, b, x);
    if b != a {
      var c := TopChild(g, a, b);
      AncestorTrans(g, c, b, x);
      TopChildOf(g, a, c, x);
      EnterTrans(g, c, b, x);
    }
  }

  /** The DFS at a, going through a child adj[a][i], appends the child's
      tour and then a again. */
  lemma ChildSlot(g: Tree, a: int, i: int, p: int)
    requires Wf(g) && 0 <= a < g.n && 0 <= i < |g.adj[a]| && g.adj[a][i] != g.par[a]
    requires 0 <= p <= |Tour(g, g.adj[a][i])|
    ensures var c := g.adj[a][i];
            |Walk(g, a, i + 1)| == |Walk(g, a, i)| + |Tour(g, c)| + 1 &&
            Walk(g, a, i + 1)[|Walk(g, a, i)| + p] == if p < |Tour(g, c)| then Tour(g, c)[p] else (g.dep[a], a)
  {
    assert Walk(g, a, i + 1) == Walk(g, a, i) + Piece(g, a, i);
  }

  /** The tour of a descendant x fits inside the tour of a from Enter(a, x) ... */
  lemma {:induction false} EnterSpan(g: Tree, a: int, x: int)
    requires Wf(g) && 0 <= a < g.n && 0 <= x < g.n && Ancestor(g, a, x)
    ensures Enter(g, a, x) + |Tour(g, x)| <= |Tour(g, a)|
    decreases g.n - g.dep[a]
  {
    if x != a {
      var c := TopChild(g, a, x);
      var i := IndexOf(g.adj[a], c);
      EnterSpan(g, c, x);
      assert c != g.par[a];
      ChildSpan(g, a, i);
    }
  }

  /** The tour of the child adj[a][i] fits inside the tour of a after the
      walk of a through its first i neighbours. */
  lemma ChildSpan(g: Tree, a: int, i: int)
    requires Wf(g) && 0 <= a < g.n && 0 <= i < |g.adj[a]| && g.adj[a][i] != g.par[a]
    ensures |Walk(g, a, i)| + |Tour(g, g.adj[a][i])| < |Tour(g, a)|
  {
    WalkGrows(g, a, i + 1, |g.adj[a]|);
    ChildSlot(g, a, i, 0);
  }

  /** ... and it does sit there. */
  lemma {:induction false} EnterAt(g: Tree, a: int, x: int, k: int)
    requires Wf(g) && 0 <= a < g.n && 0 <= x < g.n && Ancestor(g, a, x) && 0 <= k < |Tour(g, x)|
    ensures Enter(g, a, x) + k < |Tour(g, a)| && Tour(g, a)[Enter(g, a, x) + k] == Tour(g, x)[k]
    decreases g.n - g.dep[a]
  {
    if x != a {
      var c := TopChild(g, a, x);
      var i := IndexOf(g.adj[a], c);
      EnterAt(g, c, x, k);
      assert c != g.par[a];
      ChildEntry(g, a, i, Enter(g, c, x) + k);
    }
  }

  /** Position p of the tour of the child adj[a][i] sits right after the
      walk of a through its first i neighbours. */
  lemma ChildEntry(g: Tree, a: int, i: int, p: int)
    requires Wf(g) && 0 <= a < g.n && 0 <= i < |g.adj[a]| && g.adj[a][i] != g.par[a]
    requires 0 <= p < |Tour(g, g.adj[a][i])|
    ensures |Walk(g, a, i)| + p < |Tour(g, a)|
    ensures Tour(g, a)[|Walk(g, a, i)| + p] == Tour(g, g.adj[a][i])[p]
  {
    ChildSlot(g, a, i, p);
    WalkPrefixAt(g, a, i + 1, |g.adj[a]|, |Walk(g, a, i)| + p);
  }

  /** Every pair of a tour is (depth, vertex) for a vertex of the subtree. */
  lemma {:induction false} TourMembers(g: Tree, v: int, k: int)
    requires Wf(g) && 0 <= v < g.n && 0 <= k < |Tour(g, v)|
    ensures var e := Tour(g, v)[k]; 0 <= e.1 < g.n && Ancestor(g, v, e.1) && e.0 == g.dep[e.1]
    decreases g.n - g.dep[v], |g.adj[v]| + 1
  {
    WalkMembers(g, v, |g.adj[v]|, k);
  }

  lemma {:induction false} WalkMembers(g: Tree, v: int, i: int, k: int)
    requires Wf(g) && 0 <= v < g.n && 0 <= i <= |g.adj[v]| && 0 <= k < |Walk(g, v, i)|
    ensures var e := Walk(g, v, i)[k]; 0 <= e.1 < g.n && Ancestor(g, v, e.1) && e.0 == g.dep[e.1]
    decreases g.n - g.dep[v], i
  {
    if i > 0 {
      var c := g.adj[v][i - 1];
      var w := Walk(g, v, i - 1);
      assert Walk(g, v, i) == w + Piece(g, v, i - 1);
      if k < |w| {
        WalkMembers(g, v, i - 1, k);
      } else if c != g.par[v] && k < |w| + |Tour(g, c)| {
        TourMembers(g, c, k - |w|);
        TopChildOf(g, v, c, Tour(g, c)[k - |w|].1);
      }
    }
  }

  /** Absolute positions: a descendant's tour lies within its ancestor's,
      and every tour lies within the whole tour. */
  lemma Nesting(g: Tree, a: int, x: int)
    requires Wf(g) && 0 <= a < g.n && 0 <= x < g.n && Ancestor(g, a, x)
    ensures In(g, a) <= In(g, x) <= Out(g, x) <= Out(g, a) < |Tour(g, g.root)|
  {
    AncestorRoot(g, a);
    AncestorRoot(g, x);
    TourEnds(g, x);
    EnterTrans(g, g.root, a, x);
    EnterSpan(g, a, x);
    EnterSpan(g, g.root, a);
  }

  /** data[in[x]] and data[out[x]] are both (level[x], x). */
  lemma Ends(g: Tree, x: int)
    requires Wf(g) && 0 <= x < g.n
    ensures 0 <= In(g, x) <= Out(g, x) < |Tour(g, g.root)|
    ensures Tour(g, g.root)[In(g, x)] == (g.dep[x], x) && Tour(g, g.root)[Out(g, x)] == (g.dep[x], x)
  {
    AncestorRoot(g, x);
    TourEnds(g, x);
    EnterAt(g, g.root, x, 0);
    EnterAt(g, g.root, x, |Tour(g, x)| - 1);
  }

  /** Between in[x] and out[x] only vertices of the subtree of x occur. */
  lemma Members(g: Tree, x: int, k: int)
    requires Wf(g) && 0 <= x < g.n && In(g, x) <= k <= Out(g, x)
    ensures k < |Tour(g, g.root)|
    ensures var e := Tour(g, g.root)[k]; 0 <= e.1 < g.n && Ancestor(g, x, e.1) && e.0 == g.dep[e.1]
  {
    AncestorRoot(g, x);
    EnterAt(g, g.root, x, k - In(g, x));
    TourMembers(g, x, k - In(g, x));
  }

  /** The tour of the child adj[w][i] starts right after the pairs the
      DFS at w has appended before reaching it. */
  lemma ChildIn(g: Tree, w: int, i: int)
    requires Wf(g) && 0 <= w < g.n && 0 <= i < |g.adj[w]| && g.par[g.adj[w][i]] == w
    ensures g.adj[w][i] != g.par[w]
    ensures In(g, g.adj[w][i]) == In(g, w) + |Walk(g, w, i)|
  {
    var c := g.adj[w][i];
    assert c != g.root;
    IndexOfAt(g, w, i);
    TopChildOf(g, w, c, c);
    AncestorRoot(g, w);
    EnterTrans(g, g.root, w, c);
  }

  /** Two children of w in adjacency order: the first one's tour ends,
      and w's own pair comes, before the second one's tour starts. */
  lemma SiblingOrder(g: Tree, w: int, i: int, j: int)
    requires Wf(g) && 0 <= w < g.n && 0 <= i < j < |g.adj[w]|
    requires g.par[g.adj[w][i]] == w && g.par[g.adj[w][j]] == w
    ensures Out(g, g.adj[w][i]) + 1 < In(g, g.adj[w][j]) <= Out(g, g.adj[w][j]) < |Tour(g, g.root)|
  {
    ChildIn(g, w, i);
    ChildIn(g, w, j);
    ChildSlot(g, w, i, 0);
    WalkGrows(g, w, i + 1, j);
    Nesting(g, g.adj[w][j], g.adj[w][j]);
  }

  /** Right after the tour of a child of w, the DFS appends w again. */
  lemma AfterChild(g: Tree, w: int, i: int)
    requires Wf(g) && 0 <= w < g.n && 0 <= i < |g.adj[w]| && g.par[g.adj[w][i]] == w
    ensures Out(g, g.adj[w][i]) + 1 < |Tour(g, g.root)|
    ensures Tour(g, g.root)[Out(g, g.adj[w][i]) + 1] == (g.dep[w], w)
  {
    var c := g.adj[w][i];
    ChildIn(g, w, i);
    var p := |Walk(g, w, i)| + |Tour(g, c)|;
    ChildSlot(g, w, i, |Tour(g, c)|);
    WalkPrefixAt(g, w, i + 1, |g.adj[w]|, p);
    AncestorRoot(g, w);
    EnterAt(g, g.root, w, p);
  }

  /** x is a vertex whose in, out and level the DFS at pos has written
      once it has gone through adj[pos][..i]. */
  ghost predicate Done(g: Tree, pos: int, i: int, x: int)
    requires Wf(g) && 0 <= pos < g.n && 0 <= i <= |g.adj[pos]| && 0 <= x < g.n
  {
    Ancestor(g, pos, x) && (x == pos || IndexOf(g.adj[pos], TopChild(g, pos, x)) < i)
  }

  /** What the DFS at pos, started at offset base of data, has written into
      in, out and level (from in0, out0, level0) for x once it has gone
      through adj[pos][..i]: a vertex done so far holds its positions,
      out[pos] the last pair appended, and any other vertex its old value. */
  ghost predicate RecordedAt(g: Tree, pos: int, i: int, base: int,
                             inn0: seq<int>, out0: seq<int>, level0: seq<int>,
                             inn: seq<int>, out: seq<int>, level: seq<int>, x: int)
    requires Wf(g) && 0 <= pos < g.n && 0 <= i <= |g.adj[pos]| && 0 <= x < g.n
    requires |inn0| == g.n && |out0| == g.n && |level0| == g.n
    requires |inn| == g.n && |out| == g.n && |level| == g.n
  {
    inn[x] == (if Done(g, pos, i, x) then base + Enter(g, pos, x) else inn0[x]) &&
    out[x] == (if x == pos then base + |Walk(g, pos, i)| - 1
               else if Done(g, pos, i, x) then base + Exit(g, pos, x) else out0[x]) &&
    level[x] == if Done(g, pos, i, x) then g.dep[x] else level0[x]
  }

  /** RecordedAt for every vertex. */
  ghost predicate Recorded(g: Tree, pos: int, i: int, base: int,
                           inn0: seq<int>, out0: seq<int>, level0: seq<int>,
                           inn: seq<int>, out: seq<int>, level: seq<int>)
    requires Wf(g) && 0 <= pos < g.n && 0 <= i <= |g.adj[pos]|
  {
    |inn0| == g.n && |out0| == g.n && |level0| == g.n &&
    |inn| == g.n && |out| == g.n && |level| == g.n &&
    forall x :: 0 <= x < g.n ==> RecordedAt(g, pos, i, base, inn0, out0, level0, inn, out, level, x)
  }

  /** What the whole DFS at pos, started at offset base of data, writes:
      the subtree of pos gets its entry, exit and depth, and nothing else
      changes. */
  ghost predicate Subtree(g: Tree, pos: int, base: int,
                          inn0: seq<int>, out0: seq<int>, level0: seq<int>,
                          inn: seq<int>, out: seq<int>, level: seq<int>)
    requires Wf(g) && 0 <= pos < g.n
  {
    |inn0| == g.n && |out0| == g.n && |level0| == g.n &&
    |inn| == g.n && |out| == g.n && |level| == g.n &&
    (forall x {:trigger inn[x]} :: 0 <= x < g.n ==>
       inn[x] == if Ancestor(g, pos, x) then base + Enter(g, pos, x) else inn0[x]) &&
    (forall x {:trigger out[x]} :: 0 <= x < g.n ==>
       out[x] == if Ancestor(g, pos, x) then base + Exit(g, pos, x) else out0[x]) &&
    (forall x {:trigger level[x]} :: 0 <= x < g.n ==>
       level[x] == if Ancestor(g, pos, x) then g.dep[x] else level0[x])
  }

  /** Entering pos records it alone. */
  lemma RecordedStart(g: Tree, pos: int, base: int, inn0: seq<int>, out0: seq<int>, level0: seq<int>)
    requires Wf(g) && 0 <= pos < g.n && |inn0| == g.n && |out0| == g.n && |level0| == g.n
    ensures Walk(g, pos, 0) == [(g.dep[pos], pos)]
    ensures Recorded(g, pos, 0, base, inn0, out0, level0,
                     inn0[pos := base], out0[pos := base], level0[pos := g.dep[pos]])
  {
    var inn, out, level := inn0[pos := base], out0[pos := base], level0[pos := g.dep[pos]];
    forall x | 0 <= x < g.n
      ensures RecordedAt(g, pos, 0, base, inn0, out0, level0, inn, out, level, x)
    {
      assert Done(g, pos, 0, x) <==> x == pos;
    }
  }

  /** The edge back to the parent appends nothing and records nothing. */
  lemma RecordedParent(g: Tree, pos: int, i: int, base: int,
                       inn0: seq<int>, out0: seq<int>, level0: seq<int>,
                       inn: seq<int>, out: seq<int>, level: seq<int>)
    requires Wf(g) && 0 <= pos < g.n && 0 <= i < |g.adj[pos]| && g.adj[pos][i] == g.par[pos]
    requires Recorded(g, pos, i, base, inn0, out0, level0, inn, out, level)
    ensures Walk(g, pos, i + 1) == Walk(g, pos, i)
    ensures Recorded(g, pos, i + 1, base, inn0, out0, level0, inn, out, level)
  {
    var j := i + 1;
    forall x | 0 <= x < g.n
      ensures RecordedAt(g, pos, j, base, inn0, out0, level0, inn, out, level, x)
    {
      assert RecordedAt(g, pos, i, base, inn0, out0, level0, inn, out, level, x);
      DoneStep(g, pos, i, x);
    }
  }

  /** The DFS of the child adj[pos][i], followed by pos once more, records
      the child's subtree and moves out[pos] to the new last pair. */
  lemma RecordedChild(g: Tree, pos: int, i: int, base: int,
                      inn0: seq<int>, out0: seq<int>, level0: seq<int>,
                      inn: seq<int>, out: seq<int>, level: seq<int>,
                      inn2: seq<int>, out2: seq<int>, level2: seq<int>)
    requires Wf(g) && 0 <= pos < g.n && 0 <= i < |g.adj[pos]| && g.adj[pos][i] != g.par[pos]
    requires Recorded(g, pos, i, base, inn0, out0, level0, inn, out, level)
    requires Subtree(g, g.adj[pos][i], base + |Walk(g, pos, i)|, inn, out, level, inn2, out2, level2)
    ensures Walk(g, pos, i + 1) == Walk(g, pos, i) + Tour(g, g.adj[pos][i]) + [(g.dep[pos], pos)]
    ensures Recorded(g, pos, i + 1, base, inn0, out0, level0,
                     inn2, out2[pos := base + |Walk(g, pos, i + 1)| - 1], level2)
  {
    var j := i + 1;
    var out3 := out2[pos := base + |Walk(g, pos, j)| - 1];
    forall x | 0 <= x < g.n
      ensures RecordedAt(g, pos, j, base, inn0, out0, level0, inn2, out3, level2, x)
    {
      ChildRecordAt(g, pos, i, base, inn0, out0, level0, inn, out, level, inn2, out2, level2, x);
    }
  }

  /** The same, for one vertex x. */
  lemma ChildRecordAt(g: Tree, pos: int, i: int, base: int,
                      inn0: seq<int>, out0: seq<int>, level0: seq<int>,
                      inn: seq<int>, out: seq<int>, level: seq<int>,
                      inn2: seq<int>, out2: seq<int>, level2: seq<int>, x: int)
    requires Wf(g) && 0 <= pos < g.n && 0 <= i < |g.adj[pos]| && g.adj[pos][i] != g.par[pos]
    requires Recorded(g, pos, i, base, inn0, out0, level0, inn, out, level)
    requires Subtree(g, g.adj[pos][i], base + |Walk(g, pos, i)|, inn, out, level, inn2, out2, level2)
    requires 0 <= x < g.n
    ensures |inn2| == g.n && |out2| == g.n && |level2| == g.n
    ensures RecordedAt(g, pos, i + 1, base, inn0, out0, level0,
                       inn2, out2[pos := base + |Walk(g, pos, i + 1)| - 1], level2, x)
  {
    assert RecordedAt(g, pos, i, base, inn0, out0, level0, inn, out, level, x);
    DoneStep(g, pos, i, x);
  }

  /** After the last neighbour, the records are those of the whole subtree. */
  lemma RecordedAll(g: Tree, pos: int, base: int,
                    inn0: seq<int>, out0: seq<int>, level0: seq<int>,
                    inn: seq<int>, out: seq<int>, level: seq<int>)
    requires Wf(g) && 0 <= pos < g.n
    requires Recorded(g, pos, |g.adj[pos]|, base, inn0, out0, level0, inn, out, level)
    ensures Subtree(g, pos, base, inn0, out0, level0, inn, out, level)
  {
    assert Exit(g, pos, pos) == |Walk(g, pos, |g.adj[pos]|)| - 1;
    forall x | 0 <= x < g.n
      ensures inn[x] == if Ancestor(g, pos, x) then base + Enter(g, pos, x) else inn0[x]
      ensures out[x] == if Ancestor(g, pos, x) then base + Exit(g, pos, x) else out0[x]
      ensures level[x] == if Ancestor(g, pos, x) then g.dep[x] else level0[x]
    {
      assert RecordedAt(g, pos, |g.adj[pos]|, base, inn0, out0, level0, inn, out, level, x);
      assert Done(g, pos, |g.adj[pos]|, x) <==> Ancestor(g, pos, x);
    }
  }

  /** The DFS of source, with in, out, level and data passed in and out:
      dfs(pos, last, depth) records pos on entry and again after each
      child. */
  method Dfs(adj: seq<seq<int>>, ghost g: Tree, pos: int, last: int, depth: int,
             inn: seq<int>, out: seq<int>, level: seq<int>, data: seq<(int, int)>)
    returns (inn': seq<int>, out': seq<int>, level': seq<int>, data': seq<(int, int)>)
    requires Wf(g) && adj == g.adj && 0 <= pos < g.n && last == g.par[pos] && depth == g.dep[pos]
    requires |inn| == g.n && |out| == g.n && |level| == g.n
    ensures data' == data + Tour(g, pos)
    ensures Subtree(g, pos, |data|, inn, out, level, inn', out', level')
    decreases g.n - g.dep[pos]
  {
    inn' := inn[pos := |data|];
    out' := out[pos := |data|];
    level' := level[pos := depth];
    data' := data + [(depth, pos)];
    RecordedStart(g, pos, |data|, inn, out, level);
    for i := 0 to |adj[pos]|
      invariant data' == data + Walk(g, pos, i)
      invariant Recorded(g, pos, i, |data|, inn, out, level, inn', out', level')
    {
      var child := adj[pos][i];
      if child != last {
        ghost var inn1, out1, level1 := inn', out', level';
        inn', out', level', data' := Dfs(adj, g, child, pos, depth + 1, inn', out', level', data');
        RecordedChild(g, pos, i, |data|, inn, out, level, inn1, out1, level1, inn', out', level');
        out' := out'[pos := |data'|];
        data' := data' + [(depth, pos)];
      } else {
        RecordedParent(g, pos, i, |data|, inn, out, level, inn', out', level');
      }
    }
    RecordedAll(g, pos, |data|, inn, out, level, inn', out', level');
  }

  /** Going through adj[pos][i] adds exactly the subtree of that child,
      placed right after the pairs appended so far. */
  lemma DoneStep(g: Tree, pos: int, i: int, x: int)
    requires Wf(g) && 0 <= pos < g.n && 0 <= i < |g.adj[pos]| && 0 <= x < g.n
    ensures var c := g.adj[pos][i];
            (c == g.par[pos] ==> (Done(g, pos, i + 1, x) <==> Done(g, pos, i, x))) &&
            (c != g.par[pos] ==>
               0 <= c < g.n && g.par[c] == pos && g.dep[c] == g.dep[pos] + 1 &&
               (Done(g, pos, i + 1, x) <==> Done(g, pos, i, x) || Ancestor(g, c, x)) &&
               (Ancestor(g, c, x) ==> !Done(g, pos, i, x) && Enter(g, pos, x) == |Walk(g, pos, i)| + Enter(g, c, x)))
  {
    var c := g.adj[pos][i];
    IndexOfAt(g, pos, i);
    if c != g.par[pos] && Ancestor(g, c, x) {
      TopChildOf(g, pos, c, x);
    } else if Ancestor(g, pos, x) && x != pos {
      var t := TopChild(g, pos, x);
      if t == c {
        TopChildOf(g, pos, c, x);
      }
    }
  }

  /** The Min functor of the sparse table: std::min of two pairs, which
      keeps the first on a tie. */
  predicate PairLess(a: (int, int), b: (int, int)) {
    a.0 < b.0 || (a.0 == b.0 && a.1 < b.1)
  }

  function PairMin(a: (int, int), b: (int, int)): (m: (int, int))
    ensures (m == a || m == b) && !PairLess(a, m) && !PairLess(b, m)
  {
    if PairLess(b, a) then b else a
  }

  /** Min over pairs is associative and idempotent, as the sparse table's
      query needs. */
  lemma MinLaws()
    ensures Associative(PairMin) && Idempotent(PairMin)
  {
  }

  /** A reduction under Min of a sequence none of whose entries is below p
      is not below p ... */
  lemma {:induction false} ReduceAbove(s: seq<(int, int)>, k: int, p: (int, int))
    requires 1 <= k <= |s| && forall j :: 0 <= j < k ==> !PairLess(s[j], p)
    ensures !PairLess(ReduceTo(PairMin, s, k), p)
  {
    if k > 1 {
      ReduceAbove(s, k - 1, p);
    }
  }

  /** ... and once p itself has been met it is p. */
  lemma {:induction false} ReduceHits(s: seq<(int, int)>, k: int, p: (int, int), q: int)
    requires 0 <= q < k <= |s| && s[q] == p && forall j :: 0 <= j < |s| ==> !PairLess(s[j], p)
    ensures ReduceTo(PairMin, s, k) == p
  {
    if k > q + 1 {
      ReduceHits(s, k - 1, p, q);
    } else if q > 0 {
      ReduceAbove(s, q, p);
    }
  }

  /** The lowest common ancestor, climbing from the deeper vertex. */
  ghost function LowestCommon(g: Tree, u: int, v: int): (w: int)
    requires Wf(g) && 0 <= u < g.n && 0 <= v < g.n
    ensures 0 <= w < g.n
    decreases g.dep[u] + g.dep[v]
  {
    DepthZero(g, u);
    DepthZero(g, v);
    if u == v then u
    else if g.dep[u] >= g.dep[v] then LowestCommon(g, g.par[u], v)
    else LowestCommon(g, u, g.par[v])
  }

  /** The number of edges on the tree path between u and v. */
  ghost function PathLength(g: Tree, u: int, v: int): nat
    requires Wf(g) && 0 <= u < g.n && 0 <= v < g.n
    decreases g.dep[u] + g.dep[v]
  {
    DepthZero(g, u);
    DepthZero(g, v);
    if u == v then 0
    else if g.dep[u] >= g.dep[v] then 1 + PathLength(g, g.par[u], v)
    else 1 + PathLength(g, u, g.par[v])
  }

  /** LowestCommon(u, v) is a common ancestor of u and v, and every common
      ancestor is an ancestor of it. */
  lemma {:induction false} LowestCommonIs(g: Tree, u: int, v: int)
    requires Wf(g) && 0 <= u < g.n && 0 <= v < g.n
    ensures var w := LowestCommon(g, u, v);
            0 <= w < g.n && Ancestor(g, w, u) && Ancestor(g, w, v) &&
            forall z :: 0 <= z < g.n && Ancestor(g, z, u) && Ancestor(g, z, v) ==> Ancestor(g, z, w)
    decreases g.dep[u] + g.dep[v]
  {
    DepthZero(g, u);
    DepthZero(g, v);
    if u != v {
      if g.dep[u] >= g.dep[v] {
        LowestCommonIs(g, g.par[u], v);
        forall z | 0 <= z < g.n && Ancestor(g, z, u) && Ancestor(g, z, v)
          ensures Ancestor(g, z, g.par[u])
        {
          if z == u {
            AncestorDepth(g, u, v);
          }
        }
      } else {
        LowestCommonIs(g, u, g.par[v]);
        forall z | 0 <= z < g.n && Ancestor(g, z, u) && Ancestor(g, z, v)
          ensures Ancestor(g, z, g.par[v])
        {
          if z == v {
            AncestorDepth(g, v, u);
          }
        }
      }
    }
  }

  /** The lowest common ancestor does not depend on the order of u and v. */
  lemma LowestCommonSymmetric(g: Tree, u: int, v: int)
    requires Wf(g) && 0 <= u < g.n && 0 <= v < g.n
    ensures LowestCommon(g, u, v) == LowestCommon(g, v, u)
  {
    LowestCommonIs(g, u, v);
    LowestCommonIs(g, v, u);
    var a, b := LowestCommon(g, u, v), LowestCommon(g, v, u);
    AncestorDepth(g, a, b);
    AncestorDepth(g, b, a);
  }

  /** The path climbs from u and from v to their lowest common ancestor. */
  lemma {:induction false} PathThroughLowest(g: Tree, u: int, v: int)
    requires Wf(g) && 0 <= u < g.n && 0 <= v < g.n
    ensures var w := LowestCommon(g, u, v);
            PathLength(g, u, v) + 2 * g.dep[w] == g.dep[u] + g.dep[v]
    decreases g.dep[u] + g.dep[v]
  {
    LowestCommonIs(g, u, v);
    DepthZero(g, u);
    DepthZero(g, v);
    if u != v {
      if g.dep[u] >= g.dep[v] {
        PathThroughLowest(g, g.par[u], v);
      } else {
        PathThroughLowest(g, u, g.par[v]);
      }
    }
  }

  /** Every pair within the tour of w is at least (level[w], w). */
  lemma AboveAt(g: Tree, w: int, k: int)
    requires Wf(g) && 0 <= w < g.n && In(g, w) <= k <= Out(g, w)
    ensures k < |Tour(g, g.root)| && !PairLess(Tour(g, g.root)[k], (g.dep[w], w))
  {
    Members(g, w, k);
    AncestorDepth(g, w, Tour(g, g.root)[k].1);
  }

  /** When in[u] <= out[v], the pair of their lowest common ancestor w
      occurs between them: at in[u] or out[v] when w is u or v, and
      otherwise where the DFS returns to w between the branches holding u
      and v. */
  lemma LcaSeen(g: Tree, u: int, v: int) returns (q: int)
    requires Wf(g) && 0 <= u < g.n && 0 <= v < g.n && In(g, u) <= Out(g, v)
    ensures var w := LowestCommon(g, u, v);
            In(g, u) <= q <= Out(g, v) < |Tour(g, g.root)| && Tour(g, g.root)[q] == (g.dep[w], w)
  {
    var w := LowestCommon(g, u, v);
    LowestCommonIs(g, u, v);
    Ends(g, u);
    Ends(g, v);
    if w == u {
      q := In(g, u);
    } else if w == v {
      q := Out(g, v);
    } else {
      var c1, c2 := TopChild(g, w, u), TopChild(g, w, v);
      if c1 == c2 {
        AncestorDepth(g, c1, w);
        assert false;
      }
      assert c1 in g.adj[w] && c2 in g.adj[w];
      var i1, i2 := IndexOf(g.adj[w], c1), IndexOf(g.adj[w], c2);
      Nesting(g, c1, u);
      Nesting(g, c2, v);
      if i2 < i1 {
        SiblingOrder(g, w, i2, i1);
        assert false;
      }
      SiblingOrder(g, w, i1, i2);
      AfterChild(g, w, i1);
      q := Out(g, c1) + 1;
    }
  }

  /** The heart of the structure: when in[u] <= out[v], the minimum of
      data[in[u]..out[v]] is (level[w], w) for w the lowest common ancestor
      of u and v. */
  lemma LcaWindow(g: Tree, u: int, v: int)
    requires Wf(g) && 0 <= u < g.n && 0 <= v < g.n && In(g, u) <= Out(g, v)
    ensures Out(g, v) < |Tour(g, g.root)|
    ensures var w := LowestCommon(g, u, v);
            Reduce(PairMin, Tour(g, g.root)[In(g, u)..Out(g, v) + 1]) == (g.dep[w], w)
  {
    var w := LowestCommon(g, u, v);
    var q := LcaSeen(g, u, v);
    LowestCommonIs(g, u, v);
    Nesting(g, w, u);
    Nesting(g, w, v);
    var l, r := In(g, u), Out(g, v);
    var t := Tour(g, g.root);
    var p := (g.dep[w], w);
    forall k | l <= k <= r
      ensures !PairLess(t[k], p)
    {
      AboveAt(g, w, k);
    }
    WindowMin(t, l, r, q, p);
  }

  /** A window holding p, with nothing in it below p, has minimum p. */
  lemma WindowMin(t: seq<(int, int)>, l: int, r: int, q: int, p: (int, int))
    requires 0 <= l <= q <= r < |t| && t[q] == p
    requires forall k :: l <= k <= r ==> !PairLess(t[k], p)
    ensures Reduce(PairMin, t[l..r + 1]) == p
  {
    var s := t[l..r + 1];
    forall j | 0 <= j < |s|
      ensures !PairLess(s[j], p)
    {
      assert s[j] == t[l + j];
    }
    ReduceHits(s, |s|, p, q - l);
  }

  /** get_lca_distance's query window: after the swap in[a] <= out[b], and
      the window's minimum names the lowest common ancestor of u and v, through
      which the path between them passes. */
  lemma QueryWindow(g: Tree, u: int, v: int, a: int, b: int)
    requires Wf(g) && 0 <= u < g.n && 0 <= v < g.n
    requires if In(g, u) > Out(g, v) then a == v && b == u else a == u && b == v
    ensures var w := LowestCommon(g, u, v);
            0 <= a < g.n && 0 <= b < g.n && In(g, a) <= Out(g, b) < |Tour(g, g.root)| &&
            Reduce(PairMin, Tour(g, g.root)[In(g, a)..Out(g, b) + 1]) == (g.dep[w], w) &&
            PathLength(g, u, v) + 2 * g.dep[w] == g.dep[a] + g.dep[b]
  {
    Ends(g, u);
    Ends(g, v);
    LowestCommonSymmetric(g, u, v);
    PathThroughLowest(g, u, v);
    LcaWindow(g, a, b);
  }

  /** The sparse table's query under Min: the minimum of the window. */
  function MinQuery(st: SparseTable<(int, int)>, l: nat, r: nat): (m: (int, int))
    requires st.Valid() && st.op == PairMin && l <= r < st.len
    ensures m == Reduce(PairMin, st.source[l..r + 1])
  {
    MinLaws();
    st.Query(l, r)
  }

  /** The class of source: n, in, out, level and the sparse table over
      the Euler tour; `tree` is the ghost description of the input. */
  class LCA {
    const n: int
    const inn: seq<int>
    const out: seq<int>
    const level: seq<int>
    const sparse: SparseTable<(int, int)>
    ghost const tree: Tree

    ghost predicate Valid() {
      Wf(tree) && n == tree.n && |inn| == n && |out| == n && |level| == n &&
      (forall x {:trigger inn[x]} :: 0 <= x < n ==> inn[x] == In(tree, x)) &&
      (forall x {:trigger out[x]} :: 0 <= x < n ==> out[x] == Out(tree, x)) &&
      (forall x {:trigger level[x]} :: 0 <= x < n ==> level[x] == tree.dep[x]) &&
      sparse.Valid() && sparse.source == Tour(tree, tree.root) && sparse.op == PairMin
    }

    /** LCA(num_verts, adj, root): the DFS from root with parent -1 and
        depth 0 over zeroed vectors, then the sparse table over data. */
    constructor (numVerts: int, adj: seq<seq<int>>, root: int, ghost par: seq<int>, ghost dep: seq<nat>)
      requires Wf(Tree(numVerts, adj, root, par, dep))
      ensures Valid() && tree == Tree(numVerts, adj, root, par, dep)
    {
      ghost var g := Tree(numVerts, adj, root, par, dep);
      var zeros := seq(numVerts, _ => 0);
      var i1, o1, l1, d1 := Dfs(adj, g, root, -1, 0, zeros, zeros, zeros, []);
      TourEnds(g, root);
      forall x | 0 <= x < numVerts
        ensures Ancestor(g, root, x)
      {
        AncestorRoot(g, x);
      }
      n := numVerts;
      inn := i1;
      out := o1;
      level := l1;
      tree := g;
      sparse := new SparseTable(d1, (0, 0), PairMin);
    }

    /** The window in[a]..out[b] that get_lca_distance selects by its swap
        lies inside the tour. */
    lemma WindowBounds(u: int, v: int, a: int, b: int)
      requires Valid() && 0 <= u < n && 0 <= v < n
      requires if inn[u] > out[v] then a == v && b == u else a == u && b == v
      ensures 0 <= a < n && 0 <= b < n && 0 <= inn[a] <= out[b] < sparse.len
    {
      QueryWindow(tree, u, v, a, b);
    }

    /** The minimum pair of that window names the lowest common ancestor,
        and the depths give the length of the path. */
    lemma WindowAnswer(u: int, v: int, a: int, b: int, m: (int, int))
      requires Valid() && 0 <= u < n && 0 <= v < n
      requires if inn[u] > out[v] then a == v && b == u else a == u && b == v
      requires 0 <= inn[a] <= out[b] < sparse.len
      requires m == MinQuery(sparse, inn[a], out[b])
      ensures 0 <= m.1 < n && m.1 == LowestCommon(tree, u, v)
      ensures level[a] + level[b] - 2 * level[m.1] == PathLength(tree, u, v)
    {
      QueryWindow(tree, u, v, a, b);
    }

    /** get_lca_distance(u, v): order u and v so that in[u] <= out[v], take
        the minimum pair of data[in[u]..out[v]], and the distance through
        its vertex. */
    function GetLcaDistance(u: int, v: int): (r: (int, int))
      requires Valid() && 0 <= u < n && 0 <= v < n
      ensures r.0 == LowestCommon(tree, u, v) && r.1 == PathLength(tree, u, v)
    {
      var swap := inn[u] > out[v];
      var a := if swap then v else u;
      var b := if swap then u else v;
      WindowBounds(u, v, a, b);
      var m := MinQuery(sparse, inn[a], out[b]);
      WindowAnswer(u, v, a, b, m);
      (m.1, level[a] + level[b] - 2 * level[m.1])
    }

    /** get_lca(u, v) */
    function GetLca(u: int, v: int): (w: int)
      requires Valid() && 0 <= u < n && 0 <= v < n
      ensures w == LowestCommon(tree, u, v)
      ensures Ancestor(tree, w, u) && Ancestor(tree, w, v)
      ensures forall z :: 0 <= z < n && Ancestor(tree, z, u) && Ancestor(tree, z, v) ==> Ancestor(tree, z, w)
    {
      LowestCommonIs(tree, u, v);
      GetLcaDistance(u, v).0
    }

    /** get_distance(u, v) */
    function GetDistance(u: int, v: int): (d: int)
      requires Valid() && 0 <= u < n && 0 <= v < n
      ensures d == PathLength(tree, u, v)
      ensures u == v ==> d == 0
    {
      GetLcaDistance(u, v).1
    }
  }
}
