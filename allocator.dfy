/** `StaticAllocator` of allocator.hpp: a pool of `len` nodes in a fixed
    buffer with a LIFO free list. A pointer into the buffer is modelled by
    the index of its slot. */
module Allocator {

  /** The entries of `s` are pairwise distinct. */
  predicate Distinct(s: seq<nat>) {
    forall i, j :: 0 <= i < j < |s| ==> s[i] != s[j]
  }

  class StaticAllocator<Node> {
    /** The free list (`usable`). */
    var usable: seq<nat>
    /** The node storage (`buffer`). */
    const buffer: array<Node>
    const len: nat
    /** Slots handed out by alloc and not yet given back. */
    ghost var live: set<nat>
    /** Calls of alloc and of dealloc so far. */
    ghost var allocs: nat
    ghost var deallocs: nat

    /** Every slot is exactly one of free and live, and the free list has no
        repeats. */
    ghost predicate Valid()
      reads this
    {
      buffer.Length == len && Distinct(usable) &&
      (forall k :: 0 <= k < |usable| ==> usable[k] < len && usable[k] !in live) &&
      (forall p :: p in live ==> p < len) &&
      (forall p :: 0 <= p < len ==> p in live || p in usable)
    }

    /** The free list grows with every dealloc and shrinks with every alloc,
        whatever is given back. */
    ghost predicate Counted()
      reads this
    {
      |usable| + allocs == len + deallocs
    }

    /** StaticAllocator(): every slot of the buffer is free, slot i at
        position i of the free list. `blank` stands for the default-built
        nodes of the buffer. */
    constructor (len: nat, blank: Node)
      ensures Valid() && Counted() && this.len == len
      ensures usable == seq(len, i => i) && live == {}
      ensures fresh(buffer)
    {
      this.len := len;
      buffer := new Node[len](_ => blank);
      live := {};
      allocs, deallocs := 0, 0;
      var u: seq<nat> := [];
      for i := 0 to len
        invariant |u| == i && forall k :: 0 <= k < i ==> u[k] == k
      {
        u := u + [i];
      }
      usable := u;
      assert u == seq(len, i => i);
      forall p | 0 <= p < len
        ensures p in u
      {
        assert u[p] == p;
      }
    }

    /** alloc(args...): the free list must not be empty; its last slot is
        removed, overwritten with the new node and returned. */
    method Alloc(node: Node) returns (p: nat)
      requires Valid() && |usable| > 0
      modifies this, buffer
      ensures p == old(usable[|usable| - 1]) && usable == old(usable[..|usable| - 1])
      ensures p < buffer.Length && buffer[p] == node
      ensures forall k :: 0 <= k < buffer.Length && k != p ==> buffer[k] == old(buffer[k])
      ensures p !in old(live) && live == old(live) + {p}
      ensures allocs == old(allocs) + 1 && deallocs == old(deallocs)
      ensures Valid() && (old(Counted()) ==> Counted())
    {
      p := usable[|usable| - 1];
      usable := usable[..|usable| - 1];
      buffer[p] := node;
      live := live + {p};
      allocs := allocs + 1;
    }

    /** dealloc(node): the slot goes back on the free list, whether or not it
        was live; giving back a live slot keeps the pool valid. */
    method Dealloc(p: nat)
      requires p < len
      modifies this
      ensures usable == old(usable) + [p] && live == old(live) - {p}
      ensures deallocs == old(deallocs) + 1 && allocs == old(allocs)
      ensures old(Counted()) ==> Counted()
      ensures old(Valid()) && p in old(live) ==> Valid()
    {
      usable := usable + [p];
      live := live - {p};
      deallocs := deallocs + 1;
    }

    /** The free list is LIFO: an alloc right after dealloc(p) returns p. */
    method Reuse(p: nat, node: Node) returns (q: nat)
      requires Valid() && p in live
      modifies this, buffer
      ensures q == p && buffer[p] == node && Valid()
    {
      Dealloc(p);
      q := Alloc(node);
    }
  }

  /** The values of a sequence, as a set. */
  ghost function Elems(s: seq<nat>): set<nat> {
    set k | 0 <= k < |s| :: s[k]
  }

  lemma {:induction false} DistinctCard(s: seq<nat>)
    requires Distinct(s)
    ensures |Elems(s)| == |s|
    decreases |s|
  {
    if |s| > 0 {
      var init := s[..|s| - 1];
      DistinctCard(init);
      assert Elems(s) == Elems(init) + {s[|s| - 1]};
      assert s[|s| - 1] !in Elems(init);
    }
  }

  /** The slots 0..n-1. */
  ghost function Slots(n: nat): (r: set<nat>)
    ensures forall p :: p in r <==> 0 <= p < n
  {
    if n == 0 then {} else Slots(n - 1) + {n - 1}
  }

  lemma {:induction false} SlotsCard(n: nat)
    ensures |Slots(n)| == n
  {
    if n > 0 {
      SlotsCard(n - 1);
    }
  }

  /** In a valid pool the free slots and the live slots partition the
      buffer: there are `len` minus the number of live slots free. */
  lemma FreeCount<Node>(a: StaticAllocator<Node>)
    requires a.Valid()
    ensures |a.usable| + |a.live| == a.len
  {
    DistinctCard(a.usable);
    SlotsCard(a.len);
    assert Elems(a.usable) + a.live == Slots(a.len);
    assert Elems(a.usable) * a.live == {};
  }
}
