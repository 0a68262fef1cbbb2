# CppCp core, modelled in Dafny

CppCp is a header-only C++ library for competitive programming. This project
models its algorithmic core and proves what each header promises:

- `ImplicitTreap`: a sequence kept as a randomized tree with range aggregates
  and lazy range reversal.
- `SegTree` and `LazySegTree`: array-backed segment trees over a monoid, the
  lazy one with range updates.
- `SparseTable`: idempotent range queries in O(1).
- `DSU`: union-find with path compression. `join` keeps the root of the
  set with the smaller count, the first one on a tie, and hangs the other
  root below it (dsu.hpp:59-63).
- `LCA`: lowest common ancestor by an Euler tour and a sparse table.
- `ModInt` and the `Combinatorics` tables of math.hpp: arithmetic modulo a
  prime, modular inverses by Fermat's little theorem, factorials and
  binomials.
- The polynomial string hash of hash.hpp.
- `Compressor`: coordinate compression.
- The functional and fluent helpers of func.hpp and fluent.hpp.
- `zip`, the string helpers, the node allocator and the graph builders.

Each header is its own module. Code that rewrites state in place (the
treap, the segment trees, the sparse table, the DSU, the LCA's DFS, the
allocator, the compressor) is modelled as classes and methods with loops.
Each of those methods is proved against a specification function. Pure
helpers become functions, and lemmas relate them.

Integers are mathematical: `i32`/`i64` wrap-around is not modelled, and the
arithmetic of `ModInt` and the hash is written out modulo MOD with C++'s
truncating `%`. Random values are parameters: treap priorities are
supplied by the caller and hash multipliers are arguments. The treap is a
min-heap on priorities: `merge` puts the node with the smaller priority on
top (treap.hpp:296).

## Model

| member | source | states |
|---|---|---|
| Treap.Seq | treap.hpp:319-327 | the sequence a node represents has exactly as many elements as the subtree has nodes; a pending flip reverses that subtree's order |
| Treap.Toggle | treap.hpp:236-240 | toggling a child's flip keeps its node count, size, priority and aggregate |
| Treap.ToggleSeq | treap.hpp:236-240 | toggling a flip reverses the sequence the subtree represents |
| Treap.ToggleWf | treap.hpp:236-240 | toggling a flip neither breaks nor repairs the tree's invariants |
| Treap.Propagate | treap.hpp:229-244 | after propagate the node carries no pending flip and keeps its value, priority, aggregate and size |
| Treap.PropagateSeq | treap.hpp:229-244 | propagate does not change the represented sequence |
| Treap.PropagateWf | treap.hpp:229-244 | propagate keeps the size, heap and aggregate invariants for an associative and commutative op |
| Treap.UpdateNode | treap.hpp:246-256 | update(Node*) keeps the node's value, priority, flip and node count |
| Treap.UpdateNodeWf | treap.hpp:246-256 | a node over well-formed children that sit no higher in priority is well formed after update(Node*), with its sequence unchanged |
| Treap.SizedCount | treap.hpp:258-263 | where every size field is correct, safe_get_size is the node count |
| Treap.Get | treap.hpp:307-317 | get(node, k) returns element k of the represented sequence |
| Treap.WalkInOrder | treap.hpp:319-327 | the in-order walk, with flips pushed down on the way, visits exactly the represented sequence |
| Treap.Leaf | treap.hpp:33-40 | a fresh node represents the one-element sequence [val] |
| Treap.LeafWf | treap.hpp:33-40 | a fresh node satisfies every invariant |
| Treap.SplitTree | treap.hpp:265-285 | split(node, k) returns two well-formed trees whose sequences concatenate to the input's, the first holding exactly k elements, both no higher in priority than the input's root |
| Treap.MergeTrees | treap.hpp:287-305 | merge returns a well-formed tree holding the left sequence followed by the right one, rooted at one of the two roots; it is null only when both are |
| Treap.Isolate | treap.hpp:122-123 | the two splits cut the sequence into its prefix before l, the range l..r and the suffix after r, the middle piece being non-empty |
| Treap.Rejoin | treap.hpp:127 | merge(merge(left, mid), right) is well formed and holds the three sequences in order |
| Treap.CachedIsReduce | treap.hpp:246-256 | for an associative and commutative op the cached cum_val of any subtree is the reduction of its sequence, whatever flips are pending |
| Treap.CumValIsValFirst | treap.hpp:246-256 | with a non-commutative op (concatenation) the cached aggregate puts the node's own value before its left child's, so it differs from the in-order reduction |
| Treap.ReversedRangeTwice | treap.hpp:185-201 | reversing the same range twice restores the sequence, and reversal keeps the length |
| Treap.ImplicitTreap.Empty | treap.hpp:61 | the default constructor yields a valid, empty treap |
| Treap.ImplicitTreap.FromSeq | treap.hpp:66-70 | the constructor from a container holds exactly the container's elements in order |
| Treap.ImplicitTreap.Copy | treap.hpp:78-82 | the copy constructor holds the same sequence and operator as the original |
| Treap.ImplicitTreap.FromTree | treap.hpp:227 | wrapping a well-formed tree gives a valid treap representing that tree's sequence |
| Treap.ImplicitTreap.Size | treap.hpp:216-218 | size() is the length of the represented sequence |
| Treap.ImplicitTreap.At | treap.hpp:95-100 | operator[](pos) is element pos of the sequence |
| Treap.ImplicitTreap.Set | treap.hpp:102-114 | set(pos, val) replaces element pos by val and changes nothing else |
| Treap.ImplicitTreap.Update | treap.hpp:131-143 | update(pos, val) replaces element pos by op(element, val) and changes nothing else |
| Treap.ImplicitTreap.Query | treap.hpp:116-129 | query(l, r) leaves the sequence unchanged and, for an associative and commutative op, returns the reduction of elements l..r |
| Treap.ImplicitTreap.PushBack | treap.hpp:156-158 | push_back appends the value |
| Treap.ImplicitTreap.Insert | treap.hpp:160-165 | insert(pos, val) puts val between the first pos elements and the rest |
| Treap.ImplicitTreap.Erase | treap.hpp:171-183 | erase(l, r) removes exactly the elements l..r inclusive |
| Treap.ImplicitTreap.EraseAtAsWritten | treap.hpp:167-169 | erase(pos) as written removes elements pos and pos + 1, and needs pos + 1 < size |
| Treap.ImplicitTreap.EraseAt | treap.hpp:167-169 | erase(pos) as intended removes exactly element pos |
| Treap.ImplicitTreap.Reverse | treap.hpp:185-201 | reverse(l, r) on a reversible treap reverses elements l..r and keeps the rest |
| Treap.ImplicitTreap.SplitOff | treap.hpp:203-210 | split(k) returns treaps holding the first k elements and the rest, and empties this one |
| Treap.ImplicitTreap.Join | treap.hpp:212-214 | join(other) appends other's elements after this treap's |
| Treap.ImplicitTreap.ForEach | treap.hpp:145-147 | for_each visits exactly the sequence, in order |
| Treap.ImplicitTreap.Map | treap.hpp:149-154 | map returns func applied to each element, in order, with the same length |
| Treap.InsertEraseScenario | treap.hpp:156-183 | on [10, 20, 30, 40], insert(2, 99) and then erase(0, 1) leave three elements, starting with 99 |
| Treap.EraseAtScenario | treap.hpp:167-169 | on [10, 20, 30], erase(0) as written leaves one element, 30; the intended erase leaves two, starting with 20 |
| SegTreeLayout.Mid | segtree.hpp:22 | the split point l + (r - l) / 2 of a range with l < r lies in l..r-1, so both halves are non-empty |
| SegTreeLayout.ComputeIndices | segtree.hpp:19-26 | the left child sits right after its parent and the right child right after the left child's subtree, so the two child subtrees tile exactly the parent's 2(r - l + 1) - 1 slots |
| SegTreeLayout.SizeSpan | segtree.hpp:19-26 | a subtree over l..r occupies 2(r - l + 1) - 1 slots, so a tree over `size` positions fits in the 2·size store |
| SegTreeLayout.WriteOutside | segtree.hpp:75-86 | writing a subtree's slots leaves every slot outside them as it was |
| SegTreeLayout.WriteSame | segtree.hpp:88-114 | rewriting a subtree with the values it already holds leaves the store unchanged |
| SegTreeLayout.WindowConcat | segtree.hpp:116-131 | the positions of a query range over two adjacent blocks are those over the first block followed by those over the second |
| SegTree.SlotIsReduce | segtree.hpp:85 | for an associative op every consistent slot holds the aggregate of all positions below it |
| SegTree.BuiltLeaves | segtree.hpp:75-86 | build(source, idx, l, r) leaves source[l..r] as the subtree's positions |
| SegTree.BuiltInv | segtree.hpp:75-86 | after build every internal slot is op of its children |
| SegTree.NilLeaves | segtree.hpp:35-38 | a store filled with nil represents a sequence of nils |
| SegTree.NilInv | segtree.hpp:35-38 | the all-nil store is consistent when op(nil, nil) == nil |
| SegTree.Changed | segtree.hpp:50-56 | a point change keeps the length of the sequence |
| SegTree.MutatedLeaves | segtree.hpp:88-114 | mutate<replace>(u, w) changes position u alone: replaced by w, or combined as op(old, w); outside l..r nothing changes |
| SegTree.MutatedInv | segtree.hpp:88-114 | mutate keeps every internal slot equal to op of its children |
| SegTree.QueryRangeFold | segtree.hpp:116-131 | for a monoid (op, nil) the private query over l..r returns the aggregate of the positions of l..r inside u..v, and nil when there are none |
| SegTree.QuerySplit | segtree.hpp:129-130 | the aggregate over a node's positions inside u..v is op of its children's aggregates |
| SegTree.SegTree.Sized | segtree.hpp:35-38 | SegTree(size, nil) and StaticSegTree(nil) represent `size` copies of nil |
| SegTree.SegTree.FromSeq | segtree.hpp:40-48 | SegTree(source, nil) represents exactly the source |
| SegTree.SegTree.StaticFromSeq | segtree.hpp:143-149 | StaticSegTree(source, nil) represents the first Size values of the source |
| SegTree.SegTree.Install | segtree.hpp:47 | build(source, 0, 0, size - 1) leaves a valid tree representing source[0..size] |
| SegTree.SegTree.Build | segtree.hpp:75-86 | build writes exactly the subtree built from source[l..r], in pre-order from slot idx, and no other slot |
| SegTree.SegTree.Mutate | segtree.hpp:88-114 | mutate writes exactly the mutated subtree back into its own slots and touches no other slot |
| SegTree.SegTree.Set | segtree.hpp:50-52 | set(pos, value) replaces position pos by value; a pos outside 0..size-1 changes nothing |
| SegTree.SegTree.Update | segtree.hpp:54-56 | update(pos, value) replaces position pos by op(old, value); a pos outside 0..size-1 changes nothing |
| SegTree.SegTree.Change | segtree.hpp:88-114 | mutate<replace>(pos, value, 0, 0, size - 1) keeps the tree valid and changes only position pos |
| SegTree.SegTree.Query | segtree.hpp:58-60 | query(left, right) is the monoid aggregate of the positions in left..right clamped to 0..size-1, and nil when that range is empty |
| SegTree.SegTree.Size | segtree.hpp:62-64 | size() is the number of positions |
| LazySegTree.Distribute | lazysegtree.hpp:130-135 | a tag applied to the aggregate over l..r equals the aggregate of the tag applied to each half, which is what lets propagate hand a node's tag down to its children |
| LazySegTree.Actual | lazysegtree.hpp:126-137 | a subtree over l..r stands for exactly r - l + 1 positions, each a leaf value with every pending tag on its path applied |
| LazySegTree.Aggregate | lazysegtree.hpp:123 | in a consistent subtree the node's value, with its own and its ancestors' pending tags applied, is the aggregate of the positions below it |
| LazySegTree.Pushed | lazysegtree.hpp:126-137 | propagate leaves the node's tag nil and keeps the subtree's shape |
| LazySegTree.PushedTwice | lazysegtree.hpp:126-129 | a second propagate changes nothing, because the tag is already nil |
| LazySegTree.PushedActual | lazysegtree.hpp:126-137 | propagate changes no position of the subtree |
| LazySegTree.PushedConsistent | lazysegtree.hpp:126-137 | propagate keeps every internal value consistent with its children |
| LazySegTree.Applied | lazysegtree.hpp:156-177 | applying a tag to the positions inside u..v keeps the length |
| LazySegTree.BuiltSound | lazysegtree.hpp:115-124 | build yields a consistent subtree that stands for source[l..r] |
| LazySegTree.NilConsistent | lazysegtree.hpp:44-53 | a store of nil values with nil tags is consistent |
| LazySegTree.NilActual | lazysegtree.hpp:44-53 | a store of nil values with nil tags stands for nil at every position |
| LazySegTree.AssignedConsistent | lazysegtree.hpp:139-154 | set keeps the subtree consistent |
| LazySegTree.AssignedSound | lazysegtree.hpp:139-154 | set(u, w) changes position u to w and no other position |
| LazySegTree.TaggedConsistent | lazysegtree.hpp:156-177 | update keeps the subtree consistent |
| LazySegTree.TaggedSound | lazysegtree.hpp:156-177 | update(u, v, w) applies w to exactly the positions inside u..v |
| LazySegTree.QueriedConsistent | lazysegtree.hpp:179-190 | query, which propagates every node it meets, keeps the subtree consistent |
| LazySegTree.QueriedSound | lazysegtree.hpp:179-190 | query rewrites the stores but changes no position |
| LazySegTree.AnsweredSound | lazysegtree.hpp:179-190 | on a consistent subtree the query's answer is the aggregate of the positions of l..r inside u..v, nil when there are none |
| LazySegTree.QueryKeeps | lazysegtree.hpp:87-96 | a query over the whole tree leaves it consistent and its positions unchanged |
| LazySegTree.QueryAnswers | lazysegtree.hpp:87-96 | a query of u..v with 0 <= u <= v < size answers the aggregate of positions u..v |
| LazySegTree.Build | lazysegtree.hpp:115-124 | build writes exactly the built subtree into its own slots, from slot idx on |
| LazySegTree.BuildNode | lazysegtree.hpp:120-123 | build at an internal node writes both children and then the root slot |
| LazySegTree.Propagate | lazysegtree.hpp:126-137 | propagate(idx, l, r) writes exactly the pushed subtree and touches no slot outside it |
| LazySegTree.SetAt | lazysegtree.hpp:139-154 | set(u, w, idx, l, r) writes exactly the assigned subtree into its own slots |
| LazySegTree.SetNode | lazysegtree.hpp:150-153 | at an internal node, set recurses into both children and stores the op of their values with a nil tag |
| LazySegTree.SetRight | lazysegtree.hpp:152-153 | once the left child holds its assigned subtree, set recurses into the right child and the node then holds the op of the two children's values with a nil tag, and only its own slots change |
| LazySegTree.UpdateAt | lazysegtree.hpp:156-177 | update(u, v, w, idx, l, r) writes exactly the tagged subtree into its own slots |
| LazySegTree.UpdateNode | lazysegtree.hpp:173-176 | at a node straddling u..v, update recurses into both children and stores the op of their values |
| LazySegTree.UpdateRight | lazysegtree.hpp:175-176 | once the left child holds its tagged subtree, update recurses into the right child and the node then holds the op of the two children's values, and only its own slots change |
| LazySegTree.QueryAt | lazysegtree.hpp:179-190 | query(u, v, idx, l, r) returns the answer of the subtree and writes back the propagated subtree |
| LazySegTree.QueryNode | lazysegtree.hpp:188-189 | at a node straddling u..v, query returns op of its children's answers |
| LazySegTree.LazySegTree.Sized | lazysegtree.hpp:44-53 | LazySegTree(size, nil_value, nil_lazy) and StaticLazySegTree(nil_value, nil_lazy) represent `size` copies of nil |
| LazySegTree.LazySegTree.FromSeq | lazysegtree.hpp:55-69 | LazySegTree(source) represents exactly the source |
| LazySegTree.LazySegTree.StaticFromSeq | lazysegtree.hpp:217-229 | StaticLazySegTree(source) represents the first Size values of the source |
| LazySegTree.LazySegTree.Install | lazysegtree.hpp:68 | build(source, 0, 0, size - 1) on nil tags yields a valid tree representing source[0..size] |
| LazySegTree.LazySegTree.Set | lazysegtree.hpp:71-74 | set(pos, value) replaces position pos by value and changes no other position |
| LazySegTree.LazySegTree.Update | lazysegtree.hpp:76-85 | update(left, right, lazy) applies the tag to each position of left..right and to no other |
| LazySegTree.LazySegTree.Query | lazysegtree.hpp:87-96 | query(left, right) returns the aggregate of positions left..right and changes no position |
| LazySegTree.RangeAddScenario | lazysegtree.hpp:76-96 | with range add and range sum over [1, 2, 3, 4, 5], update(1, 3, 10) makes query(0, 4) return 45 and query(1, 3) return 39 |
| LazySegTree.LazySegTree.Size | lazysegtree.hpp:98-100 | size() is the number of positions |
| SparseTables.BlockReduce | sparsetable.hpp:26-32 | for an associative op, the entry of row i at j is the reduction of the 2^i source values from j on |
| SparseTables.QueryLog | sparsetable.hpp:37 | lg = bit_width(r - l + 1) - 1 is the largest power of two not above the range length: 2^lg <= r - l + 1 < 2^(lg+1) |
| SparseTables.Row | sparsetable.hpp:24-32 | every row the constructor fills has len entries |
| SparseTables.PartialStep | sparsetable.hpp:27-30 | the inner loop's write at j extends the row by one block |
| SparseTables.LogFits | sparsetable.hpp:37-38 | the row query(l, r) reads exists: lg < bit_width(len) when r < len |
| SparseTables.CoverReduce | sparsetable.hpp:35-39 | the two blocks of size 2^lg starting at l and ending at r overlap and cover l..r, so for an associative and idempotent op their combination is the reduction of l..r |
| SparseTables.CoverSlices | sparsetable.hpp:38 | two overlapping slices, combined under an idempotent op, reduce to the slice they cover together |
| SparseTables.ForwardBlock | sparsetable.hpp:47-50 | adding the next block to the fold so far gives the fold up to that block's end |
| SparseTables.SparseTable.constructor | sparsetable.hpp:18-33 | the constructor leaves bit_width(len) rows; row i holds at j the block of 2^i values from j where it fits and nil where it does not |
| SparseTables.SparseTable.Query | sparsetable.hpp:35-39 | for an associative and idempotent op, query(l, r) is the reduction of source[l..r] |
| SparseTables.SparseTable.QueryForward | sparsetable.hpp:41-53 | for a monoid with identity nil, query_forward(idx, step) is the fold of the step values starting at idx, taken in order |
| SparseTables.SparseTable.Size | sparsetable.hpp:55-57 | size() is the length of the source |
| DisjointSets.Root | dsu.hpp:18-26 | following parents from x ends at a root, a node that is its own parent |
| DisjointSets.RootWitness | dsu.hpp:18-26 | the root of x depends only on the parent links |
| DisjointSets.PathFacts | dsu.hpp:18-26 | every node on the path from x has the same root as x |
| DisjointSets.Compressed | dsu.hpp:25 | path compression keeps the number of nodes |
| DisjointSets.CompressedStep | dsu.hpp:22-25 | compressing from x is compressing from x's parent and then pointing x at the root |
| DisjointSets.CompressedRoots | dsu.hpp:25 | path compression keeps the forest acyclic and every node's root |
| DisjointSets.CompressedCounted | dsu.hpp:25 | path compression keeps every set and every root's count |
| DisjointSets.HangRoots | dsu.hpp:63 | parent[b] = a for distinct roots merges b's set into a's and moves no other node |
| DisjointSets.HangCounted | dsu.hpp:62-63 | after the link the surviving root counts the members of both sets, and every other count is still its set's size |
| DisjointSets.RerootRoots | dsu.hpp:36-38 | make_root's three writes keep the forest acyclic and give the set of x the root x |
| DisjointSets.RerootCounted | dsu.hpp:36-38 | after make_root, x's count is the size of its set and every other set is unchanged |
| DisjointSets.DisjointSet.constructor | dsu.hpp:14-16 | DisjointSet(size) makes every node its own root with count 1 |
| DisjointSets.DisjointSet.GetRoot | dsu.hpp:18-26 | get_root(x) returns x's root and changes no set and no count; the new parents are the old ones with x's path pointed at the root |
| DisjointSets.DisjointSet.MakeRoot | dsu.hpp:28-39 | make_root(x) makes x the root of its set and changes no set; x's count becomes the old root's count and every other count, the old root's stale one included, stays as it was |
| DisjointSets.DisjointSet.GetCount | dsu.hpp:41-46 | for a root, get_count is the size of its set |
| DisjointSets.DisjointSet.Join | dsu.hpp:48-64 | join(x, y) merges the sets of x and y under the root with the smaller count (x's root on a tie) and adds the counts; if they already share a root nothing changes |
| DisjointSets.DisjointSet.JoinRoots | dsu.hpp:56-63 | join on two roots: nothing if they are equal, otherwise the root with the larger count is hung below the other |
| DisjointSets.DisjointSet.Roots | dsu.hpp:55 | the two get_root calls return the old roots of x and y, which are their own parents afterwards, and change no set and no count |
| DisjointSets.DisjointSet.Link | dsu.hpp:62-63 | counts[a] += counts[b]; parent[b] = a merges b's set into a's |
| DisjointSets.DisjointSet.Size | dsu.hpp:66-68 | size() is the number of nodes |
| DisjointSets.Example | dsu.hpp:48-64 | over five nodes, join(0, 1) then join(1, 2) puts 0 and 2 in one set of three that leaves 3 out |
| Bits.BitWidth | sparsetable.hpp:24 | std::bit_width(n) is 0 exactly for n == 0 |
| Bits.BitWidthBounds | sparsetable.hpp:37 | n has bit_width(n) binary digits: 2^(bit_width(n) - 1) <= n < 2^bit_width(n) |
| Bits.LowAll | sparsetable.hpp:46-51 | below 2^k the low k bits of n are all of n, so the set bits of step below bit_width(len) add up to step |
| Algebra.FoldConcat | segtree.hpp:130 | for a monoid, folding a concatenation is op of the two folds |
| Algebra.ReduceConcat | sparsetable.hpp:28-30 | for an associative op, reducing a concatenation is op of the two reductions |
| Algebra.ReduceIsFold | segtree.hpp:116-131 | with an identity, the reduction of a non-empty sequence is its fold from the identity |
| Algebra.ReduceRev | treap.hpp:246-256 | an associative, commutative reduction does not depend on the order of the elements |
| Algebra.RevRev | treap.hpp:234-241 | reversing twice restores the sequence |
| Sorting.InsertBy | compress.hpp:107 | inserting into a sequence adds exactly one occurrence of the element |
| Sorting.InsertBySorted | compress.hpp:107 | inserting into a sorted sequence keeps it sorted |
| Sorting.SortBy | compress.hpp:107 | std::sort returns a permutation of its input, ordered by the comparison |
| Sorting.UniqueBy | compress.hpp:108-111 | std::unique then erase keeps the first element and only elements of the input |
| Sorting.UniqueSorted | compress.hpp:106-111 | std::unique on a sorted sequence of integers leaves a strictly increasing sequence with the same set of elements |
| Compress.InsertAll | compress.hpp:27-31 | insert(elements) ends with exactly the old keys plus the inserted elements as keys |
| Compress.LiveCompressor.constructor | compress.hpp:53-56 | a new live compressor has no elements and next id 0 |
| Compress.LiveCompressor.Insert | compress.hpp:21-25 | insert gives a new element the next id and advances it; an element already present changes nothing |
| Compress.LiveCompressor.InsertSeq | compress.hpp:27-31 | insert(elements) is insert of each element in turn |
| Compress.LiveCompressor.Compress | compress.hpp:33-35 | compress(val) of an inserted value is an id below size() that names val |
| Compress.LiveCompressor.CompressSeq | compress.hpp:37-47 | compress(vals) is compress of each value, in order |
| Compress.LiveCompressor.Size | compress.hpp:49-51 | size() is the number of distinct elements inserted, which is also the next id |
| Compress.CompressInjective | compress.hpp:21-35 | two inserted elements get the same id exactly when they are equal |
| Compress.InsertAllFirstSeen | compress.hpp:21-31 | inserting a sequence numbers its unseen elements in order of first appearance, after those already present |
| Compress.SeenIff | compress.hpp:21-25 | an element has an id exactly when it has been inserted |
| Compress.InsertAllFromEmpty | compress.hpp:21-31 | from empty, ids 0, 1, 2, ... go to the distinct elements in order of first appearance |
| Compress.DeferredCompressor.constructor | compress.hpp:82 | DeferredCompressor() collects nothing |
| Compress.DeferredCompressor.FromVectors | compress.hpp:83-93 | DeferredCompressor(init) collects the vectors of init one after another |
| Compress.DeferredCompressor.Insert | compress.hpp:95-97 | insert(element) appends the element |
| Compress.DeferredCompressor.InsertSeq | compress.hpp:99-103 | insert(elements) appends the elements in order |
| Compress.DeferredCompressor.Finalize | compress.hpp:105-113 | finalize() yields a compressor over exactly the collected values, strictly increasing, and leaves the collection as it was |
| Compress.LowerBound | compress.hpp:124-127 | lower_bound stops after the elements smaller than v and at the first element not smaller than v |
| Compress.LowerBoundSplits | compress.hpp:124-127 | in a strictly increasing store every element from the lower bound on is at least v |
| Compress.FinalizedCompressor.constructor | compress.hpp:147 | the private constructor keeps the data it is given |
| Compress.FinalizedCompressor.Compress | compress.hpp:123-128 | compress(val) by binary search returns the lower-bound position |
| Compress.FinalizedCompressor.CompressSeq | compress.hpp:130-140 | compress(vals) is the lower-bound position of each value, in order |
| Compress.FinalizedCompressor.Size | compress.hpp:142-144 | size() is the number of distinct values |
| Compress.LowerBoundFinds | compress.hpp:123-128 | a stored value compresses to its own index, so store[compress(v)] == v |
| Compress.LowerBoundMonotone | compress.hpp:123-128 | compression preserves order: non-decreasing on all values and strictly increasing on stored ones |
| LowestCommonAncestor.TopChild | lca.hpp:70-78 | below an ancestor a, the path down to x leaves a through one of a's children, which is itself an ancestor of x |
| LowestCommonAncestor.TourEnds | lca.hpp:65-78 | the pairs dfs(v) appends start and end with (level[v], v) |
| LowestCommonAncestor.AncestorDepth | lca.hpp:61-74 | an ancestor is no deeper than its descendant, and only the vertex itself is as deep |
| LowestCommonAncestor.DepthZero | lca.hpp:80 | only the root has level 0 |
| LowestCommonAncestor.AncestorRoot | lca.hpp:80 | the root is an ancestor of every vertex |
| LowestCommonAncestor.AncestorTrans | lca.hpp:70-74 | an ancestor of an ancestor is an ancestor |
| LowestCommonAncestor.ChildSlot | lca.hpp:74-77 | going through a child appends the child's tour followed by the parent's pair once more |
| LowestCommonAncestor.EnterSpan | lca.hpp:65-78 | the tour of a descendant fits inside the tour of its ancestor |
| LowestCommonAncestor.EnterAt | lca.hpp:65-78 | the tour of a descendant occurs as a contiguous block of its ancestor's tour |
| LowestCommonAncestor.TourMembers | lca.hpp:65-78 | every pair of a tour is (level[x], x) for a vertex x of the subtree |
| LowestCommonAncestor.Nesting | lca.hpp:65-78 | for an ancestor a of x: in[a] <= in[x] <= out[x] <= out[a], all inside data |
| LowestCommonAncestor.Ends | lca.hpp:65-77 | data[in[x]] and data[out[x]] both hold (level[x], x) |
| LowestCommonAncestor.Members | lca.hpp:65-78 | between in[x] and out[x], data holds only vertices of x's subtree |
| LowestCommonAncestor.ChildIn | lca.hpp:70-74 | the tour of child adj[w][i] starts right after the pairs the DFS at w has appended before reaching it |
| LowestCommonAncestor.SiblingOrder | lca.hpp:70-78 | the tours of two children of w appear in adjacency order, with w's own pair in between |
| LowestCommonAncestor.AfterChild | lca.hpp:76-77 | right after a child's tour the DFS appends its parent's pair |
| LowestCommonAncestor.RecordedStart | lca.hpp:65-68 | entering pos sets in[pos] = out[pos] = size(data) and level[pos] = depth, and appends one pair |
| LowestCommonAncestor.RecordedParent | lca.hpp:71-73 | the edge back to the parent is skipped: nothing is appended or recorded |
| LowestCommonAncestor.RecordedChild | lca.hpp:74-77 | the child's DFS followed by out[pos] = size(data) and the append records the child's subtree and moves out[pos] to the new last pair |
| LowestCommonAncestor.RecordedAll | lca.hpp:70-78 | after the last neighbour, every vertex of the subtree has its in, out and level recorded, and no other vertex has changed |
| LowestCommonAncestor.Dfs | lca.hpp:60-79 | dfs(pos, last, depth) appends exactly the Euler tour of pos's subtree and records in, out and level for that subtree alone |
| LowestCommonAncestor.DoneStep | lca.hpp:70-78 | going through adj[pos][i] adds exactly the vertices of that child's subtree, right after the pairs appended so far |
| LowestCommonAncestor.PairMin | lca.hpp:46-52 | Min returns one of its arguments and neither argument is below the result |
| LowestCommonAncestor.MinLaws | lca.hpp:46-54 | Min over pairs is associative and idempotent, as the sparse table's query needs |
| LowestCommonAncestor.ReduceAbove | lca.hpp:38 | a minimum over pairs none of which is below p is not below p |
| LowestCommonAncestor.ReduceHits | lca.hpp:38 | once p itself is met among pairs none of which is below it, the minimum is p |
| LowestCommonAncestor.LowestCommon | lca.hpp:24-26 | the reference lowest common ancestor, found by climbing from the deeper vertex, is a vertex |
| LowestCommonAncestor.LowestCommonIs | lca.hpp:24-26 | the reference LCA is a common ancestor of u and v, and every common ancestor is an ancestor of it |
| LowestCommonAncestor.LowestCommonSymmetric | lca.hpp:24-26 | the LCA does not depend on the order of u and v |
| LowestCommonAncestor.PathThroughLowest | lca.hpp:39 | the path length is level[u] + level[v] - 2 level[lca] |
| LowestCommonAncestor.AboveAt | lca.hpp:65-78 | every pair within the tour of w is at least (level[w], w) |
| LowestCommonAncestor.LcaSeen | lca.hpp:35-38 | the window in[u]..out[v] with in[u] <= out[v] contains the pair of the LCA |
| LowestCommonAncestor.LcaWindow | lca.hpp:35-38 | the minimum pair of data[in[u]..out[v]] is (level[lca], lca) |
| LowestCommonAncestor.QueryWindow | lca.hpp:35-39 | after the swap the window is non-empty, its minimum names the LCA, and the levels of its ends give the path length |
| LowestCommonAncestor.MinQuery | lca.hpp:38 | the sparse table's query under Min is the minimum of the window |
| LowestCommonAncestor.LCA.constructor | lca.hpp:15-22 | LCA(num_verts, adj, root) runs the DFS from root with parent -1 and depth 0 and builds the sparse table over the tour |
| LowestCommonAncestor.LCA.WindowBounds | lca.hpp:35-38 | the window in[a]..out[b] chosen by the swap lies inside the tour |
| LowestCommonAncestor.LCA.WindowAnswer | lca.hpp:38-39 | the window's minimum names the LCA, and level[a] + level[b] - 2 level[lca] is the path length |
| LowestCommonAncestor.LCA.GetLcaDistance | lca.hpp:32-40 | get_lca_distance(u, v) is the lowest common ancestor together with the number of edges between u and v |
| LowestCommonAncestor.LCA.GetLca | lca.hpp:24-26 | get_lca(u, v) is a common ancestor of u and v that every common ancestor is an ancestor of |
| LowestCommonAncestor.LCA.GetDistance | lca.hpp:28-30 | get_distance(u, v) is the path length, 0 when u == v |
| ModInts.Rem | modint.hpp:24-32 | C++'s `%` with a positive modulus: the mathematical residue for a non-negative dividend, its negation for a negative one, and strictly between -MOD and MOD |
| ModInts.Half | modint.hpp:67 | C++'s `exp / 2` truncates towards zero |
| ModInts.AddRep | modint.hpp:23-26 | `+=` leaves (a + b) mod MOD when the sum is non-negative |
| ModInts.MulRep | modint.hpp:27-30 | `*=` leaves (a * b) mod MOD when the product is non-negative; the product is formed in the wider type U, which the model does not bound |
| ModInts.SubRep | modint.hpp:31-34 | `-=` leaves (a - b) mod MOD for any operands, never negative |
| ModInts.ModUnique | modint.hpp:24-32 | the quotient and remainder of a division by MOD are unique |
| ModInts.MulModBoth | modint.hpp:28 | reducing both factors first does not change a product's residue |
| ModInts.AddMod | modint.hpp:24 | reducing both summands first does not change a sum's residue |
| ModInts.MulCong | modint.hpp:28 | products of congruent factors are congruent |
| ModInts.PowRepExp | modint.hpp:60-69 | pow(e) by halving is rep^e mod MOD for a non-negative rep and e > 0, and 1 for e == 0 |
| ModInts.PowOdd | modint.hpp:64-65 | the odd step rep * pow(e - 1) is rep^e mod MOD |
| ModInts.PowEven | modint.hpp:67-68 | the even step pow(e / 2)^2 is rep^e mod MOD |
| ModInts.PowRepNegative | modint.hpp:60-69 | a negative exponent never meets the odd branch (its C++ remainder is -1) and ends in 1 % MOD |
| ModInts.ModInt.Zero | modint.hpp:16 | ModInt() has rep 0 |
| ModInts.ModInt.constructor | modint.hpp:17 | ModInt(value) keeps the value as given, without reducing it |
| ModInts.ModInt.AddAssign | modint.hpp:23-26 | `+=` sets rep to the `+=` formula, and keeps rep in 0..MOD-1 when both operands are |
| ModInts.ModInt.MulAssign | modint.hpp:27-30 | `*=` sets rep to the `*=` formula, and keeps rep in 0..MOD-1 when both operands are |
| ModInts.ModInt.SubAssign | modint.hpp:31-34 | `-=` sets rep to (a - b) mod MOD, always in 0..MOD-1 |
| ModInts.ModInt.DivAssign | modint.hpp:35-37 | `/=` is `*=` by other.inv() |
| ModInts.ModInt.Plus | modint.hpp:39-43 | `+` returns a new value with the `+=` result and changes neither operand |
| ModInts.ModInt.Minus | modint.hpp:44-48 | `-` returns a new value with the `-=` result and changes neither operand |
| ModInts.ModInt.Times | modint.hpp:49-53 | `*` returns a new value with the `*=` result and changes neither operand |
| ModInts.ModInt.Over | modint.hpp:54-58 | `/` returns a new value with the `/=` result and changes neither operand |
| ModInts.ModInt.Pow | modint.hpp:60-69 | pow(exp) returns a new value with the pow result |
| ModInts.ModInt.Inv | modint.hpp:71-83 | inv() returns a new value with rep^(MOD-2) mod MOD |
| ModInts.ModInt.Compare | modint.hpp:85-88 | `<=>` orders by rep: negative, zero or positive exactly as rep is below, equal to or above the other's |
| Primes.Euclid | modint.hpp:71-83 | a prime that divides a product and not the first factor divides the second |
| Primes.BinomialTheorem | modint.hpp:71-83 | (x + 1)^n is the sum of C(n, i) x^i for i = 0..n |
| Primes.PrimeDividesBinom | modint.hpp:71-83 | the prime p divides C(p, k) for 0 < k < p |
| Primes.FermatPower | modint.hpp:71-83 | a^p and a leave the same residue modulo a prime p |
| Primes.Fermat | modint.hpp:71-83 | Fermat's little theorem: a^(p-1) leaves residue 1 modulo a prime p that does not divide a |
| Primes.InvIsInverse | modint.hpp:71-83 | for a prime MOD and a rep that MOD does not divide, x * x.inv() == 1 |
| Primes.InvRepPower | modint.hpp:71-83 | inv() of a non-negative rep is rep^(MOD-2) mod MOD |
| Primes.DivUndoesMul | modint.hpp:35-37 | for a prime MOD and a divisor that MOD does not divide, (a / b) * b == a mod MOD |
| Maths.ModPowExp | math.hpp:15-24 | mod_pow(b, e, m) is b^e mod m for b >= 0, e >= 0 and m >= 1 |
| Maths.ModPowOdd | math.hpp:19-20 | the odd step b * mod_pow(b, e - 1) is b^e mod m |
| Maths.ModPowEven | math.hpp:22-23 | the even step mod_pow(b, e / 2)^2 is b^e mod m |
| Maths.MillerRabin | math.hpp:29-41 | miller_rabin(n, a, d, s) is true exactly when a^d is neither 1 nor n - 1 and none of the next s squarings reaches n - 1 |
| Maths.SquaredExp | math.hpp:34-35 | k squarings of a^d mod n reach a^(d 2^k) mod n |
| Maths.DecomposeFactors | math.hpp:49-54 | the halving loop splits x - 1 into d 2^r with d odd |
| Maths.IsPrime | math.hpp:45-64 | is_prime is false below 2; otherwise it is the verdict of trying the twelve bases in order, where a base equal to x proves x prime and a witness proves it composite; every prime x gives true, and so does each of the twelve bases |
| Maths.SquareRootOfOne | math.hpp:34-38 | modulo a prime p, the only square roots of 1 are 1 and p - 1, which is why a squaring that reaches 1 without passing p - 1 exposes a composite |
| Maths.MinusOneBefore | math.hpp:34-38 | if the squarings of a value other than 1 reach 1 modulo a prime, one of the earlier squarings is p - 1 |
| Maths.NoWitness | math.hpp:29-41 | no base that a prime p does not divide is a Miller-Rabin witness against p |
| Maths.BasesPrime | math.hpp:27 | the twelve bases 2, 3, 5, ..., 37 are all prime |
| Maths.DistinctPrimes | math.hpp:55-58 | a prime base other than x is not divisible by the prime x, so it is a valid base for x |
| Maths.ScanPrime | math.hpp:55-63 | trying the bases from any position on never finds a witness against a prime x |
| Maths.PrimePasses | math.hpp:45-64 | a prime x passes every round, and each of the twelve bases is prime |
| Maths.Fact | math.hpp:116-119 | n! is at least 1 |
| Maths.FactRepFact | math.hpp:116-119 | fact[i] is i! mod MOD for i > 0, and never negative |
| Maths.InvRepRange | math.hpp:121 | inv() of a non-negative rep lies in 0..MOD-1 |
| Maths.InvFactTelescopes | math.hpp:121-124 | every inv_fact[i] * fact[i] has the residue of inv_fact[max_n] * fact[max_n] |
| Maths.FactCoprime | math.hpp:116-119 | a prime larger than n does not divide n! |
| Maths.LastInverse | math.hpp:121 | for a prime modulus larger than n, fact[n].inv() is the inverse of fact[n] |
| Maths.InvFactInverse | math.hpp:114-125 | for a prime modulus larger than max_n, inv_fact[i] * fact[i] == 1 for every i <= max_n |
| Maths.Combinatorics.constructor | math.hpp:114-125 | the constructor fills fact[0..max_n] by fact[i] = fact[i-1] * i and inv_fact from fact[max_n].inv() downwards |
| Maths.Combinatorics.Factorial | math.hpp:127-129 | factorial(n) is n! mod MOD for n > 0 |
| Maths.Combinatorics.Perm | math.hpp:131-136 | perm(n, k) is 0 when k > n, and otherwise the reduced product of the table entries fact[n] and inv_fact[n - k], which Maths.PermIsFalling shows to be the number of ordered choices mod MOD |
| Maths.Combinatorics.Comb | math.hpp:138-143 | comb(n, k) is 0 when k > n, and otherwise the reduced product of fact[n], inv_fact[n - k] and inv_fact[k], which Maths.CombIsBinom shows to be C(n, k) mod MOD |
| Maths.FallingFact | math.hpp:131-136 | n (n - 1) ... (n - k + 1) times (n - k)! is n!, so perm's fact[n] / fact[n - k] counts ordered choices |
| Maths.BinomFact | math.hpp:138-143 | C(n, k) k! (n - k)! is n!, so comb's fact[n] / (fact[k] fact[n - k]) is the binomial coefficient |
| Maths.FactRepCong | math.hpp:116-119 | every fact[i], fact[0] included, is non-negative and congruent to i! |
| Maths.PermIsFalling | math.hpp:131-136 | for a prime MOD above max_n and k <= n <= max_n, perm(n, k) is n (n - 1) ... (n - k + 1) mod MOD |
| Maths.CombIsBinom | math.hpp:138-143 | for a prime MOD above max_n and k <= n <= max_n, comb(n, k) is the binomial coefficient C(n, k) mod MOD |
| RollingHashes.MulPow | hash.hpp:25-32 | the tabulated power MulPow(n) is congruent to mul^n modulo MOD, and non-negative for a non-negative multiplier |
| RollingHashes.PrecomputeMulPows | hash.hpp:25-32 | precompute_mul_pows fills MaxLen + 1 entries, entry i being mul^i in the ModInt's arithmetic |
| RollingHashes.PowStep | hash.hpp:28-30 | each table entry is the previous one times mul |
| RollingHashes.PolyConcat | hash.hpp:48-53 | the polynomial of x + y is the polynomial of x shifted by |y| places plus the polynomial of y |
| RollingHashes.OfString | hash.hpp:42-46 | the hash of s has length |s| and one component per multiplier |
| RollingHashes.Add | hash.hpp:48-53 | `+=` adds the lengths and keeps one component per multiplier |
| RollingHashes.Sub | hash.hpp:55-63 | `-=` subtracts the lengths and keeps one component per multiplier |
| RollingHashes.Empty | hash.hpp:38 | RollingHash() has length 0 |
| RollingHashes.AddOfString | hash.hpp:48-53 | adding the hash of y to the hash of x gives the hash of x + y |
| RollingHashes.ComponentAdd | hash.hpp:50 | one component of `+=` computes the residue of the concatenation's polynomial |
| RollingHashes.SubOfString | hash.hpp:55-63 | subtracting the hash of x from the hash of x + y gives the hash of y |
| RollingHashes.ComponentSub | hash.hpp:60 | one component of `-=` computes the residue of the suffix's polynomial |
| RollingHashes.OfChar | hash.hpp:39-41 | RollingHash(c) has length 1 and one component per multiplier |
| RollingHashes.AddChar | hash.hpp:43-45 | appending one character's hash extends the hashed string by that character |
| RollingHashes.AddLeftIdentity | hash.hpp:38-53 | the empty hash is a left identity of `+` on reduced hashes |
| RollingHashes.AddRightIdentity | hash.hpp:38-53 | the empty hash is a right identity of `+` on reduced hashes |
| RollingHashes.AddAssoc | hash.hpp:48-53 | `+` is associative on reduced hashes |
| RollingHashes.AddThenSub | hash.hpp:48-63 | (a + b) - a == b: subtracting the prefix just appended restores the suffix |
| RollingHashes.SubThenAdd | hash.hpp:48-63 | a + (b - a) == b when a is no longer than b |
| RollingHashes.Lex | hash.hpp:81 | the lexicographic comparison of component arrays is 0 exactly for equal arrays, and otherwise -1 or 1 |
| RollingHashes.LexAntisymmetric | hash.hpp:81 | swapping the operands of the lexicographic comparison flips its sign |
| RollingHashes.RollingHash.constructor | hash.hpp:38 | RollingHash() is the hash of the empty string |
| RollingHashes.RollingHash.FromChar | hash.hpp:39-41 | RollingHash(c) has length 1 and the character in every component |
| RollingHashes.RollingHash.FromString | hash.hpp:42-46 | RollingHash(s), built by `+=` of each character, is the hash of s |
| RollingHashes.RollingHash.Copy | hash.hpp:65-75 | the copy holds the same multipliers, modulus, length and components |
| RollingHashes.RollingHash.AddAssign | hash.hpp:48-53 | `+=` appends the other hash, even when the other is this object |
| RollingHashes.RollingHash.SubAssign | hash.hpp:55-63 | `-=` strips a prefix of length other.len whose hash is other |
| RollingHashes.RollingHash.Plus | hash.hpp:65-69 | `+` returns the sum in a new object and changes neither operand |
| RollingHashes.RollingHash.Minus | hash.hpp:71-75 | `-` returns the difference in a new object and changes neither operand |
| RollingHashes.RollingHash.Equals | hash.hpp:84-86 | `==` holds exactly when lengths and components agree |
| RollingHashes.RollingHash.Compare | hash.hpp:77-82 | `<=>` orders by length first, then lexicographically by components, and is 0 exactly for equal hashes |
| RollingHashes.CompareAntisymmetric | hash.hpp:77-82 | swapping the operands of `<=>` flips its sign |
| Functional.Mapped | func.hpp:124-134 | the result has one entry per input element, entry i being func applied to element i |
| Functional.Filtered | func.hpp:136-147 | the result is no longer than the input and holds exactly the input elements that satisfy the predicate |
| Functional.MapPipe | func.hpp:124-134 | the loop that pushes func(x) for each x builds the mapped sequence |
| Functional.FilterPipe | func.hpp:136-147 | the loop that keeps the elements passing func builds the filtered sequence, in input order |
| Functional.PartitionPipe | func.hpp:149-161 | the first part is the elements passing func and the second those failing it, each in input order, and together they are a permutation of the input |
| Functional.GroupByPipe | func.hpp:163-181 | the map has a key exactly for each key value some element has, and the bucket of a key holds the elements with that key in input order |
| Functional.FoldPipe | func.hpp:183-190 | the accumulator loop computes the left fold from init |
| Functional.RunningFoldPipe | func.hpp:192-204 | the result has one more entry than the input; entry i is the fold of the first i elements, from init to the fold of the whole input |
| Functional.ReducePipe | func.hpp:206-213 | for a non-empty input, the result is the reduction of the whole vector, which is the left fold of the tail from vec[0] |
| Functional.RunningReducePipe | func.hpp:215-227 | for a non-empty input, entry i is the reduction of the first i + 1 elements, from vec[0] to the reduction of the whole vector |
| Functional.SortedPipe | func.hpp:229-236 | as written: the result is an ascending permutation of the input, whatever comparator the stage carries |
| Functional.SortedDescAscends | func.hpp:229-236 | to_sorted_desc as written leaves [1, 2] as [1, 2], which is not in descending order |
| Functional.SortedWithPipe | func.hpp:229-236 | as intended: for a total preorder le, the result is a permutation of the input sorted by le, so to_sorted_desc is descending |
| Functional.Reversed | func.hpp:261-264 | the result has the input's length and entry i is the input's entry counted from the back |
| Functional.ReversedReversed | func.hpp:261-264 | to_reversed twice gives the input back |
| Functional.ToUnique | func.hpp:265-269 | the result is strictly increasing and holds exactly the values of the input |
| Functional.IntRange | func.hpp:274-279 | for lo <= hi, the result is lo, lo + 1, ..., hi: hi - lo + 1 entries, entry i being lo + i |
| Functional.IndexRangeOf | func.hpp:281-292 | the result holds 0 .. size - 1, one index per element, and is empty for an empty input |
| Functional.WithIndex | func.hpp:294-299 | entry i pairs i with element i, and unzipping it gives the input back as the second column |
| Functional.PipeVec | func.hpp:301-315 | pipe_vec applies the same-type stages (map T->T, filter, transform) one after the other, the first stage to the input |
| Functional.FilteredConcat | func.hpp:136-147 | filtering a concatenation concatenates the filtered parts |
| Functional.FilteredNone | func.hpp:136-147 | filtering with a predicate no element satisfies gives the empty vector |
| Functional.FilteredAll | func.hpp:136-147 | filtering with a predicate every element satisfies gives the input back |
| Functional.FilteredIdempotent | func.hpp:136-147 | filtering twice by the same predicate is filtering once |
| Functional.PartitionPermutes | func.hpp:149-161 | the two parts of partition_by together have the multiset of the input |
| Functional.FilteredSnoc | func.hpp:136-147 | pushing x onto the input pushes x onto the filtered result exactly when x passes |
| Functional.FilteredCounts | func.hpp:149-161 | the sizes of the two parts of a partition add up to the input's size |
| Functional.GroupedByKey | func.hpp:163-181 | every element lands in the bucket of its own key, and that bucket holds nothing with another key |
| Functional.FoldLConcat | func.hpp:183-190 | folding a concatenation folds the second part from the fold of the first |
| Functional.ReduceIsFoldL | func.hpp:206-213 | reducing a non-empty vector is folding its tail from its first element |
| Functional.MappedConcat | func.hpp:124-134 | mapping distributes over concatenation |
| Functional.MappedMapped | func.hpp:124-134 | mapping by f and then by g is mapping by their composition |
| Functional.PipeConcat | func.hpp:301-305 | piping through stages a then b is piping the result of a through b |
| Fluent.Indices | fluent.hpp:164-172 | the result holds exactly the positions whose element satisfies p, in ascending order, each a valid position |
| Fluent.Indexed | fluent.hpp:370-376 | one row per element, row i being (element i, i) |
| Fluent.FluentCollection.constructor | fluent.hpp:78-81 | a new collection reads its source: it stores it and has no pending steps |
| Fluent.FluentCollection.Pending | fluent.hpp:410-415 | the private constructor shares the given store and keeps the given steps |
| Fluent.FluentCollection.GetVector | fluent.hpp:91-101 | the loop over the store keeps, in store order, the value of every element that no step drops |
| Fluent.FluentCollection.Get | fluent.hpp:83-89 | get reads the same as get_vector, and is the store itself when no step is pending |
| Fluent.FluentCollection.GetFirst | fluent.hpp:103-105 | for a collection that reads at least one element, the first element read |
| Fluent.FluentCollection.Map | fluent.hpp:132-138 | for a func from the element type to itself, map shares the store and appends one step, and the new collection reads func of every element this one reads |
| Fluent.FluentCollection.Filter | fluent.hpp:153-162 | filter shares the store and appends one filter-kind step, and the new collection reads exactly the elements read here that satisfy func, in order |
| Fluent.FluentCollection.Flush | fluent.hpp:148-151 | flush stores what this collection reads, with no pending steps |
| Fluent.FluentCollection.Transform | fluent.hpp:273-278 | transform stores func of what this collection reads |
| Fluent.FluentCollection.Partition | fluent.hpp:174-186 | two vectors: the elements read that satisfy func and the others, each in order, together a permutation of what is read |
| Fluent.FluentCollection.Group | fluent.hpp:188-204 | a bucket exactly for each key some element read has, holding the elements with that key in order |
| Fluent.FluentCollection.GroupRanged | fluent.hpp:206-216 | when every key lies in [0, range), range buckets, bucket k holding the elements with key k in order |
| Fluent.FluentCollection.Reduce | fluent.hpp:218-229 | for a collection that reads an element, the left fold of what is read from its first element |
| Fluent.FluentCollection.RunningReduce | fluent.hpp:231-246 | for a collection that reads an element, one entry per element, entry i being the reduction of the first i + 1 elements read |
| Fluent.FluentCollection.Fold | fluent.hpp:248-256 | the left fold of what is read from init |
| Fluent.FluentCollection.RunningFold | fluent.hpp:258-271 | one more entry than elements read; entry i is the fold of the first i elements, the last the fold of all |
| Fluent.FluentCollection.SortedWith | fluent.hpp:280-285 | for a total preorder, a permutation of what is read, sorted by it |
| Fluent.FluentCollection.Reversed | fluent.hpp:363-368 | what is read, back to front |
| Fluent.FluentCollection.WithIndex | fluent.hpp:370-376 | the rows (element i, i) of what is read |
| Fluent.FluentCollection.IndexOf | fluent.hpp:164-172 | the ascending positions of the elements read that satisfy func |
| Fluent.FluentCollection.Count | fluent.hpp:378-386 | the number of elements read that satisfy func |
| Fluent.FluentCollection.SortedByKey | fluent.hpp:299-318 | a permutation of what is read, ordered by key, in which elements with equal keys keep their order of reading (std::sort of the (key, index) pairs) |
| Fluent.FluentCollection.DistinctBy | fluent.hpp:331-361 | one element per key that occurs, ordered by strictly increasing key, each the first element read with its key |
| Fluent.Sorted | fluent.hpp:287-291 | an ascending permutation of what is read |
| Fluent.SortedDesc | fluent.hpp:293-297 | a descending permutation of what is read |
| Fluent.Distinct | fluent.hpp:320-329 | strictly increasing and holding exactly the values read |
| Fluent.Max | fluent.hpp:388-393 | for a collection that reads an element, a value read that no value read exceeds |
| Fluent.Min | fluent.hpp:395-400 | for a collection that reads an element, a value read that exceeds no value read |
| Fluent.GetUnzip | fluent.hpp:126-130 | two columns as long as what is read, row i read being the pair of their entries i |
| Fluent.Sum | fluent.hpp:402-407 | for a collection that reads an element, the sum of what is read |
| Fluent.ReducePlus | fluent.hpp:402-407 | reducing a non-empty vector with std::plus gives its sum |
| Fluent.FluentRange | fluent.hpp:434-439 | for lo <= hi, a collection over lo, lo + 1, ..., hi |
| Fluent.FluentIota | fluent.hpp:441-444 | for hi > 0, a collection over 0, 1, ..., hi - 1 |
| Fluent.FluentIndex | fluent.hpp:446-448 | for a non-empty collection, its indices 0 .. size - 1 |
| Fluent.EvaluatedNoSteps | fluent.hpp:44-61 | with no pending steps, reading gives the store back |
| Fluent.HelperMap | fluent.hpp:44-61 | a map step at the end of the steps maps the value the earlier steps leave, and keeps a dropped element dropped |
| Fluent.HelperFilter | fluent.hpp:44-61 | a filter-kind step at the end drops the value when it returns nothing and otherwise passes on the value it was given |
| Fluent.EvaluatedMap | fluent.hpp:132-138 | recording map(f) makes the collection read f of everything it read before |
| Fluent.EvaluatedFilter | fluent.hpp:153-162 | recording filter(p) makes the collection read exactly what it read before that satisfies p |
| Fluent.IndicesOfRows | fluent.hpp:164-172 | filtering the rows of with_index on their value and mapping them to their index gives the ascending positions satisfying p |
| Fluent.LexTotal | fluent.hpp:311 | the pair order std::sort uses, by key and then by index, is a total preorder |
| Fluent.Keyed | fluent.hpp:306-310 | one pair per element, pair i being (key of element i, i) |
| Fluent.KeyPairs | fluent.hpp:306-310 | the emplace_back loop builds the pairs (key(vec[i]), i) |
| Fluent.FromKeyed | fluent.hpp:311-315 | any rearrangement of the pairs holds pairs naming a valid position and that position's key |
| Fluent.KeyedOnce | fluent.hpp:306-310 | no pair occurs twice among the pairs built from a vector |
| Fluent.OrderInjective | fluent.hpp:311-315 | a rearrangement of the pairs names each position at most once, so sorted_by reads every element once |
| Fluent.MultisetMapped | fluent.hpp:311-315 | mapping two rearrangements of each other gives rearrangements of each other |
| Fluent.UniqueByKey | fluent.hpp:343-353 | std::unique by key on pairs sorted by (key, index) leaves keys strictly increasing and, for every pair, a kept pair with its key and an index no larger |
| Fluent.UniqueFromKeys | fluent.hpp:343-353 | the scan of std::unique keeps the kept keys strictly increasing |
| Fluent.UniqueFromCovers | fluent.hpp:343-353 | the scan of std::unique keeps, for each pair it passes, one with the same key and an index no larger |
| Fluent.ChosenValid | fluent.hpp:355-358 | the pairs distinct_by keeps name valid positions with their own keys |
| Fluent.ChosenCover | fluent.hpp:343-358 | every position has its key's pair kept, with an index no larger |
| Fluent.ChosenPairs | fluent.hpp:343-358 | std::unique on the sorted pairs keeps, per key, the pair of its first position |
| Fluent.ChosenElements | fluent.hpp:355-358 | the elements at the kept pairs' positions have strictly increasing keys, each is the first with its key, and every key occurs among them |
| Fluent.SortByKey | fluent.hpp:305-317 | the lambda of sorted_by returns a permutation ordered by key in which equal keys keep their input order |
| Fluent.DistinctByKey | fluent.hpp:337-360 | the lambda of distinct_by returns, per key that occurs, its first element, ordered by strictly increasing key |
| Zip.ZipTuple | zip.hpp:45-60 | when the second column is at least as long as the first, one row per entry of the first column, row i pairing the columns' entries i |
| Zip.Zip | zip.hpp:62-64 | zip of the columns is the tuple form applied to them: the rows (a[i], b[i]) |
| Zip.Unzip | zip.hpp:34-43 | two columns as long as the input, entry i of column k being component k of row i |
| Zip.UnzipZip | zip.hpp:34-64 | unzipping zipped columns gives the first column back and the second cut to its length |
| Zip.ZipUnzip | zip.hpp:34-64 | zipping unzipped rows gives the rows back |
| Strings.RunEnd | strings.hpp:14-22 | the length of the leading run without the delimiter: no delimiter before it, and a delimiter at it unless the string ends there |
| Strings.Remove | strings.hpp:11-28 | removing the delimiters never lengthens the string |
| Strings.Split | strings.hpp:11-28 | the buffer loop of split returns exactly the maximal runs of non-delimiter characters, left to right |
| Strings.Step | strings.hpp:15-22 | one character of the scan: a delimiter emits the pending run when it is non-empty, any other character extends it |
| Strings.FlushAtDelim | strings.hpp:15-19 | a non-empty pending run ends at the next delimiter as a token |
| Strings.FlushAtEnd | strings.hpp:24-26 | a non-empty run left at the end is the last token |
| Strings.TokensNonEmpty | strings.hpp:16-26 | split never returns an empty token |
| Strings.TokensNoDelim | strings.hpp:15-21 | no token contains the delimiter |
| Strings.RemoveConcat | strings.hpp:11-28 | removing delimiters distributes over concatenation |
| Strings.RemoveNone | strings.hpp:11-28 | a string without delimiters is left as it is by removing them |
| Strings.TokensConcat | strings.hpp:11-28 | the tokens of split, concatenated, are the string with its delimiters removed: nothing else is lost or added |
| Strings.PaddedRun | strings.hpp:11-28 | a run without delimiters, with a delimiter on each side, splits into itself, or into nothing when it is empty |
| Allocator.StaticAllocator.constructor | allocator.hpp:30-36 | every one of the Len slots starts on the free list, in order, none live, and the pool is valid |
| Allocator.StaticAllocator.Alloc | allocator.hpp:38-46 | with a non-empty free list: the last free slot is popped, overwritten with the new node and returned; no other slot changes; it was not live and now is, and the pool stays valid |
| Allocator.StaticAllocator.Dealloc | allocator.hpp:48-50 | the slot is pushed on the free list, live or not; giving back a live slot keeps the pool valid |
| Allocator.StaticAllocator.Reuse | allocator.hpp:38-50 | the free list is last in, first out: alloc right after dealloc(p) returns p |
| Allocator.FreeCount | allocator.hpp:30-55 | in a valid pool the free slots and the live slots together are the Len slots of the buffer |
| Graph.ToAdjList | graph.hpp:10-23 | for edges between vertices below num_verts: num_verts lists, list x holding, in edge order, v for each edge (x, v) and, when undirected, u for each edge (u, x) |
| Graph.NeighbourIff | graph.hpp:10-23 | w is in the list of x exactly when some edge leads from x to w or, undirected, from w to x |
| Graph.TotalDegreeSnoc | graph.hpp:16-21 | one more edge adds one entry, and a second one when the graph is undirected |
| Graph.TotalDegreeEdges | graph.hpp:10-23 | the lists hold |E| entries in all for a directed graph and 2|E| for an undirected one |
| Graph.TotalDegreeEmpty | graph.hpp:15 | with no edges every list is empty |
| Graph.Unweighted | graph.hpp:26-28 | one (u, v) pair per weighted edge, in order |
| Graph.Targets | graph.hpp:31-36 | the vertex of every (neighbour, weight) entry, in order |
| Graph.ToAdjListWeighted | graph.hpp:25-39 | for edges between vertices below num_verts: num_verts lists, list x holding, in edge order, (v, w) for each edge (x, v, w) and, when undirected, (u, w) for each edge (u, x, w) |
| Graph.WeightedTargets | graph.hpp:10-39 | the weighted lists, with the weights dropped, are the unweighted lists of the same edges |

## Left out

- I/O and debugging: io.hpp, ostream.hpp, debug.hpp and the stream operators of `ModInt` are not part of this model. A `debug_assert` becomes a `requires` clause.
- random.hpp is not part of this model. Treap priorities and hash multipliers are parameters.
- unordered.hpp is not part of this model. `group` returns a `map`, and hash-map iteration order is not modelled.
- `PollardRho` and `factorize` (math.hpp:66-110) are left out. They depend on random starting points and on `i128` products.
- Maths.IsPrime: proved: every prime x, the twelve bases among them, gives true. Not proved: that every composite below 2^64 meets a witness among the twelve bases. That is a computational fact about these particular bases, established by exhaustive search, and beyond this model.
- `mod_pow` and `miller_rabin` compute on `u128`/`i64`; the model uses unbounded integers, so overflow is not modelled.
- `ENABLE_MODINT_INV_CACHE` (modint.hpp:72-83, 116-125) is left out. Only the uncached `inv()` is modelled.
- The destructor and `operator=` of `ImplicitTreap` (treap.hpp:72-93) are left out. Nodes are values of a datatype and are not freed.
- Treap.ImplicitTreap.Join: the model appends a copy of the other treap's sequence. The sharing of nodes between the two treaps after `join` is not modelled.
- Treap.ImplicitTreap.Query: the result is the reduction of the range only for an associative and commutative op. `cum_val` puts a node's own value before its left child's aggregate (treap.hpp:246-256), so for other ops the source returns a different value (see Treap.CumValIsValFirst).
- Treap.ImplicitTreap.Reverse: requires the reversible treap. The invariant that `cum_val` is the reduction of the subtree is kept only under an associative and commutative op, because `propagate` swaps children without recomputing `cum_val`.
- The `is_node_allocator` concept (allocator.hpp:11-17) is a compile-time constraint on signatures and has no member of its own. The model keeps its shape: Allocator.StaticAllocator.Alloc returns a slot index, which stands for the `Node*` the concept demands, and Allocator.StaticAllocator.Dealloc returns nothing.
- The node allocator behind the treap is modelled on its own (Allocator). The treap itself uses datatype values; the `DynamicAllocator` pair of `new`/`delete` is not modelled.
- SegTree.SegTree.Sized: requires op(nil, nil) == nil, so that the empty tree's slots all hold the identity.
- LazySegTree.LazySegTree.FromSeq: requires the monoid and action laws of the operators (associativity, identities, distribution over ranges). The source states these only in its documentation. LazySegTree.LazySegTree.Sized and LazySegTree.LazySegTree.StaticFromSeq require the same laws.
- LazySegTree.LazySegTree.Sized: requires the same operator laws as LazySegTree.LazySegTree.FromSeq.
- LazySegTree.LazySegTree.StaticFromSeq: requires the same operator laws as LazySegTree.LazySegTree.FromSeq.
- SegTree.SegTree.FromSeq: requires a non-empty source. `build` on an empty source reads `source[0]` (segtree.hpp:75-86).
- LazySegTree.LazySegTree.StaticFromSeq: requires a non-empty source, for the same reason (lazysegtree.hpp:274-283).
- LazySegTree.LazySegTree.FromSeq: requires a non-empty source. `build` on an empty source reads `source[0]` (lazysegtree.hpp:115-124), which is undefined behaviour rather than a checked error.
- SegTree.SegTree.StaticFromSeq: requires 0 < Size <= |source|. `build` reads `source[0]` through `source[Size - 1]` (segtree.hpp:175-186) without a check, so a shorter source is undefined behaviour.
- Functional.ReducePipe: requires a non-empty vector. The source reads `vec[0]` unchecked (func.hpp:208), which is undefined behaviour on an empty vector.
- Functional.RunningReducePipe: requires a non-empty vector. The source pushes `vec[0]` unchecked (func.hpp:222), which is undefined behaviour on an empty vector.
- Fluent.FluentCollection.Reduce: requires a collection that reads an element. The source reads `got[0]` unchecked (fluent.hpp:224), which is undefined behaviour when nothing is read.
- Fluent.FluentCollection.RunningReduce: requires a collection that reads an element. The source pushes `got[0]` unchecked (fluent.hpp:241), which is undefined behaviour when nothing is read.
- Fluent.FluentCollection.GetFirst: requires a collection that reads an element. The source dereferences `begin()` of what is read (fluent.hpp:104), which is undefined behaviour when nothing is read.
- Fluent.Max: requires a collection that reads an element. On an empty range `max_element` returns the end iterator, and dereferencing it (fluent.hpp:392) is undefined behaviour.
- Fluent.Min: requires a collection that reads an element, for the same reason as Fluent.Max (fluent.hpp:399).
- Fluent.Sum: requires a collection that reads an element, because it calls `reduce` (fluent.hpp:406).
- Fluent.FluentCollection.Map: func keeps the element type (T -> T), because pending steps hold one element type. The source's `map` accepts any callable and carries the new type on to later steps (fluent.hpp:44-61). A map to another type is covered, eagerly, by Fluent.FluentCollection.Transform.
- SparseTables.SparseTable.constructor: requires a non-empty source. With no elements `bit_width(0)` gives no rows, and the copy into `store[0]` (sparsetable.hpp:25) writes past them.
- LowestCommonAncestor.LCA.constructor: the tree is given by its adjacency lists and root, as in the source, together with a ghost parent and depth per vertex that witness it is a tree. A graph that is not a tree is not modelled.
- Fluent.FluentCollection.IndexOf: the source leaves the filter and the final map pending on the rows of `with_index`. The model applies them at once, because its pending steps keep one element type.
- Fluent.FluentCollection.Filter: pending predicates are held by value. The source's `filter` stores a lambda that captures `filter_func` by reference (fluent.hpp:155-161), so a collection that outlives the predicate it was filtered with evaluates a dangling reference, which is undefined behaviour. `index_of` (fluent.hpp:166-172) returns such a collection: the predicate lambda it filters with is a temporary of its own `return` statement. The model gives these collections the contents the evident intent describes.
- Fluent.Sorted: works on `FluentCollection<int>` only, under the usual order of `int`. The source's `sorted` takes any element type with `operator<`; Fluent.FluentCollection.SortedWith covers other element types with a comparator.
- Fluent.SortedDesc: works on `FluentCollection<int>` only, for the same reason as Fluent.Sorted.
- Fluent.Distinct: works on `FluentCollection<int>` only. The source sorts and de-duplicates any element type with `operator<` and `operator==`.
- Fluent.Max: works on `FluentCollection<int>` only. The source takes the largest element of any type with `operator<`.
- Fluent.Min: works on `FluentCollection<int>` only, as Fluent.Max.
- Fluent.FluentCollection.SortedByKey: keys are `int`. The source accepts any key type with `operator<`.
- Fluent.FluentCollection.DistinctBy: keys are `int`. The source accepts any key type with `operator<` and `operator==`.
- `get_array` (fluent.hpp:107-117), `get_string` and `for_each` of `FluentCollection` are left out. `get_string` reads the same characters as `get`, and `for_each` only runs a callback.
- Functional.PipeVec: only stages that keep the element type can be piped: a map T->T, a filter and a whole-vector transform. The fold, reduce, partition and group_by stages of func.hpp, and a map to another element type, change the type between stages; a sequence of such stages has no single Dafny type, so these stages are modelled one by one (Functional.FoldPipe, Functional.ReducePipe, Functional.PartitionPipe, Functional.GroupByPipe, Functional.MapPipe) and not inside a pipe.
- Functional.SortedPipe: elements are `int`. The source sorts any element type with `operator<`.
- Functional.SortedWithPipe: elements are `int`, with any comparator that is a total preorder. The source takes any element type.
- Functional.ToUnique: elements are `int`. The source takes any element type with `operator<` and `operator==`.
- Zip.ZipTuple: rows have two components. The source's `zip` is variadic (zip.hpp:34-64) and zips any number of columns; each further column is handled the same way, entry i of it going to row i.
- Zip.Zip: two columns only, as Zip.ZipTuple.
- Zip.Unzip: rows of two components only, for the same reason.
- Compress.DeferredCompressor.constructor: the values are `int`. The source's `DeferredCompressor<T>` and the `FinalizedCompressor<T>` it builds work for any T with `operator<`; Compress.LiveCompressor is generic.
- Compress.DeferredCompressor.Finalize: values are `int`, as Compress.DeferredCompressor.constructor.
- Compress.FinalizedCompressor.Compress: values are `int`, as Compress.DeferredCompressor.constructor.
- Functional.WithIndex: models `with_index_i32` (func.hpp:297-299). The generic `with_index` (func.hpp:294-296) calls `index_range_of(vec)` without its template parameter `R`, which cannot be deduced from the argument, so it cannot be instantiated. The model gives the pairing that both evidently intend.
- The `std::array` and `string` overloads of `pipe_vec` (func.hpp:307-315) convert to a vector first. They are covered by Functional.PipeVec on the converted sequence.
- Graph.ToAdjListWeighted: models the lists of (neighbour, weight) pairs that the body of the weighted `to_adj_list` builds. Its declared result type (lists of `i32`, graph.hpp:26) does not match these lists.
- RollingHashes: characters are their non-negative codes. A negative `char` is not modelled.
- The hash macros (hash.hpp:100-155) are left out. They pick random multipliers and instantiate `RollingHash` with one to four components; the model takes the multipliers as arguments.
- Maths.Combinatorics.Factorial: stated for n > 0. fact[0] = 1 is not reduced modulo MOD.

## Findings

| source | as written | input that shows it | evidently intended | confidence | as-written member | corrected member |
|---|---|---|---|---|---|---|
| treap.hpp:167-169 | `erase(pos)` calls `erase(pos, pos + 1)`, and `erase(l, r)` removes l..r inclusive, so two elements are removed | [10, 20, 30] with erase(0) leaves [30] (Treap.EraseAtScenario) | remove only element pos, leaving [20, 30] | not executed | Treap.ImplicitTreap.EraseAtAsWritten | Treap.ImplicitTreap.EraseAt |
| func.hpp:229-236, 256 | the `Sorted` stage calls `std::sort` without its comparator, so `to_sorted_desc` sorts ascending | [1, 2] piped through `to_sorted_desc` stays [1, 2] (Functional.SortedDescAscends) | sort by the comparator, giving [2, 1] | not executed | Functional.SortedPipe | Functional.SortedWithPipe |
