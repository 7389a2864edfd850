/** The Huffman tree and its construction by repeated merging of the two lightest trees. */
module HuffmanTree {
  import opened Alphabet
  import opened Frequency

  /** A HuffmanNode: a leaf holds one byte and its count, an internal node owns two
      subtrees. `w` is the node's `freq`. */
  datatype Tree = Leaf(sym: Byte, w: nat) | Node(left: Tree, right: Tree, w: nat)

  /** Every internal node weighs the sum of its children. */
  predicate WellWeighted(t: Tree) {
    match t
    case Leaf(_, _) => true
    case Node(l, r, w) => w == l.w + r.w && WellWeighted(l) && WellWeighted(r)
  }

  /** The (byte, weight) pairs at the leaves, left to right. */
  function Leaves(t: Tree): seq<(Byte, nat)> {
    match t
    case Leaf(s, w) => [(s, w)]
    case Node(l, r, _) => Leaves(l) + Leaves(r)
  }

  /** The bytes held by the leaves. */
  function LeafSymbols(t: Tree): set<Byte> {
    match t
    case Leaf(s, _) => {s}
    case Node(l, r, _) => LeafSymbols(l) + LeafSymbols(r)
  }

  /** The leaves a frequency table calls for: one (byte, count) pair per entry. */
  function Pairs(freq: FreqTable): multiset<(Byte, nat)> {
    multiset(set s | s in freq :: (s, freq[s]))
  }

  /** What buildHuffmanTree delivers for `freq`: internal weights are sums, the leaves
      are exactly the table's entries, and the root weighs the sum of all counts. */
  ghost predicate BuiltFrom(t: Tree, freq: FreqTable) {
    WellWeighted(t) && multiset(Leaves(t)) == Pairs(freq) && t.w == Total(freq)
  }

  // ----- the priority queue, as a sequence of trees -----

  /** All leaves of all trees in the queue. */
  function HeapLeaves(heap: seq<Tree>): multiset<(Byte, nat)> {
    if heap == [] then multiset{} else multiset(Leaves(heap[0])) + HeapLeaves(heap[1..])
  }

  /** The summed weight of the trees in the queue. */
  function HeapWeight(heap: seq<Tree>): nat {
    if heap == [] then 0 else heap[0].w + HeapWeight(heap[1..])
  }

  /** `heap[i]` is a tree of least weight: what `top()` returns under NodeComparator,
      which orders the queue so that the smallest `freq` comes first. Among equal
      weights any one may be chosen. */
  predicate IsMinIndex(heap: seq<Tree>, i: int) {
    0 <= i < |heap| && forall j | 0 <= j < |heap| :: heap[i].w <= heap[j].w
  }

  /** The queue after `pop()` removed its element at `i`. */
  function RemoveAt(heap: seq<Tree>, i: nat): seq<Tree>
    requires i < |heap|
  {
    heap[..i] + heap[i + 1..]
  }

  /** A non-empty queue has a least element. */
  lemma {:induction false} MinIndexExists(heap: seq<Tree>) returns (i: nat)
    requires |heap| > 0
    ensures IsMinIndex(heap, i)
    decreases |heap|
  {
    if |heap| == 1 {
      i := 0;
    } else {
      var k := MinIndexExists(heap[1..]);
      i := if heap[0].w <= heap[k + 1].w then 0 else k + 1;
    }
  }

  lemma {:induction false} HeapConcat(a: seq<Tree>, b: seq<Tree>)
    ensures HeapLeaves(a + b) == HeapLeaves(a) + HeapLeaves(b)
    ensures HeapWeight(a + b) == HeapWeight(a) + HeapWeight(b)
    decreases |a|
  {
    if a == [] {
      assert a + b == b;
    } else {
      assert (a + b)[1..] == a[1..] + b;
      HeapConcat(a[1..], b);
    }
  }

  /** Removing one tree takes exactly its leaves and its weight out of the queue. */
  lemma RemoveAtSplit(heap: seq<Tree>, i: nat)
    requires i < |heap|
    ensures HeapLeaves(heap) == HeapLeaves(RemoveAt(heap, i)) + multiset(Leaves(heap[i]))
    ensures HeapWeight(heap) == HeapWeight(RemoveAt(heap, i)) + heap[i].w
    ensures |RemoveAt(heap, i)| == |heap| - 1
    ensures forall t | t in RemoveAt(heap, i) :: t in heap
  {
    assert heap == heap[..i] + ([heap[i]] + heap[i + 1..]);
    HeapConcat(heap[..i], [heap[i]] + heap[i + 1..]);
    HeapConcat([heap[i]], heap[i + 1..]);
    HeapConcat(heap[..i], heap[i + 1..]);
    assert [heap[i]][1..] == [];
  }

  /** Taking an entry out of a table takes its pair out of the leaves it calls for. */
  lemma PairsRemove(m: FreqTable, k: Byte)
    requires k in m
    ensures Pairs(m) == Pairs(m - {k}) + multiset{(k, m[k])}
  {
    var all := set s | s in m :: (s, m[s]);
    var rest := set s | s in m - {k} :: (s, (m - {k})[s]);
    forall p
      ensures p in all <==> p in rest || p == (k, m[k])
    {
      if p in all {
        var s :| s in m && p == (s, m[s]);
        if s != k {
          assert s in m - {k} && (m - {k})[s] == m[s];
          assert p in rest;
        }
      }
      if p in rest {
        var s :| s in m - {k} && p == (s, (m - {k})[s]);
        assert p in all;
      }
    }
    assert (k, m[k]) !in rest;
    forall p
      ensures multiset(all)[p] == (multiset(rest) + multiset{(k, m[k])})[p]
    {
    }
  }

  lemma EmptyTable(m: FreqTable)
    requires m == map[]
    ensures Pairs(m) == multiset{} && Total(m) == 0
  {
    var none := set s | s in m :: (s, m[s]);
    assert none == {};
  }

  /** Pushing the leaf of one more table entry keeps the queue's leaves and weight. */
  lemma PushLeafKeeps(heap: seq<Tree>, rest: FreqTable, k: Byte)
    requires k in rest
    ensures HeapLeaves(heap + [Leaf(k, rest[k])]) + Pairs(rest - {k}) == HeapLeaves(heap) + Pairs(rest)
    ensures HeapWeight(heap + [Leaf(k, rest[k])]) + Total(rest - {k}) == HeapWeight(heap) + Total(rest)
  {
    var leaf := Leaf(k, rest[k]);
    PairsRemove(rest, k);
    TotalRemove(rest, k);
    HeapConcat(heap, [leaf]);
    assert HeapLeaves([leaf]) == multiset(Leaves(leaf));
  }

  /** One round of the merge loop: pop at `i`, pop at `j`, push the merged node. The
      queue shrinks by one and keeps its leaves, its weight and its well-weighted trees. */
  lemma MergeKeeps(heap: seq<Tree>, i: nat, once: seq<Tree>, j: nat, merged: seq<Tree>)
    requires i < |heap| && once == RemoveAt(heap, i) && j < |once|
    requires merged == RemoveAt(once, j) + [Node(heap[i], once[j], heap[i].w + once[j].w)]
    requires forall t | t in heap :: WellWeighted(t)
    ensures |merged| == |heap| - 1
    ensures HeapLeaves(merged) == HeapLeaves(heap)
    ensures HeapWeight(merged) == HeapWeight(heap)
    ensures forall t | t in merged :: WellWeighted(t)
  {
    MergeKeepsLeaves(heap, i, once, j, merged);
    MergeKeepsWellWeighted(heap, i, once, j, merged);
  }

  lemma MergeKeepsLeaves(heap: seq<Tree>, i: nat, once: seq<Tree>, j: nat, merged: seq<Tree>)
    requires i < |heap| && once == RemoveAt(heap, i) && j < |once|
    requires merged == RemoveAt(once, j) + [Node(heap[i], once[j], heap[i].w + once[j].w)]
    ensures |merged| == |heap| - 1
    ensures HeapLeaves(merged) == HeapLeaves(heap)
    ensures HeapWeight(merged) == HeapWeight(heap)
  {
    var node := Node(heap[i], once[j], heap[i].w + once[j].w);
    RemoveAtSplit(heap, i);
    RemoveAtSplit(once, j);
    PushKeeps(RemoveAt(once, j), node);
    assert multiset(Leaves(node)) == multiset(Leaves(heap[i])) + multiset(Leaves(once[j]));
  }

  lemma MergeKeepsWellWeighted(heap: seq<Tree>, i: nat, once: seq<Tree>, j: nat, merged: seq<Tree>)
    requires i < |heap| && once == RemoveAt(heap, i) && j < |once|
    requires merged == RemoveAt(once, j) + [Node(heap[i], once[j], heap[i].w + once[j].w)]
    requires forall t | t in heap :: WellWeighted(t)
    ensures forall t | t in merged :: WellWeighted(t)
  {
    RemoveAtSplit(heap, i);
    RemoveAtSplit(once, j);
  }

  lemma PushKeeps(heap: seq<Tree>, t: Tree)
    ensures HeapLeaves(heap + [t]) == HeapLeaves(heap) + multiset(Leaves(t))
    ensures HeapWeight(heap + [t]) == HeapWeight(heap) + t.w
  {
    HeapConcat(heap, [t]);
    assert [t][1..] == [];
  }

  lemma SingleTreeQueue(heap: seq<Tree>)
    requires |heap| == 1
    ensures HeapLeaves(heap) == multiset(Leaves(heap[0]))
    ensures HeapWeight(heap) == heap[0].w
  {
    assert heap[1..] == [];
  }

  /** `top()` followed by `pop()` on the min-queue: hands back a tree of least weight and
      the queue without it. */
  method PopMin(heap: seq<Tree>) returns (least: Tree, rest: seq<Tree>, ghost i: nat)
    requires |heap| > 0
    ensures IsMinIndex(heap, i) && least == heap[i] && rest == RemoveAt(heap, i)
    ensures forall t | t in heap :: least.w <= t.w
  {
    i := MinIndexExists(heap);
    var k :| 0 <= k < |heap| && IsMinIndex(heap, k);
    least, rest := heap[k], RemoveAt(heap, k);
    i := k;
  }

  /** The first loop of buildHuffmanTree: one leaf per table entry is pushed onto the
      queue, in whatever order the table yields its entries. */
  method EnqueueLeaves(freq: FreqTable) returns (heap: seq<Tree>)
    requires freq != map[]
    ensures |heap| >= 1
    ensures forall t | t in heap :: t.Leaf?
    ensures HeapLeaves(heap) == Pairs(freq)
    ensures HeapWeight(heap) == Total(freq)
  {
    heap := [];
    var rest := freq;
    while rest != map[]
      invariant forall t | t in heap :: t.Leaf?
      invariant HeapLeaves(heap) + Pairs(rest) == Pairs(freq)
      invariant HeapWeight(heap) + Total(rest) == Total(freq)
      invariant heap == [] ==> rest == freq
      decreases |rest|
    {
      HasKey(rest);
      var k :| k in rest;
      PushLeafKeeps(heap, rest, k);
      heap := heap + [Leaf(k, rest[k])];
      rest := rest - {k};
    }
    EmptyTable(rest);
  }

  /** buildHuffmanTree: one leaf per table entry goes into the min-queue; then, while
      more than one tree remains, the two lightest are popped and merged under a new
      internal node whose weight is their sum. The table must not be empty (the source
      calls `top()` on the empty queue otherwise). */
  method BuildTree(freq: FreqTable) returns (root: Tree)
    requires freq != map[]
    ensures BuiltFrom(root, freq)
  {
    var heap := EnqueueLeaves(freq);
    while |heap| > 1
      invariant |heap| >= 1 && QueueOf(heap, freq)
      decreases |heap|
    {
      ghost var before := heap;
      var left, right;
      ghost var i, j;
      left, heap, i := PopMin(heap);
      ghost var once := heap;
      right, heap, j := PopMin(heap);
      heap := heap + [Node(left, right, left.w + right.w)];
      MergeStep(before, i, once, j, heap, freq);
    }
    root := heap[0];
    SingleTreeQueue(heap);
  }

  /** The loop invariant of BuildTree: the queue holds well-weighted trees whose leaves
      are the table's entries and whose weights add up to the table's total. */
  ghost predicate QueueOf(heap: seq<Tree>, freq: FreqTable) {
    && (forall t | t in heap :: WellWeighted(t))
    && HeapLeaves(heap) == Pairs(freq)
    && HeapWeight(heap) == Total(freq)
  }

  /** One merge round keeps the loop invariant and shrinks the queue by one. */
  lemma MergeStep(heap: seq<Tree>, i: nat, once: seq<Tree>, j: nat, merged: seq<Tree>, freq: FreqTable)
    requires i < |heap| && once == RemoveAt(heap, i) && j < |once|
    requires merged == RemoveAt(once, j) + [Node(heap[i], once[j], heap[i].w + once[j].w)]
    requires QueueOf(heap, freq)
    ensures QueueOf(merged, freq) && |merged| == |heap| - 1
  {
    MergeKeeps(heap, i, once, j, merged);
  }

  // ----- what the built tree looks like -----

  /** A non-empty queue holds at least one leaf. */
  lemma HeapHasLeaves(heap: seq<Tree>)
    ensures heap != [] ==> |HeapLeaves(heap)| > 0
  {
    if heap != [] {
      LeavesNonEmpty(heap[0]);
      assert Leaves(heap[0])[0] in multiset(Leaves(heap[0]));
    }
  }

  lemma LeavesNonEmpty(t: Tree)
    ensures |Leaves(t)| > 0
    ensures t.Node? ==> |Leaves(t)| >= 2
  {
  }

  /** A table calls for as many leaves as it has entries. */
  lemma {:induction false} PairsSize(m: FreqTable)
    ensures |Pairs(m)| == |m|
    decreases |m|
  {
    if m == map[] {
      EmptyTable(m);
    } else {
      var k := AnyKey(m);
      PairsRemove(m, k);
      PairsSize(m - {k});
    }
  }

  lemma {:induction false} LeavesHaveSymbols(t: Tree)
    ensures forall p | p in Leaves(t) :: p.0 in LeafSymbols(t)
  {
    match t
    case Leaf(_, _) =>
    case Node(l, r, _) =>
      LeavesHaveSymbols(l);
      LeavesHaveSymbols(r);
  }

  lemma {:induction false} SymbolHasLeaf(t: Tree, s: Byte) returns (w: nat)
    requires s in LeafSymbols(t)
    ensures (s, w) in Leaves(t)
  {
    match t
    case Leaf(_, x) =>
      w := x;
    case Node(l, r, _) =>
      if s in LeafSymbols(l) {
        w := SymbolHasLeaf(l, s);
      } else {
        w := SymbolHasLeaf(r, s);
      }
  }

  /** The leaves of the built tree hold exactly the bytes of the table. */
  lemma BuiltFromSymbols(t: Tree, freq: FreqTable)
    requires BuiltFrom(t, freq)
    ensures LeafSymbols(t) == freq.Keys
  {
    var all := set s | s in freq :: (s, freq[s]);
    LeavesHaveSymbols(t);
    forall s | s in freq
      ensures s in LeafSymbols(t)
    {
      assert (s, freq[s]) in all;
      assert (s, freq[s]) in multiset(Leaves(t));
    }
    forall s | s in LeafSymbols(t)
      ensures s in freq
    {
      var w := SymbolHasLeaf(t, s);
      assert (s, w) in multiset(Leaves(t));
      assert (s, w) in all;
    }
  }

  /** With two different bytes in the table the root is an internal node. */
  lemma TwoSymbolsMakeNode(t: Tree, freq: FreqTable, a: Byte, b: Byte)
    requires BuiltFrom(t, freq)
    requires a in freq && b in freq && a != b
    ensures t.Node?
  {
    BuiltFromSymbols(t, freq);
  }

  /** With a single byte in the table the root is that byte's leaf: nothing is merged. */
  lemma OneSymbolMakesLeaf(t: Tree, freq: FreqTable, s: Byte)
    requires BuiltFrom(t, freq)
    requires freq.Keys == {s}
    ensures t == Leaf(s, freq[s])
  {
    PairsSize(freq);
    LeavesNonEmpty(t);
    assert |freq| == |freq.Keys| == 1;
    assert t.Leaf?;
    var all := set x | x in freq :: (x, freq[x]);
    assert (t.sym, t.w) in multiset(Leaves(t));
    assert (t.sym, t.w) in all;
  }

  /** The root of a built tree weighs the length of the input it was counted from. */
  lemma RootWeighsInput(t: Tree, data: seq<Byte>)
    requires BuiltFrom(t, FreqOf(data))
    ensures t.w == |data|
  {
    FreqOfTotal(data);
  }
}
