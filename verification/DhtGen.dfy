/**
  The table generator of lib/nx_dhtgen.c: count normalisation, the two-queue
  Huffman construction on arrays, the walk that reads off the lengths, and the
  retry loop that forces them to at most 15.
  */
module DhtGen {
  import opened Bits
  import opened Canonical
  import opened Huffman
  import opened HuffmanLengths
  import opened DhtFormat

  const INITIAL_LIMIT := 16384

  /** tree_node_t: a child is the index of a node, or the symbol of a leaf. */
  datatype TreeNode = TreeNode(symbol: nat, count: nat, left: nat, right: nat, leftLeaf: bool, rightLeaf: bool)

  /** The queue macros: indices into an array that is used front to back. */
  class Queue<T(0)> {
    const arr: array<T>
    var count: nat
    var numElts: nat
    var head: nat
    var tail: nat

    ghost predicate Valid()
      reads this
    {
      && arr.Length > 0 && numElts > 0
      && (count > 0 ==> head + count == tail <= arr.Length && tail <= numElts)
      && (count == 0 && head != tail ==> head < arr.Length)
    }

    ghost function Contents(): (s: seq<T>)
      requires Valid()
      reads this, arr
      ensures |s| == count
    {
      if count == 0 then [] else arr[head..head + count]
    }

    constructor (arr: array<T>, numElts: nat, tail: nat, count: nat)
      requires arr.Length > 0 && numElts > 0 && count == tail <= arr.Length && tail <= numElts
      ensures Valid() && this.arr == arr && this.numElts == numElts
      ensures head == 0 && this.tail == tail && this.count == count
    {
      this.arr, this.numElts, this.head, this.tail, this.count := arr, numElts, 0, tail, count;
    }

    /** headof_q: the number of elements, and the first one when there is one. */
    method HeadOf(elt: T) returns (rc: nat, first: T)
      requires Valid()
      ensures rc == count && (count > 0 ==> first == Contents()[0])
    {
      if count == 0 && head == tail {
        rc, first := 0, elt;
      } else {
        rc, first := count, arr[head];
      }
    }

    /** del_q */
    method Del()
      requires Valid() && count > 0
      modifies this
      ensures Valid() && Contents() == old(Contents())[1..]
      ensures tail == old(tail) && numElts == old(numElts) && count == old(count) - 1
      ensures head == if old(head) + 1 == numElts then 0 else old(head) + 1
    {
      WrapsAtEnd(head + 1, numElts);
      head := (head + 1) % numElts;
      count := count - 1;
    }

    /** add_q, where the queue does not wrap. */
    method Add(x: T)
      requires Valid() && tail + 1 < numElts && tail < arr.Length
      requires head + count == tail
      modifies this, arr
      ensures Valid() && Contents() == old(Contents()) + [x]
      ensures tail == old(tail) + 1 && head == old(head) && numElts == old(numElts)
      ensures count == old(count) + 1
      ensures arr[..] == old(arr[..])[old(tail) := x]
    {
      WrapsAtEnd(tail + 1, numElts);
      arr[tail] := x;
      tail := (tail + 1) % numElts;
      count := count + 1;
    }
  }

  lemma WrapsAtEnd(x: nat, n: nat)
    requires 0 < n && x <= n
    ensures x % n == if x == n then 0 else x
  {
  }

  /** A child of node k. */
  ghost predicate ChildIs(trees: seq<HTree>, k: nat, child: nat, isLeaf: bool, t: HTree) {
    if isLeaf then t.Leaf? && t.item.symbol == child
    else t.Node? && child < k && child < |trees| && t == trees[child]
  }

  /** Node k of the array stands for tree k. */
  ghost predicate NodeIs(nodes: seq<TreeNode>, trees: seq<HTree>, k: nat)
    requires k < |nodes| && k < |trees|
  {
    && trees[k].Node? && nodes[k].symbol == k && nodes[k].count == Weight(trees[k])
    && ChildIs(trees, k, nodes[k].left, nodes[k].leftLeaf, trees[k].left)
    && ChildIs(trees, k, nodes[k].right, nodes[k].rightLeaf, trees[k].right)
  }

  /** The first nodes of the array stand for the trees. */
  ghost predicate NodesAre(nodes: seq<TreeNode>, trees: seq<HTree>) {
    |trees| <= |nodes| && forall k :: 0 <= k < |trees| ==> NodeIs(nodes, trees, k)
  }

  // ---------- tree_walk ----------

  /** What walking from an internal node writes, its children being at `depth`. */
  function WalkFrom(t: HTree, depth: nat, a: seq<nat>): (b: seq<nat>)
    requires t.Node? && SymbolsBelow(t, |a|)
    ensures |b| == |a|
  {
    Assign(t.right, depth, Assign(t.left, depth, a))
  }

  /** The greatest depth that the walk meets. */
  function DeepestFrom(t: HTree, depth: nat): nat
    requires t.Node?
  {
    var l := if t.left.Node? then DeepestFrom(t.left, Deeper(depth)) else 0;
    var r := if t.right.Node? then DeepestFrom(t.right, Deeper(depth)) else 0;
    Larger(depth, Larger(l, r))
  }

  function Larger(x: nat, y: nat): nat {
    if x >= y then x else y
  }

  lemma {:induction false} DeepestIsHeight(t: HTree, d: nat)
    requires t.Node? && d + Height(t) <= 31
    ensures DeepestFrom(t, d + 1) == d + Height(t)
    decreases t
  {
    if t.left.Node? { DeepestIsHeight(t.left, d + 1); }
    if t.right.Node? { DeepestIsHeight(t.right, d + 1); }
  }

  /** tree_walk: lens[off..] is the sym_len array. Returns the new max_len. */
  method TreeWalk(nodes: array<TreeNode>, node: nat, depth: nat, lens: array<nat>, off: nat, n: nat,
                  maxLen: nat, ghost trees: seq<HTree>)
    returns (maxLen': nat)
    requires node < |trees| && NodesAre(nodes[..], trees)
    requires trees[node].Node? && SymbolsBelow(trees[node], n)
    requires off + n <= lens.Length
    modifies lens
    ensures lens[off..off + n] == WalkFrom(trees[node], depth, old(lens[off..off + n]))
    ensures lens[..off] == old(lens[..off]) && lens[off + n..] == old(lens[off + n..])
    ensures maxLen' == Larger(maxLen, DeepestFrom(trees[node], depth))
    decreases node
  {
    ghost var t := trees[node];
    assert NodeIs(nodes[..], trees, node);
    var depthPlus := Deeper(depth);
    var left, rite := nodes[node].left, nodes[node].right;
    maxLen' := if depth > maxLen then depth else maxLen;
    if !nodes[node].leftLeaf {
      maxLen' := TreeWalk(nodes, left, depthPlus, lens, off, n, maxLen', trees);
    } else {
      SetLength(lens, off, n, left, depth);
    }
    if !nodes[node].rightLeaf {
      maxLen' := TreeWalk(nodes, rite, depthPlus, lens, off, n, maxLen', trees);
    } else {
      SetLength(lens, off, n, rite, depth);
    }
  }

  /** sym_len[symbol] = depth */
  method SetLength(lens: array<nat>, off: nat, n: nat, symbol: nat, depth: nat)
    requires symbol < n && off + n <= lens.Length
    modifies lens
    ensures lens[off..off + n] == old(lens[off..off + n])[symbol := depth]
    ensures lens[..off] == old(lens[..off]) && lens[off + n..] == old(lens[off + n..])
  {
    lens[off + symbol] := depth;
  }

  // ---------- huffman_tree ----------

  /** The two queues of huffman_tree stand for the forest f. */
  ghost predicate QueuesAre(leafQ: Queue<Item>, nodeQ: Queue<TreeNode>, f: Forest, trees: seq<HTree>)
    reads leafQ, leafQ.arr, nodeQ, nodeQ.arr
  {
    && leafQ.Valid() && nodeQ.Valid()
    && f.leaves == leafQ.Contents()
    && nodeQ.head + nodeQ.count == nodeQ.tail == |trees|
    && f.nodes == trees[nodeQ.head..nodeQ.tail]
    && NodesAre(nodeQ.arr[..], trees)
  }

  /** The root t is the leaf or the node that was taken from a queue. */
  ghost predicate IsRoot(t: HTree, symbol: nat, count: nat, isLeaf: bool, trees: seq<HTree>) {
    count == Weight(t) && ChildIs(trees, |trees|, symbol, isLeaf, t)
  }

  lemma HeadNode(nodes: seq<TreeNode>, trees: seq<HTree>, k: nat)
    requires NodesAre(nodes, trees) && k < |trees|
    ensures |trees| <= |nodes| && nodes[k].symbol == k && nodes[k].count == Weight(trees[k]) && trees[k].Node?
  {
    assert NodeIs(nodes, trees, k);
  }

  method DelLeaf(leafQ: Queue<Item>, nodeQ: Queue<TreeNode>, ghost f: Forest, ghost trees: seq<HTree>)
    requires leafQ as object != nodeQ && leafQ.arr as object != nodeQ.arr
    requires QueuesAre(leafQ, nodeQ, f, trees) && Size(f) > 0 && FromLeaves(f)
    modifies leafQ
    ensures QueuesAre(leafQ, nodeQ, Rest(f), trees)
  {
    hide Weight, NodesAre;
    leafQ.Del();
  }

  method DelNode(leafQ: Queue<Item>, nodeQ: Queue<TreeNode>, ghost f: Forest, ghost trees: seq<HTree>)
    requires leafQ as object != nodeQ && leafQ.arr as object != nodeQ.arr
    requires QueuesAre(leafQ, nodeQ, f, trees) && Size(f) > 0 && !FromLeaves(f) && nodeQ.tail < nodeQ.numElts
    modifies nodeQ
    ensures QueuesAre(leafQ, nodeQ, Rest(f), trees)
    ensures nodeQ.tail == old(nodeQ.tail) && nodeQ.numElts == old(nodeQ.numElts)
  {
    hide Weight, NodesAre;
    nodeQ.Del();
  }

  /** The body of the inner loop: take the lighter of the two heads. */
  method TakeLightest(leafQ: Queue<Item>, nodeQ: Queue<TreeNode>, ghost f: Forest, ghost trees: seq<HTree>)
    returns (symbol: nat, count: nat, isLeaf: bool)
    requires leafQ as object != nodeQ && leafQ.arr as object != nodeQ.arr
    requires QueuesAre(leafQ, nodeQ, f, trees) && Size(f) > 0 && nodeQ.tail < nodeQ.numElts
    modifies leafQ, nodeQ
    ensures QueuesAre(leafQ, nodeQ, Rest(f), trees)
    ensures IsRoot(First(f), symbol, count, isLeaf, trees)
    ensures nodeQ.tail == old(nodeQ.tail) && nodeQ.numElts == old(nodeQ.numElts)
  {
    hide Greedy, Items, NodesAre, NodeIs;
    var numLeaf, leafNode := leafQ.HeadOf(Item(0, 0));
    var numNode, treeNode := nodeQ.HeadOf(TreeNode(0, 0, 0, 0, false, false));
    if numNode > 0 {
      HeadNode(nodeQ.arr[..], trees, nodeQ.head);
    }
    if (numLeaf > 0 && numNode > 0 && leafNode.count <= treeNode.count) || numNode == 0 {
      symbol, count, isLeaf := leafNode.symbol, leafNode.count, true;
      DelLeaf(leafQ, nodeQ, f, trees);
    } else {
      symbol, count, isLeaf := treeNode.symbol, treeNode.count, false;
      DelNode(leafQ, nodeQ, f, trees);
    }
  }

  /** A new last node leaves the others as they are. */
  lemma NodesSnoc(nodes: seq<TreeNode>, trees: seq<HTree>, n: TreeNode, t: HTree)
    requires NodesAre(nodes, trees) && |trees| < |nodes| && t.Node?
    requires n.symbol == |trees| && n.count == Weight(t)
    requires ChildIs(trees, |trees|, n.left, n.leftLeaf, t.left)
    requires ChildIs(trees, |trees|, n.right, n.rightLeaf, t.right)
    ensures NodesAre(nodes[|trees| := n], trees + [t])
  {
    var more, ts := nodes[|trees| := n], trees + [t];
    forall k | 0 <= k < |ts| ensures NodeIs(more, ts, k) {
      if k < |trees| {
        assert NodeIs(nodes, trees, k);
      }
    }
  }

  /** The body of the outer loop: merge the two lightest roots. */
  method MergeLightest(leafQ: Queue<Item>, nodeQ: Queue<TreeNode>, ghost f: Forest, ghost trees: seq<HTree>)
    requires leafQ as object != nodeQ && leafQ.arr as object != nodeQ.arr
    requires QueuesAre(leafQ, nodeQ, f, trees) && Size(f) > 1
    requires nodeQ.tail + 1 < nodeQ.numElts && nodeQ.tail < nodeQ.arr.Length
    modifies leafQ, nodeQ, nodeQ.arr
    ensures QueuesAre(leafQ, nodeQ, Step(f), trees + [Node(First(f), First(Rest(f)))])
    ensures nodeQ.numElts == old(nodeQ.numElts)
  {
    hide Greedy, Items, NodesAre, NodeIs, ChildIs, FromLeaves, First, Rest;
    ghost var t := Node(First(f), First(Rest(f)));
    var left, leftCount, leftLeaf := TakeLightest(leafQ, nodeQ, f, trees);
    var right, rightCount, rightLeaf := TakeLightest(leafQ, nodeQ, Rest(f), trees);
    var n := TreeNode(nodeQ.tail, leftCount + rightCount, left, right, leftLeaf, rightLeaf);
    NodesSnoc(nodeQ.arr[..], trees, n, t);
    ghost var rest := Rest(Rest(f));
    QueueSnoc(trees, t, nodeQ.head);
    nodeQ.Add(n);
  }

  lemma QueueSnoc(trees: seq<HTree>, t: HTree, head: nat)
    requires head <= |trees|
    ensures (trees + [t])[head..|trees| + 1] == trees[head..] + [t]
    ensures trees[head..|trees|] == trees[head..]
  {
  }

  /** copy_hist_to_leaf_node: returns the number of nonzero counts. */
  method CopyHistToLeafNode(t: array<Item>, hist: array<nat>, nsym: nat) returns (used: nat)
    requires nsym <= hist.Length && nsym <= t.Length
    modifies t
    ensures t[..nsym] == AllItems(hist[..nsym]) && used == Used(hist[..nsym])
  {
    used := 0;
    var i := 0;
    while i < nsym
      invariant 0 <= i <= nsym
      invariant t[..i] == AllItems(hist[..i]) && used == Used(hist[..i])
    {
      t[i] := Item(i, hist[i]);
      assert AllItems(hist[..i + 1]) == AllItems(hist[..i]) + [Item(i, hist[i])];
      SumSnoc(AllItems(hist[..i]), Item(i, hist[i]), IsUsed);
      if hist[i] != 0 {
        used := used + 1;
      }
      i := i + 1;
    }
  }

  /** qsort with cmp_count on the first n leaves: any sort will do. */
  method SortLeaves(a: array<Item>, n: nat)
    requires n <= a.Length && Distinct(a[..n])
    modifies a
    ensures a[..n] == SortItems(old(a[..n]))
  {
    ghost var before := a[..n];
    SortInOrder(before);
    var sorted: seq<Item> :| multiset(sorted) == multiset(a[..n]) && InOrder(sorted);
    SortIsUnique(before, sorted);
    forall i | 0 <= i < n {
      a[i] := sorted[i];
    }
  }

  lemma {:induction false} LeavesBelow(t: HTree, n: nat)
    requires forall k :: 0 <= k < |Items(t)| ==> Items(t)[k].symbol < n
    ensures SymbolsBelow(t, n)
    decreases t
  {
    match t
    case Leaf(i) => assert Items(t)[0] == i;
    case Node(l, r) =>
      var x, y := Items(l), Items(r);
      assert forall k :: 0 <= k < |x| ==> x[k] == Items(t)[k];
      assert forall k :: 0 <= k < |y| ==> y[k] == Items(t)[|x| + k];
      LeavesBelow(l, n);
      LeavesBelow(r, n);
  }

  lemma TreeSymbols(hist: seq<nat>)
    requires Small(hist) && Used(hist) >= 2
    ensures TreeOf(hist).Node? && SymbolsBelow(TreeOf(hist), |hist|) && Distinct(Items(TreeOf(hist)))
  {
    RootIsNode(hist);
    TreeFacts(hist);
    DistinctLeaves(hist, Items(TreeOf(hist)));
    LeavesBelow(TreeOf(hist), |hist|);
  }

  /** The two-queue construction: leaves the root in the node queue. */
  method BuildTree(leafarr: array<Item>, nodearr: array<TreeNode>, nz: nat, ghost hist: seq<nat>)
    returns (root: nat, ghost trees: seq<HTree>)
    requires leafarr as object != nodearr && leafarr.Length == nodearr.Length == NLEN && |hist| <= NLEN
    requires Small(hist) && nz == Used(hist) >= 2 && nz <= NLEN && leafarr[..nz] == LeafQueue(hist)
    modifies nodearr
    ensures NodesAre(nodearr[..], trees) && root < |trees| && trees[root] == TreeOf(hist)
  {
    var leafQ := new Queue(leafarr, nz, nz, nz);
    var nodeQ := new Queue(nodearr, 2 * nz - 1, 0, 0);
    ghost var f := Forest(LeafQueue(hist), []);
    trees := [];
    while leafQ.count + nodeQ.count > 1
      invariant leafQ.arr == leafarr && nodeQ.arr == nodearr && fresh(leafQ) && fresh(nodeQ)
      invariant leafQ as object != nodeQ
      invariant QueuesAre(leafQ, nodeQ, f, trees) && Size(f) == leafQ.count + nodeQ.count >= 1
      invariant Size(f) + |trees| == nz && nodeQ.numElts == 2 * nz - 1
      invariant Build(f) == TreeOf(hist)
      decreases Size(f)
    {
      MergeLightest(leafQ, nodeQ, f, trees);
      trees := trees + [Node(First(f), First(Rest(f)))];
      f := Step(f);
    }
    RootIsNode(hist);
    var num, remaining := nodeQ.HeadOf(TreeNode(0, 0, 0, 0, false, false));
    assert NodeIs(nodearr[..], trees, nodeQ.head);
    root := remaining.symbol;
  }

  /** huffman_tree: lens[off..] is the sym_len array. */
  method HuffmanTree(hist: array<nat>, nsym: nat, lens: array<nat>, off: nat) returns (maxLen: nat)
    requires hist != lens && nsym <= hist.Length && nsym <= NLEN && off + nsym <= lens.Length
    requires Small(hist[..nsym]) && Used(hist[..nsym]) >= 2
    modifies lens
    ensures TreeOf(hist[..nsym]).Node? && SymbolsBelow(TreeOf(hist[..nsym]), nsym)
    ensures lens[off..off + nsym] == WalkFrom(TreeOf(hist[..nsym]), 1, old(lens[off..off + nsym]))
    ensures lens[..off] == old(lens[..off]) && lens[off + nsym..] == old(lens[off + nsym..])
    ensures maxLen == DeepestFrom(TreeOf(hist[..nsym]), 1)
  {
    hide Used, Sum, TreeOf, Small, DeepestFrom, WalkFrom, NodesAre, SymbolsBelow, Height, Total;
    ghost var h := hist[..nsym];
    var leafarr := new Item[NLEN];
    var nodearr := new TreeNode[NLEN];
    var nz := CopyHistToLeafNode(leafarr, hist, nsym);
    CountableSort(h);
    SortLeaves(leafarr, nsym);
    assert leafarr[..nz] == leafarr[..nsym][..nz];
    var root, trees := BuildTree(leafarr, nodearr, nz, h);
    TreeSymbols(h);
    maxLen := TreeWalk(nodearr, root, 1, lens, off, nsym, 0, trees);
  }

  // ---------- length_limit ----------

  function CeilDiv(x: nat, d: nat): nat
    requires d > 0
  {
    (x + d - 1) / d
  }

  lemma CeilDivFacts(x: nat, d: nat)
    requires d > 0
    ensures CeilDiv(x, d) == 0 <==> x == 0
    ensures x <= d * CeilDiv(x, d) <= x + d - 1
    ensures d == 1 ==> CeilDiv(x, d) == x
  {
    var y := x + d - 1;
    var q := y / d;
    assert y == d * q + y % d;
    if x == 0 {
      DivModUnique(y, d, 0, d - 1);
    } else {
      DivAtLeast(y, d, 1);
    }
  }

  /** The counts divided by the smallest divisor that fits their sum in the limit, rounded up. */
  function Normalized(h: seq<nat>, limit: nat): (r: seq<nat>)
    requires limit > 0 && Total(h) > 0
    ensures |r| == |h|
  {
    CeilDivFacts(Total(h), limit);
    Scaled(h, CeilDiv(Total(h), limit))
  }

  function Scaled(h: seq<nat>, d: nat): (r: seq<nat>)
    requires d > 0
    ensures |r| == |h|
    ensures forall i :: 0 <= i < |h| ==> r[i] == CeilDiv(h[i], d)
  {
    seq(|h|, i requires 0 <= i < |h| => CeilDiv(h[i], d))
  }

  /** Rounding up adds less than 1 for each count. */
  lemma {:induction false} ScaledTotal(h: seq<nat>, d: nat)
    requires d > 0
    ensures d * Total(Scaled(h, d)) <= Total(h) + |h| * (d - 1)
    decreases |h|
  {
    if h != [] {
      var k := |h| - 1;
      ScaledTotal(h[..k], d);
      CeilDivFacts(h[k], d);
      assert Scaled(h, d)[..k] == Scaled(h[..k], d);
      var x, y := Total(Scaled(h[..k], d)), CeilDiv(h[k], d);
      Distribute(d, x, y);
      Distribute(d - 1, k, 1);
    }
  }

  lemma Distribute(d: nat, x: nat, y: nat)
    ensures d * (x + y) == d * x + d * y
    ensures (x + y) * d == x * d + y * d
  {
  }

  /** Every count became the least that d times it covers, and d is the least that brings their sum within the limit. */
  ghost predicate Divided(h: seq<nat>, r: seq<nat>, limit: nat, d: nat) {
    && |r| == |h| && d > 0 && Total(h) <= d * limit < Total(h) + limit
    && forall i :: 0 <= i < |h| ==> h[i] <= d * r[i] < h[i] + d
  }

  /** A pass over h with this limit left r. */
  ghost predicate OnePassOver(h: seq<nat>, r: seq<nat>, limit: nat) {
    exists d: nat :: Divided(h, r, limit, d)
  }

  /**
    Nonzero counts stay nonzero, and the sum comes below limit plus the number of symbols. The
    divisor is the least that will do, and no count is rounded up by more than it needs.
    */
  lemma NormalizedFacts(h: seq<nat>, limit: nat)
    requires limit > 0 && Total(h) > 0
    ensures forall i :: 0 <= i < |h| ==> (Normalized(h, limit)[i] == 0 <==> h[i] == 0)
    ensures Total(Normalized(h, limit)) < limit + |h|
    ensures OnePassOver(h, Normalized(h, limit), limit)
  {
    var d := CeilDiv(Total(h), limit);
    CeilDivFacts(Total(h), limit);
    Commutes(limit, d);
    ScaledIsDivided(h, limit, d);
  }

  lemma ScaledIsDivided(h: seq<nat>, limit: nat, d: nat)
    requires limit > 0 && d > 0 && Total(h) > 0 && Total(h) <= d * limit < Total(h) + limit
    ensures forall i :: 0 <= i < |h| ==> (Scaled(h, d)[i] == 0 <==> h[i] == 0)
    ensures Total(Scaled(h, d)) < limit + |h|
    ensures Divided(h, Scaled(h, d), limit, d)
  {
    hide CeilDiv, Total;
    var r := Scaled(h, d);
    forall i | 0 <= i < |h| ensures (r[i] == 0 <==> h[i] == 0) && h[i] <= d * r[i] < h[i] + d {
      CeilDivFacts(h[i], d);
    }
    ScaledTotal(h, d);
    NotEmpty(h);
    Commutes(limit, d);
    Bounded(d, Total(r), limit, |h|, Total(h));
  }

  lemma NotEmpty(h: seq<nat>)
    requires Total(h) > 0
    ensures h != []
  {
  }

  lemma Commutes(x: nat, y: nat)
    ensures x * y == y * x
  {
  }

  lemma Bounded(d: nat, t: nat, limit: nat, n: nat, sum: nat)
    requires d > 0 && n > 0 && d * t <= sum + n * (d - 1) && sum <= limit * d
    ensures t < limit + n
  {
    assert d * t <= (limit + n) * d - n;
    if t >= limit + n {
      MulMono(d, limit + n, t);
    }
  }

  lemma TotalPrefix(h: seq<nat>, i: nat)
    requires i < |h|
    ensures Total(h[..i + 1]) == Total(h[..i]) + h[i]
  {
    assert h[..i + 1][..i] == h[..i];
  }

  /** The first loop of length_limit. */
  method SumCounts(hist: array<nat>, nsym: nat) returns (sum: nat)
    requires nsym <= hist.Length
    ensures sum == Total(hist[..nsym])
  {
    sum := 0;
    var i := 0;
    while i < nsym
      invariant 0 <= i <= nsym && sum == Total(hist[..nsym][..i])
    {
      TotalPrefix(hist[..nsym], i);
      sum := sum + hist[i];
      i := i + 1;
    }
    assert hist[..nsym][..nsym] == hist[..nsym];
  }

  /** The second loop of length_limit. */
  method ScaleCounts(hist: array<nat>, nsym: nat, divisor: nat) returns (sum2: nat)
    requires nsym <= hist.Length && divisor > 0
    modifies hist
    ensures hist[..nsym] == Scaled(old(hist[..nsym]), divisor)
    ensures hist[nsym..] == old(hist[nsym..])
    ensures sum2 == Total(hist[..nsym])
  {
    ghost var h, r := hist[..nsym], Scaled(hist[..nsym], divisor);
    sum2 := 0;
    var i := 0;
    while i < nsym
      invariant 0 <= i <= nsym
      invariant forall k :: 0 <= k < i ==> hist[k] == r[k]
      invariant forall k :: i <= k < nsym ==> hist[k] == h[k]
      invariant hist[nsym..] == old(hist[nsym..])
      invariant sum2 == Total(r[..i])
    {
      TotalPrefix(r, i);
      hist[i] := (hist[i] + divisor - 1) / divisor;
      sum2 := sum2 + hist[i];
      i := i + 1;
    }
    assert r[..nsym] == r && hist[..nsym] == r;
  }

  /** length_limit: normalise the counts in place and return their new sum. */
  method LengthLimit(hist: array<nat>, nsym: nat, limit: nat) returns (sum2: nat)
    requires nsym <= hist.Length && limit > 0 && Total(hist[..nsym]) > 0
    modifies hist
    ensures hist[..nsym] == Normalized(old(hist[..nsym]), limit)
    ensures hist[nsym..] == old(hist[nsym..])
    ensures sum2 == Total(hist[..nsym]) < limit + nsym
  {
    var sum := SumCounts(hist, nsym);
    CeilDivFacts(sum, limit);
    NormalizedFacts(hist[..nsym], limit);
    var divisor := (sum + limit - 1) / limit;
    sum2 := ScaleCounts(hist, nsym, divisor);
  }

  // ---------- huffmanize ----------

  /** The limit of each pass is three quarters of the one before. */
  const LIMITS: seq<nat> := [16384, 12288, 9216, 6912, 5184, 3888, 2916, 2187]

  ghost predicate SameZeros(g: seq<nat>, h: seq<nat>) {
    |g| == |h| && forall i :: 0 <= i < |g| ==> (g[i] == 0 <==> h[i] == 0)
  }

  lemma {:induction false} EachBelowTotal(h: seq<nat>, i: nat)
    requires i < |h|
    ensures h[i] <= Total(h)
    decreases |h|
  {
    if i < |h| - 1 { EachBelowTotal(h[..|h| - 1], i); }
  }

  lemma {:induction false} UsedHasTotal(h: seq<nat>)
    requires Used(h) > 0
    ensures Total(h) > 0
  {
    if Total(h) == 0 {
      forall i | 0 <= i < |h| ensures h[i] == 0 { EachBelowTotal(h, i); }
      ZeroSum(AllItems(h), IsUsed);
    }
  }

  lemma SmallTotal(h: seq<nat>)
    requires Total(h) < INT_MAX
    ensures Small(h)
  {
    forall i | 0 <= i < |h| ensures h[i] < INT_MAX { EachBelowTotal(h, i); }
  }

  /** The counts after a pass, and the lengths that huffman_tree gives for them. */
  lemma PassFacts(before: seq<nat>, limit: nat, lens: seq<nat>)
    requires Used(before) >= 2 && |before| == |lens| <= NLEN && 0 < limit <= INITIAL_LIMIT
    requires Total(before) > 0
    requires forall s :: 0 <= s < |before| && before[s] == 0 ==> lens[s] == 0
    ensures var h := Normalized(before, limit);
      && OnePassOver(before, h, limit) && SameZeros(h, before) && Total(h) < limit + NLEN && Small(h)
      && Used(h) == Used(before)
      && TreeOf(h).Node? && SymbolsBelow(TreeOf(h), |h|)
      && LengthsOf(h, WalkFrom(TreeOf(h), 1, lens))
      && DeepestFrom(TreeOf(h), 1) == Height(TreeOf(h))
      && (Height(TreeOf(h)) > MAX_LEN ==> limit + NLEN > 2584)
  {
    var h := Normalized(before, limit);
    NormalizedFacts(before, limit);
    SmallTotal(h);
    SameUsed(h, before);
    TreeSymbols(h);
    LightIsShallow(h);
    WalkGivesLengths(h, lens);
    DeepestIsHeight(TreeOf(h), 0);
  }

  lemma WalkGivesLengths(h: seq<nat>, lens: seq<nat>)
    requires Small(h) && Used(h) >= 2 && |lens| == |h| && Height(TreeOf(h)) <= 19
    requires TreeOf(h).Node? && SymbolsBelow(TreeOf(h), |h|)
    requires Distinct(Items(TreeOf(h)))
    requires forall s :: 0 <= s < |h| && h[s] == 0 ==> lens[s] == 0
    ensures LengthsOf(h, WalkFrom(TreeOf(h), 1, lens))
  {
    var t := TreeOf(h);
    AssignAgrees(t, 0, lens);
    SymbolsAreItems(t);
    TreeFacts(h);
    DistinctLeaves(h, Items(t));
    assert WalkFrom(t, 1, lens) == Assign(t, 0, lens);
  }

  /** No code for these counts with the tree of huffman_tree is over 15 bits. */
  ghost predicate Shallow(h: seq<nat>) {
    Small(h) && Used(h) >= 1 && Height(TreeOf(h)) <= MAX_LEN
  }

  /** The counts that huffmanize leaves alone. */
  ghost predicate Fits(h: seq<nat>) {
    Total(h) <= 16384 && Shallow(h)
  }

  /** From h to r in at most eight passes, each over what the one before left because that was not shallow. */
  ghost predicate IsRun(run: seq<seq<nat>>, h: seq<nat>, r: seq<nat>) {
    && 1 <= |run| <= 1 + |LIMITS| && run[0] == h && run[|run| - 1] == r
    && (forall k :: 0 <= k < |run| - 1 ==> OnePassOver(run[k], run[k + 1], LIMITS[k]))
    && (forall k :: 0 < k < |run| - 1 ==> !Shallow(run[k]))
  }

  /** huffmanize turns the counts h into the counts r. */
  ghost predicate Normalizes(h: seq<nat>, r: seq<nat>) {
    exists run :: |run| > 1 && IsRun(run, h, r)
  }

  /** With a divisor of 1, or counts of 1 only, a pass changes nothing. */
  lemma DividedIs(h: seq<nat>, r: seq<nat>, limit: nat, d: nat)
    requires Divided(h, r, limit, d)
    ensures forall i :: 0 <= i < |h| ==> r[i] <= h[i] && (r[i] == h[i] <==> d == 1 || h[i] <= 1)
  {
    forall i | 0 <= i < |h| ensures r[i] <= h[i] && (r[i] == h[i] <==> d == 1 || h[i] <= 1) {
      CoverIs(h[i], r[i], d);
    }
  }

  lemma CoverIs(c: nat, q: nat, d: nat)
    requires d > 0 && c <= d * q < c + d
    ensures q <= c && (q == c <==> d == 1 || c <= 1)
  {
    if q > c {
      MulMono(d, c + 1, q);
    } else if q == c > 1 {
      MulMono(c - 1, if d > 1 then 1 else 0, d - 1);
      assert (c - 1) * (d - 1) == d * c - c - d + 1;
    }
  }

  /** Smaller counts have a smaller sum, and the same sum only if they are the same. */
  lemma {:induction false} SmallerTotal(r: seq<nat>, h: seq<nat>)
    requires |r| == |h| && forall i :: 0 <= i < |h| ==> r[i] <= h[i]
    ensures Total(r) <= Total(h) && (Total(r) == Total(h) ==> r == h)
    decreases |h|
  {
    if h != [] {
      var k := |h| - 1;
      SmallerTotal(r[..k], h[..k]);
      assert r == r[..k] + [r[k]] && h == h[..k] + [h[k]];
    }
  }

  lemma {:induction false} OnesTotal(h: seq<nat>)
    requires forall i :: 0 <= i < |h| ==> h[i] <= 1
    ensures Total(h) <= |h|
    decreases |h|
  {
    if h != [] { OnesTotal(h[..|h| - 1]); }
  }

  /** One pass never makes the sum larger; it is smaller if it was not within the limit. */
  lemma PassTotal(h: seq<nat>, r: seq<nat>, limit: nat)
    requires OnePassOver(h, r, limit)
    ensures |r| == |h| && Total(r) <= Total(h)
    ensures Total(r) == Total(h) ==> r == h
    ensures 0 < Total(h) <= limit ==> r == h
    ensures Total(h) > limit >= |h| ==> Total(r) < Total(h)
  {
    var d: nat :| Divided(h, r, limit, d);
    DividedIs(h, r, limit, d);
    SmallerTotal(r, h);
    LeastDivisor(Total(h), limit, d);
    if d > 1 && r == h {
      OnesTotal(h);
    }
  }

  lemma LeastDivisor(sum: nat, limit: nat, d: nat)
    requires d > 0 && sum <= d * limit < sum + limit
    ensures sum <= limit <==> d == 1 || sum == 0
  {
    if d > 1 { MulMono(limit, 2, d); }
  }

  lemma {:induction false} RunTotal(run: seq<seq<nat>>, h: seq<nat>, r: seq<nat>, k: nat)
    requires IsRun(run, h, r) && 1 <= k < |run|
    ensures |run[k]| == |h| && Total(run[k]) <= Total(run[1])
    decreases k
  {
    if k > 1 { RunTotal(run, h, r, k - 1); PassTotal(run[k - 1], run[k], LIMITS[k - 1]); }
    else { PassTotal(run[0], run[1], LIMITS[0]); }
  }

  /** The counts stay as they are if and only if they add up to at most 16384 and give a tree at most 15 high. */
  lemma KeptIffFits(run: seq<seq<nat>>, h: seq<nat>, r: seq<nat>)
    requires |run| > 1 && IsRun(run, h, r) && Shallow(r) && |h| <= NLEN
    ensures Normalizes(h, r) && (r == h <==> Fits(h))
  {
    PassTotal(run[0], run[1], LIMITS[0]);
    RunTotal(run, h, r, |run| - 1);
    if Fits(h) {
      UsedHasTotal(h);
      assert run[1] == h;
    }
  }

  /** Lengths of a complete code for the used symbols, of at most 15 bits. */
  ghost predicate Outcome(h: seq<nat>, lens: seq<nat>) {
    && Small(h) && Used(h) >= 2 && LengthsOf(h, lens) && Height(TreeOf(h)) <= MAX_LEN
  }

  lemma SameZerosTrans(f: seq<nat>, g: seq<nat>, h: seq<nat>)
    requires SameZeros(f, g) && SameZeros(g, h)
    ensures SameZeros(f, h)
  {
  }

  /** One pass of the retry loop. */
  method Pass(hist: array<nat>, num: nat, lens: array<nat>, off: nat, limit: nat) returns (maxDepth: nat)
    requires hist != lens && num <= hist.Length && num <= NLEN && off + num <= lens.Length
    requires Used(hist[..num]) >= 2 && 0 < limit <= INITIAL_LIMIT
    requires ZeroWhereZero(hist[..num], lens[off..off + num])
    modifies hist, lens
    ensures Total(old(hist[..num])) > 0 && OnePassOver(old(hist[..num]), hist[..num], limit)
    ensures SameZeros(hist[..num], old(hist[..num])) && Used(hist[..num]) >= 2
    ensures Small(hist[..num]) && LengthsOf(hist[..num], lens[off..off + num])
    ensures maxDepth == Height(TreeOf(hist[..num])) && (maxDepth > MAX_LEN ==> limit + NLEN > 2584)
    ensures hist[num..] == old(hist[num..])
    ensures lens[..off] == old(lens[..off]) && lens[off + num..] == old(lens[off + num..])
  {
    hide OnePassOver;
    ghost var before, slots := hist[..num], lens[off..off + num];
    UsedHasTotal(before);
    PassFacts(before, limit, slots);
    var sum2 := LengthLimit(hist, num, limit);
    maxDepth := HuffmanTree(hist, num, lens, off);
  }

  /**
    huffmanize: normalise and build until no length is over 15. At most eight
    passes are needed: a ninth would need a tree of height 16 from counts that
    add up to less than 2187 + 286, below the 2584 that such a tree weighs.
    */
  method Huffmanize(hist: array<nat>, num: nat, lens: array<nat>, off: nat) returns (passes: nat)
    requires hist != lens && num <= hist.Length && num <= NLEN && off + num <= lens.Length
    requires Used(hist[..num]) >= 2 && ZeroWhereZero(hist[..num], lens[off..off + num])
    modifies hist, lens
    ensures 1 <= passes <= 8 && Normalizes(old(hist[..num]), hist[..num])
    ensures hist[..num] == old(hist[..num]) <==> Fits(old(hist[..num]))
    ensures SameZeros(hist[..num], old(hist[..num]))
    ensures Outcome(hist[..num], lens[off..off + num])
    ensures hist[num..] == old(hist[num..])
    ensures lens[..off] == old(lens[..off]) && lens[off + num..] == old(lens[off + num..])
  {
    hide IsRun, SameZeros, Outcome, Used, Total, TreeOf, Height, Small, LengthsOf, ZeroWhereZero, Normalized, Shallow;
    var limit: nat, maxDepth: nat := INITIAL_LIMIT, MAX_LEN + 1;
    passes := 0;
    ghost var h0, run := hist[..num], [hist[..num]];
    FirstPass(h0, lens[off..off + num]);
    while maxDepth > MAX_LEN
      invariant |run| == passes + 1 && Retry(run, h0, hist[..num], lens[off..off + num], limit, maxDepth)
      invariant hist[num..] == old(hist[num..])
      invariant lens[..off] == old(lens[..off]) && lens[off + num..] == old(lens[off + num..])
      decreases 8 - passes
    {
      ghost var before, slots := hist[..num], lens[off..off + num];
      maxDepth := Pass(hist, num, lens, off, limit);
      OnePass(run, h0, before, hist[..num], slots, lens[off..off + num], limit, maxDepth);
      run := run + [hist[..num]];
      limit := (limit * 3) / 4;
      passes := passes + 1;
    }
    KeptIffFits(run, h0, hist[..num]);
  }

  /** The retry loop after the passes of the run. */
  ghost predicate Retry(run: seq<seq<nat>>, h0: seq<nat>, h: seq<nat>, slots: seq<nat>, limit: nat, maxDepth: nat) {
    && IsRun(run, h0, h) && 1 <= |run| <= 9 && (|run| <= |LIMITS| ==> limit == LIMITS[|run| - 1])
    && (maxDepth > MAX_LEN ==> |run| <= |LIMITS| && (|run| > 1 ==> !Shallow(h)))
    && SameZeros(h, h0) && Used(h) >= 2 && |slots| == |h| && ZeroWhereZero(h, slots)
    && (maxDepth <= MAX_LEN ==> |run| > 1 && Shallow(h) && Outcome(h, slots))
  }

  ghost predicate ZeroWhereZero(h: seq<nat>, slots: seq<nat>)
    requires |h| == |slots|
  {
    forall s :: 0 <= s < |h| && h[s] == 0 ==> slots[s] == 0
  }

  lemma FirstPass(h: seq<nat>, slots: seq<nat>)
    requires Used(h) >= 2 && |slots| == |h| && ZeroWhereZero(h, slots)
    ensures Retry([h], h, h, slots, INITIAL_LIMIT, MAX_LEN + 1)
  {
  }

  lemma LongerRun(run: seq<seq<nat>>, h0: seq<nat>, before: seq<nat>, h: seq<nat>)
    requires IsRun(run, h0, before) && |run| <= |LIMITS| && OnePassOver(before, h, LIMITS[|run| - 1])
    requires |run| > 1 ==> !Shallow(before)
    ensures IsRun(run + [h], h0, h)
  {
    hide Shallow, OnePassOver;
  }

  lemma OnePass(run: seq<seq<nat>>, h0: seq<nat>, before: seq<nat>, h: seq<nat>,
                slots0: seq<nat>, slots: seq<nat>, limit: nat, maxDepth: nat)
    requires Retry(run, h0, before, slots0, limit, MAX_LEN + 1)
    requires OnePassOver(before, h, limit) && SameZeros(h, before)
    requires Small(h) && Used(h) >= 2 && LengthsOf(h, slots)
    requires maxDepth == Height(TreeOf(h)) && (maxDepth > MAX_LEN ==> limit + NLEN > 2584)
    ensures Retry(run + [h], h0, h, slots, (limit * 3) / 4, maxDepth)
  {
    LongerRun(run, h0, before, h);
    SameZerosTrans(h, before, h0);
  }
}
