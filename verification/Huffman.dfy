/**
  Huffman trees on values: the forest of the two queues of huffman_tree in
  lib/nx_dhtgen.c, and what the greedy choice of the two lightest roots gives.
  */
module Huffman {
  import opened Sequences
  import opened Bits

  /** leaf_node_t. */
  datatype Item = Item(symbol: nat, count: nat)

  datatype HTree = Leaf(item: Item) | Node(left: HTree, right: HTree)

  function Weight(t: HTree): nat {
    match t
    case Leaf(i) => i.count
    case Node(l, r) => Weight(l) + Weight(r)
  }

  function Height(t: HTree): nat {
    match t
    case Leaf(_) => 0
    case Node(l, r) => 1 + if Height(l) >= Height(r) then Height(l) else Height(r)
  }

  /** The leaves from left to right. */
  function Items(t: HTree): (s: seq<Item>)
    ensures s != []
  {
    match t
    case Leaf(i) => [i]
    case Node(l, r) => Items(l) + Items(r)
  }

  /** The depths of the leaves from left to right, when the root is at depth d. */
  function Depths(t: HTree, d: nat): (s: seq<nat>)
    ensures |s| == |Items(t)|
  {
    match t
    case Leaf(_) => [d]
    case Node(l, r) => Depths(l, d + 1) + Depths(r, d + 1)
  }

  /** The weight of the internal nodes: the sum of count times depth over the leaves. */
  function Cost(t: HTree): nat {
    match t
    case Leaf(_) => 0
    case Node(l, r) => Cost(l) + Cost(r) + Weight(t)
  }

  // ---------- Depth against weight ----------

  function Fib(n: nat): nat {
    if n < 2 then n else Fib(n - 1) + Fib(n - 2)
  }

  /** The children of t weigh at most w. */
  predicate Under(t: HTree, w: nat) {
    t.Node? ==> Weight(t.left) <= w && Weight(t.right) <= w
  }

  /** No child of a node outweighs the other child's sibling: the trace of greedy merging. */
  predicate Greedy(t: HTree) {
    match t
    case Leaf(i) => i.count >= 1
    case Node(l, r) => Greedy(l) && Greedy(r) && Under(l, Weight(r)) && Under(r, Weight(l))
  }

  lemma FibAdds(n: nat)
    ensures Fib(n + 2) == Fib(n + 1) + Fib(n)
  {
  }

  /** A greedy tree of height h weighs at least the Fibonacci number h + 2. */
  lemma {:induction false} DeepIsHeavy(t: HTree)
    requires Greedy(t)
    ensures Weight(t) >= Fib(Height(t) + 2)
    decreases t, 1
  {
    match t
    case Leaf(_) =>
    case Node(l, r) =>
      if Height(l) >= Height(r) { DeepIsHeavy(l); DeepIsHeavy(r); HeavyNode(l, r); }
      else { DeepIsHeavy(l); DeepIsHeavy(r); HeavyNode(r, l); }
  }

  /** The deeper part x and its sibling y, which no part of x outweighs. */
  lemma {:induction false} HeavyNode(x: HTree, y: HTree)
    requires Greedy(x) && Under(x, Weight(y))
    requires Weight(x) >= Fib(Height(x) + 2) && Weight(y) >= Fib(Height(y) + 2)
    ensures Weight(x) + Weight(y) >= Fib(Height(x) + 3)
    decreases x, 0
  {
    FibAdds(Height(x) + 1);
    if x.Node? {
      var c := if Height(x.left) >= Height(x.right) then x.left else x.right;
      DeepIsHeavy(c);
    } else {
      FibMono(2, Height(y) + 2);
    }
  }

  lemma {:induction false} FibMono(a: nat, b: nat)
    requires a <= b
    ensures Fib(a) <= Fib(b)
    decreases b
  {
    if a < b {
      FibMono(a, b - 1);
      FibStep(b - 1);
    }
  }

  lemma FibStep(n: nat)
    ensures Fib(n) <= Fib(n + 1)
  {
  }

  // ---------- The two queues ----------

  /** The leaf queue and the node queue. */
  datatype Forest = Forest(leaves: seq<Item>, nodes: seq<HTree>)

  function Size(f: Forest): nat {
    |f.leaves| + |f.nodes|
  }

  /** The leaf queue goes first when the counts are equal. */
  predicate FromLeaves(f: Forest)
    requires Size(f) > 0
  {
    f.nodes == [] || (f.leaves != [] && f.leaves[0].count <= Weight(f.nodes[0]))
  }

  function First(f: Forest): HTree
    requires Size(f) > 0
  {
    if FromLeaves(f) then Leaf(f.leaves[0]) else f.nodes[0]
  }

  function Rest(f: Forest): (g: Forest)
    requires Size(f) > 0
    ensures Size(g) == Size(f) - 1
  {
    if FromLeaves(f) then Forest(f.leaves[1..], f.nodes) else Forest(f.leaves, f.nodes[1..])
  }

  /** Merge the two lightest roots. */
  function Step(f: Forest): (g: Forest)
    requires Size(f) > 1
    ensures Size(g) == Size(f) - 1
  {
    var g := Rest(Rest(f));
    Forest(g.leaves, g.nodes + [Node(First(f), First(Rest(f)))])
  }

  function Build(f: Forest): HTree
    requires Size(f) > 0
    decreases Size(f)
  {
    if Size(f) == 1 then First(f) else Build(Step(f))
  }

  /** Roots in both queues are sorted, at least `floor`, and their children at most `floor`. */
  ghost predicate Ordered(f: Forest, floor: nat) {
    && (forall i :: 0 <= i < |f.leaves| ==> f.leaves[i].count >= floor && f.leaves[i].count >= 1)
    && (forall i, j :: 0 <= i < j < |f.leaves| ==> f.leaves[i].count <= f.leaves[j].count)
    && (forall i :: 0 <= i < |f.nodes| ==>
          Weight(f.nodes[i]) >= floor && Under(f.nodes[i], floor) && Greedy(f.nodes[i]) && f.nodes[i].Node?)
    && (forall i, j :: 0 <= i < j < |f.nodes| ==> Weight(f.nodes[i]) <= Weight(f.nodes[j]))
  }

  /** The first root is the lightest. */
  lemma TakeFirst(f: Forest, floor: nat)
    requires Ordered(f, floor) && Size(f) > 0
    ensures Weight(First(f)) >= floor && Under(First(f), floor) && Greedy(First(f))
    ensures Ordered(Rest(f), floor)
    ensures forall i :: 0 <= i < |Rest(f).leaves| ==> Rest(f).leaves[i].count >= Weight(First(f))
    ensures forall i :: 0 <= i < |Rest(f).nodes| ==> Weight(Rest(f).nodes[i]) >= Weight(First(f))
  {
  }

  lemma NodeIsGreedy(a: HTree, b: HTree, floor: nat)
    requires Greedy(a) && Greedy(b) && Under(a, floor) && Under(b, floor) && floor <= Weight(a) <= Weight(b)
    ensures Greedy(Node(a, b)) && Under(Node(a, b), Weight(b)) && Weight(Node(a, b)) == Weight(a) + Weight(b)
  {
  }

  lemma UnderWeighs(t: HTree, floor: nat, w: nat)
    requires t.Node? && Under(t, floor) && floor <= w
    ensures Weight(t) <= 2 * floor && Under(t, w)
  {
  }

  /** A node made of two roots lighter than the rest goes to the end of its queue. */
  lemma QueueNode(g: Forest, floor: nat, a: HTree, b: HTree)
    requires Ordered(g, floor)
    requires Greedy(a) && Greedy(b) && Under(a, floor) && Under(b, floor)
    requires floor <= Weight(a) <= Weight(b)
    requires forall i :: 0 <= i < |g.leaves| ==> g.leaves[i].count >= Weight(b)
    requires forall i :: 0 <= i < |g.nodes| ==> Weight(g.nodes[i]) >= Weight(b)
    ensures forall i :: 0 <= i < |g.nodes| ==> Weight(g.nodes[i]) <= Weight(a) + Weight(b)
    ensures Ordered(Forest(g.leaves, g.nodes + [Node(a, b)]), Weight(b))
  {
    hide Greedy, Weight, Under;
    NodeIsGreedy(a, b, floor);
    forall i | 0 <= i < |g.nodes|
      ensures Weight(g.nodes[i]) <= Weight(a) + Weight(b) && Under(g.nodes[i], Weight(b))
    {
      UnderWeighs(g.nodes[i], floor, Weight(b));
    }
  }

  /** Both queues stay sorted. */
  lemma StepOrdered(f: Forest, floor: nat)
    requires Ordered(f, floor) && Size(f) > 1
    ensures Weight(First(f)) <= Weight(First(Rest(f)))
    ensures Ordered(Step(f), Weight(First(Rest(f))))
    ensures forall i :: 0 <= i < |Rest(Rest(f)).nodes| ==>
      Weight(Rest(Rest(f)).nodes[i]) <= Weight(First(f)) + Weight(First(Rest(f)))
  {
    var f1 := Rest(f);
    TakeFirst(f, floor);
    TakeFirst(f1, floor);
    QueueNode(Rest(f1), floor, First(f), First(f1));
  }

  lemma {:induction false} BuildGreedy(f: Forest, floor: nat)
    requires Ordered(f, floor) && Size(f) > 0
    ensures Greedy(Build(f))
    decreases Size(f)
  {
    if Size(f) == 1 {
      TakeFirst(f, floor);
    } else {
      StepOrdered(f, floor);
      BuildGreedy(Step(f), Weight(First(Rest(f))));
    }
  }

  // ---------- No leaf is lost ----------

  function NodeItems(ts: seq<HTree>): seq<Item> {
    if ts == [] then [] else Items(ts[0]) + NodeItems(ts[1..])
  }

  /** All the leaves of the forest. */
  function ForestItems(f: Forest): multiset<Item> {
    multiset(f.leaves) + multiset(NodeItems(f.nodes))
  }

  lemma {:induction false} NodeItemsAppend(ts: seq<HTree>, t: HTree)
    ensures NodeItems(ts + [t]) == NodeItems(ts) + Items(t)
    decreases |ts|
  {
    if ts == [] {
      assert ts + [t] == [t] && [t][1..] == [];
      assert Items(t) + [] == Items(t) && [] + Items(t) == Items(t);
    } else {
      NodeItemsAppend(ts[1..], t);
      assert (ts + [t])[1..] == ts[1..] + [t] && (ts + [t])[0] == ts[0];
      Assoc(Items(ts[0]), NodeItems(ts[1..]), Items(t));
    }
  }

  lemma NodeItemsSnoc(ts: seq<HTree>, t: HTree)
    ensures multiset(NodeItems(ts + [t])) == multiset(NodeItems(ts)) + multiset(Items(t))
  {
    NodeItemsAppend(ts, t);
  }

  lemma TakeItems(f: Forest)
    requires Size(f) > 0
    ensures ForestItems(f) == multiset(Items(First(f))) + ForestItems(Rest(f))
  {
    if FromLeaves(f) {
      assert f.leaves == [f.leaves[0]] + f.leaves[1..];
    }
  }

  lemma {:induction false} BuildItems(f: Forest)
    requires Size(f) > 0
    ensures multiset(Items(Build(f))) == ForestItems(f)
    decreases Size(f)
  {
    TakeItems(f);
    if Size(f) == 1 {
      assert Rest(f) == Forest([], []);
    } else {
      var g := Rest(Rest(f));
      TakeItems(Rest(f));
      NodeItemsSnoc(g.nodes, Node(First(f), First(Rest(f))));
      BuildItems(Step(f));
    }
  }

  // ---------- Cost ----------

  predicate Sorted(ws: seq<nat>) {
    forall i, j :: 0 <= i < j < |ws| ==> ws[i] <= ws[j]
  }

  function Merge(xs: seq<nat>, ys: seq<nat>): (zs: seq<nat>)
    ensures |zs| == |xs| + |ys|
  {
    if xs == [] then ys
    else if ys == [] || xs[0] <= ys[0] then [xs[0]] + Merge(xs[1..], ys)
    else [ys[0]] + Merge(xs, ys[1..])
  }

  function Insert(v: nat, ws: seq<nat>): (r: seq<nat>)
    ensures |r| == |ws| + 1
  {
    if ws == [] || v < ws[0] then [v] + ws else [ws[0]] + Insert(v, ws[1..])
  }

  /** The cost of merging the two lightest weights until one is left. */
  function HuffCost(ws: seq<nat>): nat
    decreases |ws|
  {
    if |ws| <= 1 then 0 else ws[0] + ws[1] + HuffCost(Insert(ws[0] + ws[1], ws[2..]))
  }

  function Counts(xs: seq<Item>): (s: seq<nat>)
    ensures |s| == |xs|
    ensures forall i :: 0 <= i < |xs| ==> s[i] == xs[i].count
  {
    seq(|xs|, i requires 0 <= i < |xs| => xs[i].count)
  }

  function Weights(ts: seq<HTree>): (s: seq<nat>)
    ensures |s| == |ts|
    ensures forall i :: 0 <= i < |ts| ==> s[i] == Weight(ts[i])
  {
    seq(|ts|, i requires 0 <= i < |ts| => Weight(ts[i]))
  }

  /** The weights of the roots in the order in which they will be taken. */
  function RootWeights(f: Forest): (s: seq<nat>)
    ensures |s| == Size(f)
  {
    Merge(Counts(f.leaves), Weights(f.nodes))
  }

  lemma TakeWeights(f: Forest)
    requires Size(f) > 0
    ensures RootWeights(f) == [Weight(First(f))] + RootWeights(Rest(f))
  {
    if f.leaves != [] { assert Counts(f.leaves)[1..] == Counts(f.leaves[1..]); }
    if f.nodes != [] { assert Weights(f.nodes)[1..] == Weights(f.nodes[1..]); }
    if f.leaves == [] {
      assert Merge([], Weights(f.nodes)) == [Weights(f.nodes)[0]] + Weights(f.nodes)[1..];
    }
  }

  /** Queueing a weight no lighter than the queue inserts it. */
  lemma {:induction false} MergeSnoc(xs: seq<nat>, ys: seq<nat>, v: nat)
    requires forall i :: 0 <= i < |ys| ==> ys[i] <= v
    ensures Merge(xs, ys + [v]) == Insert(v, Merge(xs, ys))
    decreases |xs| + |ys|
  {
    if xs == [] {
      InsertLast(ys, v);
    } else if ys == [] {
      assert ys + [v] == [v];
      if xs[0] <= v { MergeSnoc(xs[1..], ys, v); } else { MergeNone(xs); }
    } else if xs[0] <= ys[0] {
      MergeSnoc(xs[1..], ys, v);
    } else {
      assert (ys + [v])[1..] == ys[1..] + [v];
      MergeSnoc(xs, ys[1..], v);
    }
  }

  lemma {:induction false} MergeNone(xs: seq<nat>)
    ensures Merge(xs, []) == xs
    decreases |xs|
  {
    if xs != [] { MergeNone(xs[1..]); }
  }

  lemma {:induction false} InsertLast(ys: seq<nat>, v: nat)
    requires forall i :: 0 <= i < |ys| ==> ys[i] <= v
    ensures Insert(v, ys) == ys + [v]
    decreases |ys|
  {
    if ys != [] { InsertLast(ys[1..], v); }
  }

  function NodeCosts(ts: seq<HTree>): nat {
    if ts == [] then 0 else Cost(ts[0]) + NodeCosts(ts[1..])
  }

  lemma {:induction false} NodeCostsSnoc(ts: seq<HTree>, t: HTree)
    ensures NodeCosts(ts + [t]) == NodeCosts(ts) + Cost(t)
    decreases |ts|
  {
    if ts == [] {
      assert ts + [t] == [t] && NodeCosts([t]) == Cost(t) + NodeCosts([]);
    } else {
      NodeCostsSnoc(ts[1..], t);
      assert (ts + [t])[1..] == ts[1..] + [t];
    }
  }

  lemma TakeCosts(f: Forest)
    requires Size(f) > 0
    ensures NodeCosts(f.nodes) == Cost(First(f)) + NodeCosts(Rest(f).nodes)
  {
  }

  /** One step of the queues is one step of the greedy merge. */
  lemma StepWeights(f: Forest, floor: nat)
    requires Ordered(f, floor) && Size(f) > 1
    ensures var ws := RootWeights(f);
      && ws[0] == Weight(First(f)) && ws[1] == Weight(First(Rest(f)))
      && RootWeights(Step(f)) == Insert(ws[0] + ws[1], ws[2..])
  {
    var a, b, g := First(f), First(Rest(f)), Rest(Rest(f));
    var v := Weight(a) + Weight(b);
    StepOrdered(f, floor);
    TakeWeights(f);
    TakeWeights(Rest(f));
    assert RootWeights(f)[2..] == RootWeights(g);
    assert Weights(g.nodes + [Node(a, b)]) == Weights(g.nodes) + [v];
    MergeSnoc(Counts(g.leaves), Weights(g.nodes), v);
  }

  lemma StepCost(f: Forest)
    requires Size(f) > 1
    ensures NodeCosts(Step(f).nodes)
         == NodeCosts(f.nodes) + Weight(First(f)) + Weight(First(Rest(f)))
  {
    TakeCosts(f);
    TakeCosts(Rest(f));
    NodeCostsSnoc(Rest(Rest(f)).nodes, Node(First(f), First(Rest(f))));
  }

  lemma {:induction false} BuildCost(f: Forest, floor: nat)
    requires Ordered(f, floor) && Size(f) > 0
    ensures Cost(Build(f)) == NodeCosts(f.nodes) + HuffCost(RootWeights(f))
    decreases Size(f)
  {
    if Size(f) == 1 {
      TakeCosts(f);
    } else {
      StepCost(f);
      StepWeights(f, floor);
      StepOrdered(f, floor);
      BuildCost(Step(f), Weight(First(Rest(f))));
    }
  }
}
