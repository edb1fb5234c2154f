/**
  From counts to code lengths: the sorted leaf queue of huffman_tree, the tree
  that is built from it, and the lengths that tree_walk reads off.
  */
module HuffmanLengths {
  import opened Bits
  import opened Canonical
  import opened Huffman
  import opened HuffmanOptimal

  const INT_MAX := 0x7fff_ffff

  // ---------- Sums over leaves ----------

  function Sum(xs: seq<Item>, f: Item -> nat): nat {
    if xs == [] then 0 else f(xs[0]) + Sum(xs[1..], f)
  }

  lemma {:induction false} SumAppend(xs: seq<Item>, ys: seq<Item>, f: Item -> nat)
    ensures Sum(xs + ys, f) == Sum(xs, f) + Sum(ys, f)
    decreases |xs|
  {
    if xs == [] {
      assert xs + ys == ys;
    } else {
      SumAppend(xs[1..], ys, f);
      assert (xs + ys)[1..] == xs[1..] + ys;
    }
  }

  /** A sum does not depend on the order. */
  lemma {:induction false} SumPerm(xs: seq<Item>, ys: seq<Item>, f: Item -> nat)
    requires multiset(xs) == multiset(ys)
    ensures Sum(xs, f) == Sum(ys, f)
    decreases |xs|
  {
    assert |xs| == |multiset(xs)| == |ys|;
    if xs != [] {
      var x := xs[0];
      assert xs == [x] + xs[1..];
      assert x in multiset(ys);
      var j :| 0 <= j < |ys| && ys[j] == x;
      var front, rear := ys[..j], ys[j + 1..];
      assert ys == front + ([x] + rear);
      assert multiset(front + rear) == multiset(ys) - multiset{x};
      SumPerm(xs[1..], front + rear, f);
      SumAppend(front, rear, f);
      SumAppend(front, [x] + rear, f);
      assert ([x] + rear)[1..] == rear;
    }
  }

  // ---------- The leaf queue ----------

  /** copy_hist_to_leaf_node. */
  function AllItems(hist: seq<nat>): (xs: seq<Item>)
    ensures |xs| == |hist|
    ensures forall i :: 0 <= i < |hist| ==> xs[i] == Item(i, hist[i])
  {
    seq(|hist|, i requires 0 <= i < |hist| => Item(i, hist[i]))
  }

  /** Zero counts sort as if infinite. */
  function Key(x: Item): nat {
    if x.count != 0 then x.count else INT_MAX
  }

  /** cmp_count: by count, then by symbol. */
  predicate Before(x: Item, y: Item) {
    Key(x) < Key(y) || (Key(x) == Key(y) && x.symbol < y.symbol)
  }

  function InsertItem(x: Item, xs: seq<Item>): (r: seq<Item>)
    ensures multiset(r) == multiset{x} + multiset(xs) && |r| == |xs| + 1
  {
    if xs == [] || Before(x, xs[0]) then [x] + xs
    else
      assert xs == [xs[0]] + xs[1..];
      [xs[0]] + InsertItem(x, xs[1..])
  }

  /** The items in the order of cmp_count. */
  function SortItems(xs: seq<Item>): (r: seq<Item>)
    ensures multiset(r) == multiset(xs) && |r| == |xs|
  {
    if xs == [] then []
    else
      assert xs == [xs[0]] + xs[1..];
      InsertItem(xs[0], SortItems(xs[1..]))
  }

  predicate SortedItems(xs: seq<Item>) {
    forall i, j :: 0 <= i < j < |xs| ==> Key(xs[i]) <= Key(xs[j])
  }

  lemma {:induction false} InsertKeepsSorted(x: Item, xs: seq<Item>)
    requires SortedItems(xs)
    ensures SortedItems(InsertItem(x, xs))
    ensures xs != [] ==> Key(InsertItem(x, xs)[0]) == if Before(x, xs[0]) then Key(x) else Key(xs[0])
    decreases |xs|
  {
    if xs != [] && !Before(x, xs[0]) {
      InsertKeepsSorted(x, xs[1..]);
      var r := InsertItem(x, xs[1..]);
      assert forall j :: 0 <= j < |r| ==> Key(r[0]) <= Key(r[j]);
    }
  }

  lemma {:induction false} SortIsSorted(xs: seq<Item>)
    ensures SortedItems(SortItems(xs))
    decreases |xs|
  {
    if xs != [] {
      SortIsSorted(xs[1..]);
      InsertKeepsSorted(xs[0], SortItems(xs[1..]));
    }
  }

  /** No symbol occurs twice. */
  predicate Distinct(xs: seq<Item>) {
    forall i, j :: 0 <= i < j < |xs| ==> xs[i].symbol != xs[j].symbol
  }

  /** What a sort by cmp_count leaves. */
  predicate InOrder(xs: seq<Item>) {
    forall i, j :: 0 <= i < j < |xs| ==> Before(xs[i], xs[j])
  }

  predicate NewSymbol(x: Item, xs: seq<Item>) {
    forall i :: 0 <= i < |xs| ==> xs[i].symbol != x.symbol
  }

  lemma SameSymbols(x: Item, xs: seq<Item>, ys: seq<Item>)
    requires multiset(xs) == multiset(ys) && NewSymbol(x, xs)
    ensures NewSymbol(x, ys)
  {
    forall i | 0 <= i < |ys| ensures ys[i].symbol != x.symbol {
      assert ys[i] in multiset(xs);
    }
  }

  lemma {:induction false} InsertInOrder(x: Item, xs: seq<Item>)
    requires InOrder(xs) && NewSymbol(x, xs)
    ensures InOrder(InsertItem(x, xs))
    ensures xs != [] ==> InsertItem(x, xs)[0] == if Before(x, xs[0]) then x else xs[0]
    decreases |xs|
  {
    if xs != [] && !Before(x, xs[0]) {
      var r := InsertItem(x, xs[1..]);
      InsertInOrder(x, xs[1..]);
      forall j | 0 <= j < |r| ensures Before(xs[0], r[j]) {
        assert r[j] in multiset(r);
        assert r[j] == x || r[j] in xs[1..];
      }
    }
  }

  lemma {:induction false} SortInOrder(xs: seq<Item>)
    requires Distinct(xs)
    ensures InOrder(SortItems(xs))
    decreases |xs|
  {
    if xs != [] {
      SortInOrder(xs[1..]);
      SameSymbols(xs[0], xs[1..], SortItems(xs[1..]));
      InsertInOrder(xs[0], SortItems(xs[1..]));
    }
  }

  lemma SameFirst(xs: seq<Item>, ys: seq<Item>)
    requires multiset(xs) == multiset(ys) && InOrder(xs) && InOrder(ys) && xs != []
    ensures ys != [] && xs[0] == ys[0]
  {
    assert xs[0] in multiset(ys);
    assert ys[0] in multiset(xs);
  }

  lemma {:induction false} OneOrder(xs: seq<Item>, ys: seq<Item>)
    requires multiset(xs) == multiset(ys) && InOrder(xs) && InOrder(ys)
    ensures xs == ys
    decreases |xs|
  {
    assert |xs| == |multiset(xs)| == |ys|;
    if xs != [] {
      SameFirst(xs, ys);
      assert xs == [xs[0]] + xs[1..] && ys == [ys[0]] + ys[1..];
      assert multiset(xs[1..]) == multiset(xs) - multiset{xs[0]};
      OneOrder(xs[1..], ys[1..]);
    }
  }

  /** Symbols are distinct, so there is only one way to sort, whatever the algorithm. */
  lemma SortIsUnique(xs: seq<Item>, ys: seq<Item>)
    requires Distinct(xs) && multiset(ys) == multiset(xs) && InOrder(ys)
    ensures ys == SortItems(xs)
  {
    SortInOrder(xs);
    OneOrder(ys, SortItems(xs));
  }

  function IsUsed(x: Item): nat {
    if x.count != 0 then 1 else 0
  }

  /** Number of nonzero counts. */
  function Used(hist: seq<nat>): nat {
    Sum(AllItems(hist), IsUsed)
  }

  predicate Countable(xs: seq<Item>) {
    forall i :: 0 <= i < |xs| ==> xs[i].count < INT_MAX
  }

  /** In sorted order the nonzero counts come first. */
  lemma {:induction false} UsedFirst(xs: seq<Item>)
    requires SortedItems(xs) && Countable(xs)
    ensures Sum(xs, IsUsed) <= |xs|
    ensures forall i :: 0 <= i < |xs| ==> (xs[i].count != 0 <==> i < Sum(xs, IsUsed))
    decreases |xs|
  {
    if xs != [] {
      UsedFirst(xs[1..]);
      if xs[0].count == 0 && |xs| > 1 {
        assert Key(xs[1]) >= INT_MAX;
      }
    }
  }

  predicate Small(hist: seq<nat>) {
    forall i :: 0 <= i < |hist| ==> hist[i] < INT_MAX
  }

  lemma CountableSort(hist: seq<nat>)
    requires Small(hist)
    ensures Countable(SortItems(AllItems(hist)))
    ensures Sum(SortItems(AllItems(hist)), IsUsed) == Used(hist) <= |hist|
  {
    var xs, s := AllItems(hist), SortItems(AllItems(hist));
    forall i | 0 <= i < |s| ensures s[i].count < INT_MAX {
      assert s[i] in multiset(s);
      assert s[i] in xs;
    }
    SumPerm(s, xs, IsUsed);
    SortIsSorted(xs);
    UsedFirst(s);
  }

  /** The leaf queue: the nonzero counts in ascending order. */
  function LeafQueue(hist: seq<nat>): (q: seq<Item>)
    requires Small(hist)
    ensures |q| == Used(hist)
  {
    CountableSort(hist);
    SortItems(AllItems(hist))[..Used(hist)]
  }

  function Unused(hist: seq<nat>): (q: seq<Item>)
    requires Small(hist)
  {
    CountableSort(hist);
    SortItems(AllItems(hist))[Used(hist)..]
  }

  lemma SplitSorted(s: seq<Item>, n: nat)
    requires SortedItems(s) && n <= |s|
    requires forall i :: 0 <= i < |s| ==> (s[i].count != 0 <==> i < n)
    ensures forall i :: 0 <= i < n ==> s[..n][i].count >= 1
    ensures Sorted(Counts(s[..n]))
    ensures forall i :: 0 <= i < |s| - n ==> s[n..][i].count == 0
    ensures multiset(s) == multiset(s[..n]) + multiset(s[n..])
  {
    forall i, j | 0 <= i < j < n ensures Counts(s[..n])[i] <= Counts(s[..n])[j] {
      assert Key(s[i]) <= Key(s[j]);
    }
    assert s == s[..n] + s[n..];
  }

  lemma QueueFacts(hist: seq<nat>)
    requires Small(hist)
    ensures forall i :: 0 <= i < |LeafQueue(hist)| ==> LeafQueue(hist)[i].count >= 1
    ensures Sorted(Counts(LeafQueue(hist)))
    ensures forall i :: 0 <= i < |Unused(hist)| ==> Unused(hist)[i].count == 0
    ensures multiset(AllItems(hist)) == multiset(LeafQueue(hist)) + multiset(Unused(hist))
  {
    var s := SortItems(AllItems(hist));
    CountableSort(hist);
    SortIsSorted(AllItems(hist));
    UsedFirst(s);
    SplitSorted(s, Used(hist));
  }

  /** Symbols with a nonzero count, once each, are the leaves of the queue. */
  lemma QueueMembers(hist: seq<nat>, x: Item)
    requires Small(hist)
    ensures multiset(LeafQueue(hist))[x]
         == if x.symbol < |hist| && x.count == hist[x.symbol] && x.count > 0 then 1 else 0
  {
    QueueFacts(hist);
    ItemOnce(hist, x);
    var q, u := LeafQueue(hist), Unused(hist);
    if x in q { var i :| 0 <= i < |q| && q[i] == x; }
    if x in u { var i :| 0 <= i < |u| && u[i] == x; }
  }

  lemma {:induction false} ItemOnce(hist: seq<nat>, x: Item)
    ensures multiset(AllItems(hist))[x] == if x.symbol < |hist| && x.count == hist[x.symbol] then 1 else 0
    decreases |hist|
  {
    if hist != [] {
      var n := |hist| - 1;
      ItemOnce(hist[..n], x);
      assert AllItems(hist) == AllItems(hist[..n]) + [Item(n, hist[n])];
    }
  }

  // ---------- The tree and the lengths ----------

  /** The tree that huffman_tree builds. */
  function TreeOf(hist: seq<nat>): HTree
    requires Small(hist) && Used(hist) >= 1
  {
    Build(Forest(LeafQueue(hist), []))
  }

  lemma TreeFacts(hist: seq<nat>)
    requires Small(hist) && Used(hist) >= 1
    ensures Greedy(TreeOf(hist))
    ensures multiset(Items(TreeOf(hist))) == multiset(LeafQueue(hist))
    ensures Cost(TreeOf(hist)) == HuffCost(Counts(LeafQueue(hist)))
  {
    var q := LeafQueue(hist);
    var f := Forest(q, []);
    QueueFacts(hist);
    assert forall i, j :: 0 <= i < j < |q| ==> Counts(q)[i] <= Counts(q)[j];
    assert Ordered(f, 0);
    BuildGreedy(f, 0);
    BuildItems(f);
    BuildCost(f, 0);
    MergeNone(Counts(q));
  }

  lemma DistinctLeaves(hist: seq<nat>, xs: seq<Item>)
    requires Small(hist) && multiset(xs) == multiset(LeafQueue(hist))
    ensures Distinct(xs)
    ensures forall i :: 0 <= i < |xs| ==> xs[i].symbol < |hist| && hist[xs[i].symbol] == xs[i].count > 0
  {
    forall i | 0 <= i < |xs| ensures xs[i].symbol < |hist| && hist[xs[i].symbol] == xs[i].count > 0 {
      assert xs[i] in multiset(xs);
      QueueMembers(hist, xs[i]);
    }
    forall i, j | 0 <= i < j < |xs| ensures xs[i].symbol != xs[j].symbol {
      if xs[i] == xs[j] {
        assert xs == xs[..i] + ([xs[i]] + (xs[i + 1..j] + ([xs[j]] + xs[j + 1..])));
        assert multiset(xs)[xs[i]] >= 2;
        QueueMembers(hist, xs[i]);
      }
    }
  }

  /** tree_walk counts depths up to 31. */
  function Deeper(d: nat): nat {
    if d < 31 then d + 1 else 31
  }

  predicate SymbolsBelow(t: HTree, n: nat) {
    match t
    case Leaf(i) => i.symbol < n
    case Node(l, r) => SymbolsBelow(l, n) && SymbolsBelow(r, n)
  }

  /** What tree_walk writes when the root of t is at depth d. */
  function Assign(t: HTree, d: nat, a: seq<nat>): (b: seq<nat>)
    requires SymbolsBelow(t, |a|)
    ensures |b| == |a|
  {
    match t
    case Leaf(i) => a[i.symbol := d]
    case Node(l, r) => Assign(r, Deeper(d), Assign(l, Deeper(d), a))
  }

  /** The lengths at the symbols of t are the depths of its leaves. */
  ghost predicate Agrees(t: HTree, d: nat, lens: seq<nat>) {
    forall k :: 0 <= k < |Items(t)| ==>
      Items(t)[k].symbol < |lens| && lens[Items(t)[k].symbol] == Depths(t, d)[k]
  }

  function Symbols(t: HTree): set<nat> {
    match t
    case Leaf(i) => {i.symbol}
    case Node(l, r) => Symbols(l) + Symbols(r)
  }

  ghost predicate HasSymbol(xs: seq<Item>, s: nat) {
    exists k :: 0 <= k < |xs| && xs[k].symbol == s
  }

  lemma HasEither(x: seq<Item>, y: seq<Item>, s: nat)
    ensures HasSymbol(x + y, s) <==> HasSymbol(x, s) || HasSymbol(y, s)
  {
    var xs := x + y;
    if HasSymbol(xs, s) {
      var k :| 0 <= k < |xs| && xs[k].symbol == s;
      if k < |x| { assert x[k].symbol == s; } else { assert y[k - |x|].symbol == s; }
    }
    if HasSymbol(x, s) {
      var k :| 0 <= k < |x| && x[k].symbol == s;
      assert xs[k].symbol == s;
    }
    if HasSymbol(y, s) {
      var k :| 0 <= k < |y| && y[k].symbol == s;
      assert xs[|x| + k].symbol == s;
    }
  }

  lemma {:induction false} SymbolIsItem(t: HTree, s: nat)
    ensures s in Symbols(t) <==> HasSymbol(Items(t), s)
    decreases t
  {
    match t
    case Leaf(i) => assert Items(t)[0] == i;
    case Node(l, r) =>
      SymbolIsItem(l, s);
      SymbolIsItem(r, s);
      HasEither(Items(l), Items(r), s);
  }

  lemma SymbolsAreItems(t: HTree)
    ensures forall k :: 0 <= k < |Items(t)| ==> Items(t)[k].symbol in Symbols(t)
    ensures forall s :: s in Symbols(t) ==> HasSymbol(Items(t), s)
  {
    forall s: nat ensures s in Symbols(t) <==> HasSymbol(Items(t), s) { SymbolIsItem(t, s); }
    forall k | 0 <= k < |Items(t)| ensures Items(t)[k].symbol in Symbols(t) {
      assert HasSymbol(Items(t), Items(t)[k].symbol);
    }
  }

  /** b differs from a at the symbols of t only. */
  ghost predicate Elsewhere(t: HTree, a: seq<nat>, b: seq<nat>) {
    |a| == |b| && forall s :: 0 <= s < |a| && s !in Symbols(t) ==> a[s] == b[s]
  }

  lemma DistinctParts(l: HTree, r: HTree)
    requires Distinct(Items(Node(l, r)))
    ensures Distinct(Items(l)) && Distinct(Items(r))
    ensures forall s :: s in Symbols(l) ==> s !in Symbols(r)
  {
    PartsDistinct(Items(l), Items(r));
    forall s | s in Symbols(l) ensures s !in Symbols(r) {
      SymbolIsItem(l, s);
      SymbolIsItem(r, s);
    }
  }

  lemma PartsDistinct(x: seq<Item>, y: seq<Item>)
    requires Distinct(x + y)
    ensures Distinct(x) && Distinct(y) && forall s :: HasSymbol(x, s) ==> !HasSymbol(y, s)
  {
    var xs := x + y;
    assert forall i :: 0 <= i < |x| ==> x[i] == xs[i];
    assert forall j :: 0 <= j < |y| ==> y[j] == xs[|x| + j];
  }

  /** Below saturation tree_walk writes exactly the depths. */
  lemma {:induction false} AssignAgrees(t: HTree, d: nat, a: seq<nat>)
    requires SymbolsBelow(t, |a|) && Distinct(Items(t)) && d + Height(t) <= 31
    ensures Agrees(t, d, Assign(t, d, a)) && Elsewhere(t, a, Assign(t, d, a))
    decreases t
  {
    match t
    case Leaf(_) =>
    case Node(l, r) =>
      DistinctParts(l, r);
      var b := Assign(l, d + 1, a);
      AssignAgrees(l, d + 1, a);
      AssignAgrees(r, d + 1, b);
      var c := Assign(r, d + 1, b);
      StillAgrees(l, r, d + 1, b, c);
      JoinAgrees(l, r, d, c);
  }

  lemma StillAgrees(l: HTree, r: HTree, d: nat, b: seq<nat>, c: seq<nat>)
    requires Agrees(l, d, b) && Elsewhere(r, b, c)
    requires forall s :: s in Symbols(l) ==> s !in Symbols(r)
    ensures Agrees(l, d, c)
  {
    SymbolsAreItems(l);
    var x := Items(l);
    forall i | 0 <= i < |x| ensures x[i].symbol < |c| && c[x[i].symbol] == Depths(l, d)[i] {
      assert x[i].symbol in Symbols(l) && b[x[i].symbol] == Depths(l, d)[i];
    }
  }

  lemma JoinAgrees(l: HTree, r: HTree, d: nat, c: seq<nat>)
    requires Agrees(l, d + 1, c) && Agrees(r, d + 1, c)
    ensures Agrees(Node(l, r), d, c)
  {
    var x, xs, ds := Items(l), Items(Node(l, r)), Depths(Node(l, r), d);
    forall k | 0 <= k < |xs| ensures xs[k].symbol < |c| && c[xs[k].symbol] == ds[k] {
      if k < |x| {
        assert xs[k] == x[k] && ds[k] == Depths(l, d + 1)[k];
      } else {
        assert xs[k] == Items(r)[k - |x|] && ds[k] == Depths(r, d + 1)[k - |x|];
      }
    }
  }

  // ---------- What the lengths satisfy ----------

  /** lens are the depths of the tree of hist, and 0 for the zero counts. */
  ghost predicate LengthsOf(hist: seq<nat>, lens: seq<nat>)
    requires Small(hist) && Used(hist) >= 1
  {
    && |lens| == |hist| && Agrees(TreeOf(hist), 0, lens)
    && forall s :: 0 <= s < |hist| && hist[s] == 0 ==> lens[s] == 0
  }

  lemma {:induction false} DepthRange(t: HTree, d: nat)
    ensures forall k :: 0 <= k < |Items(t)| ==> d <= Depths(t, d)[k] <= d + Height(t)
    ensures t.Node? ==> forall k :: 0 <= k < |Items(t)| ==> d < Depths(t, d)[k]
    decreases t
  {
    match t
    case Leaf(_) =>
    case Node(l, r) =>
      DepthRange(l, d + 1);
      DepthRange(r, d + 1);
  }

  /** A symbol has a code exactly when its count is not zero. */
  lemma UsedSymbols(hist: seq<nat>, lens: seq<nat>, s: nat)
    requires Small(hist) && Used(hist) >= 2 && LengthsOf(hist, lens) && s < |hist|
    ensures lens[s] > 0 <==> hist[s] > 0
    ensures lens[s] <= Height(TreeOf(hist))
  {
    var t := TreeOf(hist);
    TreeFacts(hist);
    DepthRange(t, 0);
    if hist[s] > 0 {
      var x := Item(s, hist[s]);
      QueueMembers(hist, x);
      assert x in multiset(Items(t));
      assert x in Items(t);
      var k :| 0 <= k < |Items(t)| && Items(t)[k] == x;
      assert lens[x.symbol] == Depths(t, 0)[k];
      assert |Items(t)| == |multiset(Items(t))| == |multiset(LeafQueue(hist))| == Used(hist);
      assert t.Node?;
    }
  }

  /** The contribution of a symbol to the Kraft sum. */
  function KraftTerm(lens: seq<nat>, m: nat): Item -> nat {
    (x: Item) => if x.symbol < |lens| && 0 < lens[x.symbol] <= m then Pow2(m - lens[x.symbol]) else 0
  }

  /** Its contribution to the number of coded bits. */
  function CostTerm(lens: seq<nat>): Item -> nat {
    (x: Item) => if x.symbol < |lens| then x.count * lens[x.symbol] else 0
  }

  lemma {:induction false} KraftOfTree(t: HTree, d: nat, lens: seq<nat>, m: nat)
    requires Agrees(t, d, lens) && d + Height(t) <= m && (d > 0 || t.Node?)
    ensures Sum(Items(t), KraftTerm(lens, m)) == Pow2(m - d)
    decreases t
  {
    match t
    case Leaf(i) =>
      assert lens[Items(t)[0].symbol] == d;
    case Node(l, r) =>
      hide KraftTerm, Agrees, Sum;
      AgreeParts(l, r, d, lens);
      KraftOfTree(l, d + 1, lens, m);
      KraftOfTree(r, d + 1, lens, m);
      SumAppend(Items(l), Items(r), KraftTerm(lens, m));
      assert Pow2(m - d) == 2 * Pow2(m - (d + 1));
  }

  lemma AgreeParts(l: HTree, r: HTree, d: nat, lens: seq<nat>)
    requires Agrees(Node(l, r), d, lens)
    ensures Agrees(l, d + 1, lens) && Agrees(r, d + 1, lens)
  {
    var x, y, t := Items(l), Items(r), Node(l, r);
    forall k | 0 <= k < |x| ensures x[k].symbol < |lens| && lens[x[k].symbol] == Depths(l, d + 1)[k] {
      assert Items(t)[k] == x[k] && Depths(t, d)[k] == Depths(l, d + 1)[k];
    }
    forall k | 0 <= k < |y| ensures y[k].symbol < |lens| && lens[y[k].symbol] == Depths(r, d + 1)[k] {
      assert Items(t)[|x| + k] == y[k] && Depths(t, d)[|x| + k] == Depths(r, d + 1)[k];
    }
  }

  lemma OneDeeper(d: nat, x: nat, y: nat)
    ensures (d + 1) * x + (d + 1) * y == d * (x + y) + x + y
  {
  }

  lemma {:induction false} CostOfTree(t: HTree, d: nat, lens: seq<nat>)
    requires Agrees(t, d, lens)
    ensures Sum(Items(t), CostTerm(lens)) == Cost(t) + d * Weight(t)
    decreases t
  {
    match t
    case Leaf(i) =>
      assert lens[Items(t)[0].symbol] == d;
    case Node(l, r) =>
      AgreeParts(l, r, d, lens);
      CostOfTree(l, d + 1, lens);
      CostOfTree(r, d + 1, lens);
      SumAppend(Items(l), Items(r), CostTerm(lens));
      OneDeeper(d, Weight(l), Weight(r));
  }

  // ---------- Sums over symbols ----------

  /** The number of bits that the counted symbols take. */
  function TotalBits(hist: seq<nat>, lens: seq<nat>): nat
    requires |hist| == |lens|
  {
    if hist == [] then 0
    else
      var n := |hist| - 1;
      TotalBits(hist[..n], lens[..n]) + hist[n] * lens[n]
  }

  lemma {:induction false} TotalIsSum(hist: seq<nat>, lens: seq<nat>, n: nat)
    requires n <= |hist| == |lens|
    ensures TotalBits(hist[..n], lens[..n]) == Sum(AllItems(hist)[..n], CostTerm(lens))
    decreases n
  {
    if n > 0 {
      var k, xs := n - 1, AllItems(hist);
      TotalIsSum(hist, lens, k);
      assert hist[..n][..k] == hist[..k] && lens[..n][..k] == lens[..k];
      SumSnoc(xs[..k], xs[k], CostTerm(lens));
      assert xs[..n] == xs[..k] + [xs[k]];
    }
  }

  lemma SumSnoc(xs: seq<Item>, x: Item, f: Item -> nat)
    ensures Sum(xs + [x], f) == Sum(xs, f) + f(x)
  {
    SumAppend(xs, [x], f);
    assert Sum([x], f) == f(x) + Sum([], f);
  }

  lemma {:induction false} KraftIsSum(hist: seq<nat>, lens: seq<nat>, m: nat, n: nat)
    requires n <= |hist| == |lens| && AtMost(lens, m)
    ensures KraftSum(lens[..n], m) == Sum(AllItems(hist)[..n], KraftTerm(lens, m))
    decreases n
  {
    if n > 0 {
      var k, xs := n - 1, AllItems(hist);
      KraftIsSum(hist, lens, m, k);
      assert lens[..n][..k] == lens[..k];
      SumSnoc(xs[..k], xs[k], KraftTerm(lens, m));
      assert xs[..n] == xs[..k] + [xs[k]];
    }
  }

  lemma {:induction false} ZeroSum(xs: seq<Item>, f: Item -> nat)
    requires forall i :: 0 <= i < |xs| ==> f(xs[i]) == 0
    ensures Sum(xs, f) == 0
    decreases |xs|
  {
    if xs != [] { ZeroSum(xs[1..], f); }
  }

  /** A sum to which zero counts add nothing runs over the leaves of the queue. */
  lemma SumOverUsed(hist: seq<nat>, f: Item -> nat)
    requires Small(hist)
    requires forall x: Item :: x.symbol < |hist| && x.count == hist[x.symbol] == 0 ==> f(x) == 0
    ensures Sum(AllItems(hist), f) == Sum(LeafQueue(hist), f)
  {
    var q, u := LeafQueue(hist), Unused(hist);
    QueueFacts(hist);
    forall i | 0 <= i < |u| ensures f(u[i]) == 0 {
      assert u[i] in multiset(u);
      ItemOnce(hist, u[i]);
    }
    ZeroSum(u, f);
    SumAppend(q, u, f);
    SumPerm(AllItems(hist), q + u, f);
  }

  lemma SumOverTree(hist: seq<nat>, f: Item -> nat)
    requires Small(hist) && Used(hist) >= 1
    requires forall x: Item :: x.symbol < |hist| && x.count == hist[x.symbol] == 0 ==> f(x) == 0
    ensures Sum(AllItems(hist), f) == Sum(Items(TreeOf(hist)), f)
  {
    SumOverUsed(hist, f);
    TreeFacts(hist);
    SumPerm(LeafQueue(hist), Items(TreeOf(hist)), f);
  }

  /** The code is complete: its Kraft sum is exactly 1. */
  lemma KraftIsOne(hist: seq<nat>, lens: seq<nat>, m: nat)
    requires Small(hist) && Used(hist) >= 2 && LengthsOf(hist, lens)
    requires Height(TreeOf(hist)) <= m
    ensures AtMost(lens, m) && KraftSum(lens, m) == Pow2(m)
  {
    hide TreeOf, Used, Sum, KraftSum, Items, Height, Pow2;
    forall s | 0 <= s < |lens| ensures lens[s] <= m { UsedSymbols(hist, lens, s); }
    KraftIsSum(hist, lens, m, |lens|);
    assert lens[..|lens|] == lens && AllItems(hist)[..|lens|] == AllItems(hist);
    SumOverTree(hist, KraftTerm(lens, m));
    RootIsNode(hist);
    KraftOfTree(TreeOf(hist), 0, lens, m);
  }

  lemma RootIsNode(hist: seq<nat>)
    requires Small(hist) && Used(hist) >= 2
    ensures TreeOf(hist).Node?
  {
    TreeFacts(hist);
    var xs := Items(TreeOf(hist));
    assert |xs| == |multiset(xs)| == |multiset(LeafQueue(hist))| == Used(hist);
  }

  /** The bits taken are the cost of the greedy merge of the counts. */
  lemma BitsTaken(hist: seq<nat>, lens: seq<nat>)
    requires Small(hist) && Used(hist) >= 1 && LengthsOf(hist, lens)
    ensures TotalBits(hist, lens) == HuffCost(Counts(LeafQueue(hist)))
  {
    TotalIsSum(hist, lens, |hist|);
    assert hist[..|hist|] == hist && lens[..|hist|] == lens && AllItems(hist)[..|hist|] == AllItems(hist);
    SumOverTree(hist, CostTerm(lens));
    CostOfTree(TreeOf(hist), 0, lens);
    TreeFacts(hist);
  }

  /** The codewords of used symbols: none starts another. */
  ghost predicate CodeFor(hist: seq<nat>, words: seq<seq<bool>>) {
    && |words| == |hist|
    && forall i, j :: 0 <= i < |hist| && 0 <= j < |hist| && i != j && hist[i] > 0 && hist[j] > 0
         ==> Apart(words[i], words[j])
  }

  function Lengths(words: seq<seq<bool>>): (s: seq<nat>)
    ensures |s| == |words|
    ensures forall i :: 0 <= i < |words| ==> s[i] == |words[i]|
  {
    seq(|words|, i requires 0 <= i < |words| => |words[i]|)
  }

  function QueueWords(q: seq<Item>, words: seq<seq<bool>>): (s: seq<seq<bool>>)
    requires forall i :: 0 <= i < |q| ==> q[i].symbol < |words|
    ensures |s| == |q|
    ensures forall i :: 0 <= i < |q| ==> s[i] == words[q[i].symbol]
  {
    seq(|q|, i requires 0 <= i < |q| => words[q[i].symbol])
  }

  lemma {:induction false} PairwiseIsPrefixCode(ws: seq<seq<bool>>)
    requires forall i, j :: 0 <= i < j < |ws| ==> Apart(ws[i], ws[j])
    ensures PrefixCode(ws)
    decreases |ws|
  {
    if ws != [] { PairwiseIsPrefixCode(ws[1..]); }
  }

  lemma {:induction false} DotIsSum(q: seq<Item>, words: seq<seq<bool>>)
    requires forall i :: 0 <= i < |q| ==> q[i].symbol < |words|
    ensures Dot(WithWords(Counts(q), QueueWords(q, words))) == Sum(q, CostTerm(Lengths(words)))
    decreases |q|
  {
    if q != [] {
      DotIsSum(q[1..], words);
      assert WithWords(Counts(q), QueueWords(q, words))[1..]
          == WithWords(Counts(q[1..]), QueueWords(q[1..], words));
    }
  }

  function MaxLength(words: seq<seq<bool>>): (m: nat)
    ensures forall i :: 0 <= i < |words| ==> |words[i]| <= m
  {
    if words == [] then 0
    else
      var m := MaxLength(words[1..]);
      if |words[0]| > m then |words[0]| else m
  }

  /**
    Optimality: no prefix-free code for the used symbols takes fewer bits than
    the lengths of the tree.
    */
  lemma CheapestCode(hist: seq<nat>, lens: seq<nat>, words: seq<seq<bool>>)
    requires Small(hist) && Used(hist) >= 1 && LengthsOf(hist, lens) && CodeFor(hist, words)
    ensures TotalBits(hist, lens) <= TotalBits(hist, Lengths(words))
  {
    hide Used, Sum;
    var q := LeafQueue(hist);
    BitsTaken(hist, lens);
    QueueFacts(hist);
    DistinctLeaves(hist, q);
    var qw := QueueWords(q, words);
    PairwiseIsPrefixCode(qw);
    BestPrefixCode(Counts(q), qw, MaxLength(qw));
    DotIsSum(q, words);
    TotalIsSum(hist, Lengths(words), |hist|);
    assert hist[..|hist|] == hist && Lengths(words)[..|hist|] == Lengths(words);
    assert AllItems(hist)[..|hist|] == AllItems(hist);
    SumOverUsed(hist, CostTerm(Lengths(words)));
  }

  // ---------- Weight against limit ----------

  function Total(hist: seq<nat>): nat {
    if hist == [] then 0 else Total(hist[..|hist| - 1]) + hist[|hist| - 1]
  }

  function CountTerm(x: Item): nat {
    x.count
  }

  lemma {:induction false} TotalIsCounts(hist: seq<nat>)
    ensures Total(hist) == Sum(AllItems(hist), CountTerm)
    decreases |hist|
  {
    if hist != [] {
      var k := |hist| - 1;
      TotalIsCounts(hist[..k]);
      SumSnoc(AllItems(hist[..k]), Item(k, hist[k]), CountTerm);
      assert AllItems(hist) == AllItems(hist[..k]) + [Item(k, hist[k])];
    }
  }

  lemma {:induction false} WeightIsSum(t: HTree)
    ensures Weight(t) == Sum(Items(t), CountTerm)
    decreases t
  {
    match t
    case Leaf(i) =>
      assert Sum([i], CountTerm) == CountTerm(i) + Sum([], CountTerm);
    case Node(l, r) =>
      WeightIsSum(l);
      WeightIsSum(r);
      SumAppend(Items(l), Items(r), CountTerm);
  }

  /** A tree of height h needs counts that add up to the Fibonacci number h + 2. */
  lemma HeightNeedsWeight(hist: seq<nat>)
    requires Small(hist) && Used(hist) >= 1
    ensures Fib(Height(TreeOf(hist)) + 2) <= Total(hist)
  {
    TreeFacts(hist);
    DeepIsHeavy(TreeOf(hist));
    WeightIsSum(TreeOf(hist));
    SumOverTree(hist, CountTerm);
    TotalIsCounts(hist);
  }

  /** Counts that add up to less than 2584 give lengths of at most 15. */
  lemma LightIsShallow(hist: seq<nat>)
    requires Small(hist) && Used(hist) >= 1
    ensures Total(hist) < 2584 ==> Height(TreeOf(hist)) <= 15
    ensures Total(hist) < 17711 ==> Height(TreeOf(hist)) <= 19
  {
    HeightNeedsWeight(hist);
    var h := Height(TreeOf(hist));
    FibValues();
    if h > 15 { FibMono(18, h + 2); }
    if h > 19 { FibMono(22, h + 2); }
  }

  lemma FibValues()
    ensures Fib(18) == 2584 && Fib(22) == 17711
  {
    assert Fib(8) == 21 && Fib(9) == 34;
    assert Fib(10) == 55 && Fib(11) == 89;
    assert Fib(12) == 144 && Fib(13) == 233;
    assert Fib(14) == 377 && Fib(15) == 610;
    assert Fib(16) == 987 && Fib(17) == 1597;
    assert Fib(18) == 2584 && Fib(19) == 4181;
    assert Fib(20) == 6765 && Fib(21) == 10946;
  }

  /** Histograms with the same zeros have the same number of used symbols. */
  lemma {:induction false} SameUsed(g: seq<nat>, h: seq<nat>)
    requires |g| == |h| && forall i :: 0 <= i < |g| ==> (g[i] == 0 <==> h[i] == 0)
    ensures Used(g) == Used(h)
    decreases |g|
  {
    if g != [] {
      var k := |g| - 1;
      SameUsed(g[..k], h[..k]);
      SumSnoc(AllItems(g[..k]), Item(k, g[k]), IsUsed);
      SumSnoc(AllItems(h[..k]), Item(k, h[k]), IsUsed);
      assert AllItems(g) == AllItems(g[..k]) + [Item(k, g[k])];
      assert AllItems(h) == AllItems(h[..k]) + [Item(k, h[k])];
    }
  }
}
