/**
  No prefix code is cheaper than the greedy merge: the optimality of Huffman's
  construction, over all code lengths that satisfy the Kraft inequality and
  over all prefix-free sets of codewords.
  */
module HuffmanOptimal {
  import opened Bits
  import opened Huffman

  /** A weight and the length of its codeword. */
  datatype P = P(w: nat, l: nat)

  /** The sum of weight times length. */
  function Dot(ps: seq<P>): nat {
    if ps == [] then 0 else ps[0].w * ps[0].l + Dot(ps[1..])
  }

  predicate Fits(ps: seq<P>, m: nat) {
    forall i :: 0 <= i < |ps| ==> ps[i].l <= m
  }

  /** The sum of 2^-length, in units of 2^-m. */
  function Kraft(ps: seq<P>, m: nat): nat
    requires Fits(ps, m)
  {
    if ps == [] then 0 else Pow2(m - ps[0].l) + Kraft(ps[1..], m)
  }

  function Ws(ps: seq<P>): (s: seq<nat>)
    ensures |s| == |ps|
    ensures forall i :: 0 <= i < |ps| ==> s[i] == ps[i].w
  {
    seq(|ps|, i requires 0 <= i < |ps| => ps[i].w)
  }

  /** How many codewords have length m. */
  function Longest(ps: seq<P>, m: nat): nat {
    if ps == [] then 0 else (if ps[0].l == m then 1 else 0) + Longest(ps[1..], m)
  }

  /** Every length cut down to m. */
  function Cap(ps: seq<P>, m: nat): (qs: seq<P>)
    ensures |qs| == |ps| && Fits(qs, m)
    ensures forall i :: 0 <= i < |ps| ==> qs[i].w == ps[i].w
  {
    if ps == [] then [] else [P(ps[0].w, if ps[0].l < m then ps[0].l else m)] + Cap(ps[1..], m)
  }

  lemma {:induction false} CapCosts(ps: seq<P>, m: nat)
    requires Fits(ps, m + 1)
    ensures Dot(Cap(ps, m)) <= Dot(ps)
    ensures 2 * Kraft(Cap(ps, m), m) == Kraft(ps, m + 1) + Longest(ps, m + 1)
    decreases |ps|
  {
    if ps != [] {
      CapCosts(ps[1..], m);
      var c := Cap(ps, m);
      assert c[1..] == Cap(ps[1..], m);
      MulMono(ps[0].w, c[0].l, ps[0].l);
    }
  }

  lemma {:induction false} UpdateOne(ps: seq<P>, i: nat, q: P, m: nat)
    requires i < |ps| && Fits(ps, m) && q.l <= m
    ensures Dot(ps[i := q]) + ps[i].w * ps[i].l == Dot(ps) + q.w * q.l
    ensures Fits(ps[i := q], m)
    ensures Kraft(ps[i := q], m) + Pow2(m - ps[i].l) == Kraft(ps, m) + Pow2(m - q.l)
    decreases i
  {
    var t := ps[i := q];
    if i == 0 {
      assert t[1..] == ps[1..];
    } else {
      UpdateOne(ps[1..], i - 1, q, m);
      assert t[1..] == ps[1..][i - 1 := q];
    }
  }

  /** The lengths at i and j exchanged. */
  function Exchange(ps: seq<P>, i: nat, j: nat): (qs: seq<P>)
    requires i < |ps| && j < |ps|
    ensures |qs| == |ps|
    ensures forall k :: 0 <= k < |ps| ==> qs[k].w == ps[k].w
    ensures qs[i].l == ps[j].l && qs[j].l == ps[i].l
    ensures forall k :: 0 <= k < |ps| && k != i && k != j ==> qs[k] == ps[k]
  {
    ps[i := P(ps[i].w, ps[j].l)][j := P(ps[j].w, ps[i].l)]
  }

  /** Giving the lighter weight the longer codeword does not cost more. */
  lemma ExchangeCosts(ps: seq<P>, i: nat, j: nat, m: nat)
    requires i <= j < |ps| && Fits(ps, m) && ps[i].w <= ps[j].w && ps[i].l <= ps[j].l
    ensures Fits(Exchange(ps, i, j), m)
    ensures Dot(Exchange(ps, i, j)) <= Dot(ps)
    ensures Kraft(Exchange(ps, i, j), m) == Kraft(ps, m)
  {
    var a, b := ps[i], ps[j];
    if i == j {
      assert Exchange(ps, i, j) == ps;
    } else {
      var qs := ps[i := P(a.w, b.l)];
      UpdateOne(ps, i, P(a.w, b.l), m);
      UpdateOne(qs, j, P(b.w, a.l), m);
      Rearrange(a.w, b.w, a.l, b.l);
    }
  }

  lemma Rearrange(x: nat, y: nat, p: nat, q: nat)
    requires x <= y && p <= q
    ensures x * q + y * p <= x * p + y * q
  {
    var d, e := y - x, q - p;
    assert d * e >= 0;
    assert x * q + y * p + d * e == x * p + y * q;
  }

  /** Two positions with the longest length. */
  lemma {:induction false} FindLongest(ps: seq<P>, m: nat) returns (i: nat)
    requires Longest(ps, m) >= 1
    ensures i < |ps| && ps[i].l == m
    ensures Longest(ps, m) >= 2 ==> Longest(ps[i + 1..], m) >= 1
    decreases |ps|
  {
    if ps[0].l == m {
      i := 0;
    } else {
      i := FindLongest(ps[1..], m);
      assert ps[1..][i + 1..] == ps[i + 2..];
      i := i + 1;
    }
  }

  function InsertP(p: P, ps: seq<P>): (r: seq<P>)
    ensures |r| == |ps| + 1
  {
    if ps == [] || p.w < ps[0].w then [p] + ps else [ps[0]] + InsertP(p, ps[1..])
  }

  lemma {:induction false} InsertSums(p: P, ps: seq<P>, m: nat)
    requires Fits(ps, m) && p.l <= m
    ensures Fits(InsertP(p, ps), m)
    ensures Dot(InsertP(p, ps)) == p.w * p.l + Dot(ps)
    ensures Kraft(InsertP(p, ps), m) == Pow2(m - p.l) + Kraft(ps, m)
    decreases |ps|
  {
    var r := InsertP(p, ps);
    if ps == [] || p.w < ps[0].w {
      assert r[1..] == ps;
    } else {
      InsertSums(p, ps[1..], m);
      assert r[1..] == InsertP(p, ps[1..]);
    }
  }

  lemma WsCons(p: P, ps: seq<P>)
    ensures Ws([p] + ps) == [p.w] + Ws(ps)
  {
  }

  lemma {:induction false} InsertWeights(p: P, ps: seq<P>)
    ensures Ws(InsertP(p, ps)) == Insert(p.w, Ws(ps))
    decreases |ps|
  {
    hide Ws;
    WsCons(p, ps);
    if ps != [] && p.w >= ps[0].w {
      assert ps == [ps[0]] + ps[1..];
      WsCons(ps[0], ps[1..]);
      WsCons(ps[0], InsertP(p, ps[1..]));
      assert Ws(ps)[1..] == Ws(ps[1..]);
      InsertWeights(p, ps[1..]);
    }
  }

  lemma {:induction false} InsertSorted(v: nat, ws: seq<nat>)
    requires Sorted(ws)
    ensures Sorted(Insert(v, ws))
    ensures ws != [] ==> Insert(v, ws)[0] == if v < ws[0] then v else ws[0]
    decreases |ws|
  {
    if ws != [] && v >= ws[0] { InsertSorted(v, ws[1..]); }
  }

  /** Two longest codewords can be given to the two lightest weights at no cost. */
  lemma LongestFirst(ps: seq<P>, m: nat) returns (qs: seq<P>)
    requires Sorted(Ws(ps)) && Fits(ps, m) && Longest(ps, m) >= 2
    ensures |qs| == |ps| >= 2 && Ws(qs) == Ws(ps) && Fits(qs, m)
    ensures Dot(qs) <= Dot(ps) && Kraft(qs, m) == Kraft(ps, m)
    ensures qs[0].l == m && qs[1].l == m
  {
    var i := FindLongest(ps, m);
    var j := FindLongest(ps[i + 1..], m);
    j := i + 1 + j;
    assert Ws(ps)[0] == ps[0].w && Ws(ps)[i] == ps[i].w;
    assert Ws(ps)[1] == ps[1].w && Ws(ps)[j] == ps[j].w;
    ExchangeCosts(ps, 0, i, m);
    var q := Exchange(ps, 0, i);
    ExchangeCosts(q, 1, j, m);
    qs := Exchange(q, 1, j);
  }

  /** Merging them makes a smaller problem whose cost is less by their weights. */
  lemma MergeLongest(qs: seq<P>, m: nat)
    requires |qs| >= 2 && Fits(qs, m) && m > 0 && Sorted(Ws(qs)) && qs[0].l == m && qs[1].l == m
    ensures var r := InsertP(P(qs[0].w + qs[1].w, m - 1), qs[2..]);
      && Fits(r, m) && Kraft(r, m) == Kraft(qs, m)
      && Dot(qs) == Dot(r) + qs[0].w + qs[1].w
      && Ws(r) == Insert(qs[0].w + qs[1].w, Ws(qs)[2..]) && Sorted(Ws(r))
  {
    var p, rest := P(qs[0].w + qs[1].w, m - 1), qs[2..];
    assert Ws(rest) == Ws(qs)[2..];
    InsertSums(p, rest, m);
    InsertWeights(p, rest);
    InsertSorted(p.w, Ws(rest));
    assert qs[1..][1..] == rest && qs[1..][0] == qs[1];
    assert Dot(qs) == qs[0].w * m + (qs[1].w * m + Dot(rest));
    assert Pow2(0) == 1 && Pow2(1) == 2;
    assert Kraft(qs, m) == 1 + (1 + Kraft(rest, m));
    MergedProduct(qs[0].w, qs[1].w, m);
  }

  lemma MergedProduct(x: nat, y: nat, m: nat)
    requires m > 0
    ensures x * m + y * m == (x + y) * (m - 1) + x + y
  {
    assert x * m + y * m == (x + y) * m;
    assert (x + y) * (m - 1) == (x + y) * m - (x + y);
  }

  lemma KraftOfZeros(ps: seq<P>)
    requires Fits(ps, 0)
    ensures Kraft(ps, 0) == |ps|
  {
    if ps != [] {
      KraftOfZeros(ps[1..]);
      assert Pow2(0) == 1;
    }
  }

  /** The greedy merge costs no more than any lengths that satisfy the Kraft inequality. */
  lemma {:induction false} Optimal(ps: seq<P>, m: nat)
    requires Sorted(Ws(ps)) && Fits(ps, m) && Kraft(ps, m) <= Pow2(m)
    ensures HuffCost(Ws(ps)) <= Dot(ps)
    decreases |ps|, m
  {
    if |ps| >= 2 {
      if m == 0 {
        KraftOfZeros(ps);
      } else if Longest(ps, m) <= 1 {
        CapCosts(ps, m - 1);
        assert Ws(Cap(ps, m - 1)) == Ws(ps);
        Optimal(Cap(ps, m - 1), m - 1);
      } else {
        var qs := LongestFirst(ps, m);
        MergeLongest(qs, m);
        Optimal(InsertP(P(qs[0].w + qs[1].w, m - 1), qs[2..]), m);
      }
    }
  }

  // ---------- Prefix codes ----------

  /** Neither word starts the other. */
  predicate Apart(s: seq<bool>, t: seq<bool>) {
    !(s <= t) && !(t <= s)
  }

  predicate PrefixCode(words: seq<seq<bool>>) {
    words != [] ==> (forall k :: 1 <= k < |words| ==> Apart(words[0], words[k])) && PrefixCode(words[1..])
  }

  function WordKraft(words: seq<seq<bool>>, m: nat): nat
    requires forall i :: 0 <= i < |words| ==> |words[i]| <= m
  {
    if words == [] then 0 else Pow2(m - |words[0]|) + WordKraft(words[1..], m)
  }

  /** The words that start with b, without it. */
  function Half(words: seq<seq<bool>>, b: bool): (hs: seq<seq<bool>>)
    requires forall i :: 0 <= i < |words| ==> words[i] != []
    ensures forall k :: 0 <= k < |hs| ==> exists j :: 0 <= j < |words| && words[j] == [b] + hs[k]
  {
    if words == [] then []
    else
      var hs := Half(words[1..], b);
      assert forall k :: 0 <= k < |hs| ==> exists j :: 0 <= j < |words[1..]| && words[1..][j] == [b] + hs[k];
      if words[0][0] == b then
        assert words[0] == [b] + words[0][1..];
        [words[0][1..]] + hs
      else hs
  }

  lemma {:induction false} HalfIsPrefixCode(words: seq<seq<bool>>, b: bool)
    requires PrefixCode(words) && forall i :: 0 <= i < |words| ==> words[i] != []
    ensures PrefixCode(Half(words, b))
    decreases |words|
  {
    if words != [] {
      HalfIsPrefixCode(words[1..], b);
      var hs := Half(words[1..], b);
      if words[0][0] == b {
        var t := words[0][1..];
        assert Half(words, b)[1..] == hs;
        forall k | 0 <= k < |hs| ensures Apart(t, hs[k]) {
          var j :| 0 <= j < |words[1..]| && words[1..][j] == [b] + hs[k];
          assert Apart(words[0], words[1 + j]) && words[0] == [b] + t;
          ApartTails(b, t, hs[k]);
        }
      }
    }
  }

  lemma ApartTails(b: bool, s: seq<bool>, t: seq<bool>)
    requires Apart([b] + s, [b] + t)
    ensures Apart(s, t)
  {
    PrefixUnderBit(b, s, t);
    PrefixUnderBit(b, t, s);
  }

  lemma PrefixUnderBit(b: bool, s: seq<bool>, t: seq<bool>)
    ensures s <= t ==> [b] + s <= [b] + t
  {
  }

  lemma HalfLengths(words: seq<seq<bool>>, b: bool, m: nat)
    requires m > 0 && forall i :: 0 <= i < |words| ==> words[i] != [] && |words[i]| <= m
    ensures forall i :: 0 <= i < |Half(words, b)| ==> |Half(words, b)[i]| <= m - 1
  {
    var hs := Half(words, b);
    forall i | 0 <= i < |hs| ensures |hs[i]| <= m - 1 {
      var j :| 0 <= j < |words| && words[j] == [b] + hs[i];
    }
  }

  lemma {:induction false} HalvesKraft(words: seq<seq<bool>>, m: nat)
    requires m > 0 && forall i :: 0 <= i < |words| ==> words[i] != [] && |words[i]| <= m
    requires forall i :: 0 <= i < |Half(words, false)| ==> |Half(words, false)[i]| <= m - 1
    requires forall i :: 0 <= i < |Half(words, true)| ==> |Half(words, true)[i]| <= m - 1
    ensures WordKraft(words, m)
         == WordKraft(Half(words, false), m - 1) + WordKraft(Half(words, true), m - 1)
    decreases |words|
  {
    if words != [] {
      var b, w := words[0][0], words[0];
      HalfLengths(words[1..], false, m);
      HalfLengths(words[1..], true, m);
      HalvesKraft(words[1..], m);
      HalfCons(words, b, m);
      assert Half(words, !b) == Half(words[1..], !b);
    }
  }

  lemma HalfCons(words: seq<seq<bool>>, b: bool, m: nat)
    requires m > 0 && words != [] && words[0] != [] && words[0][0] == b
    requires forall i :: 0 <= i < |words| ==> words[i] != [] && |words[i]| <= m
    requires forall i :: 0 <= i < |Half(words, b)| ==> |Half(words, b)[i]| <= m - 1
    ensures forall i :: 0 <= i < |Half(words[1..], b)| ==> |Half(words[1..], b)[i]| <= m - 1
    ensures WordKraft(Half(words, b), m - 1)
         == Pow2(m - |words[0]|) + WordKraft(Half(words[1..], b), m - 1)
  {
    HalfLengths(words[1..], b, m);
    assert Half(words, b)[1..] == Half(words[1..], b);
    assert Half(words, b)[0] == words[0][1..];
  }

  /** The Kraft inequality holds of every prefix code. */
  lemma {:induction false} KraftInequality(words: seq<seq<bool>>, m: nat)
    requires PrefixCode(words) && forall i :: 0 <= i < |words| ==> |words[i]| <= m
    ensures WordKraft(words, m) <= Pow2(m)
    decreases m
  {
    hide PrefixCode, Half;
    if |words| == 0 {
    } else if |words| == 1 {
      Pow2Mono(m - |words[0]|, m);
      assert WordKraft(words[1..], m) == 0;
    } else {
      NoEmptyWord(words);
      HalfLengths(words, false, m);
      HalfLengths(words, true, m);
      HalvesKraft(words, m);
      HalfIsPrefixCode(words, false);
      HalfIsPrefixCode(words, true);
      KraftInequality(Half(words, false), m - 1);
      KraftInequality(Half(words, true), m - 1);
    }
  }

  /** In a code of several words none is empty. */
  lemma {:induction false} NoEmptyWord(words: seq<seq<bool>>)
    requires PrefixCode(words) && |words| >= 2
    ensures forall i :: 0 <= i < |words| ==> words[i] != []
    decreases |words|
  {
    assert Apart(words[0], words[1]);
    forall i | 1 <= i < |words| ensures words[i] != [] {
      assert Apart(words[0], words[i]);
    }
  }

  /** Weights with the lengths of their codewords. */
  function WithWords(ws: seq<nat>, words: seq<seq<bool>>): (ps: seq<P>)
    requires |ws| == |words|
    ensures |ps| == |ws|
    ensures forall i :: 0 <= i < |ps| ==> ps[i] == P(ws[i], |words[i]|)
  {
    seq(|ws|, i requires 0 <= i < |ws| => P(ws[i], |words[i]|))
  }

  lemma {:induction false} WordKraftIsKraft(ws: seq<nat>, words: seq<seq<bool>>, m: nat)
    requires |ws| == |words| && forall i :: 0 <= i < |words| ==> |words[i]| <= m
    ensures Kraft(WithWords(ws, words), m) == WordKraft(words, m)
    decreases |words|
  {
    if words != [] {
      WordKraftIsKraft(ws[1..], words[1..], m);
      assert WithWords(ws, words)[1..] == WithWords(ws[1..], words[1..]);
    }
  }

  /** No prefix code for sorted weights costs less than the greedy merge. */
  lemma BestPrefixCode(ws: seq<nat>, words: seq<seq<bool>>, m: nat)
    requires Sorted(ws) && |ws| == |words| && PrefixCode(words)
    requires forall i :: 0 <= i < |words| ==> |words[i]| <= m
    ensures HuffCost(ws) <= Dot(WithWords(ws, words))
  {
    KraftInequality(words, m);
    WordKraftIsKraft(ws, words, m);
    assert Ws(WithWords(ws, words)) == ws;
    Optimal(WithWords(ws, words), m);
  }
}
