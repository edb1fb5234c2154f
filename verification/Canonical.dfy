/**
  Canonical Huffman codes built from code lengths (section 3.2.2 of RFC 1951).

  A length of 0 marks an unused symbol. `Code` is the two-pass rule of the RFC;
  `DhtDecoder` computes the same codes in one pass.
  */
module Canonical {
  import opened Bits

  /** Number of symbols with code length b (bl_count in the RFC). */
  function Count(lens: seq<nat>, b: nat): (n: nat)
    ensures n <= |lens|
  {
    if lens == [] then 0
    else Count(lens[..|lens| - 1], b) + (if lens[|lens| - 1] == b then 1 else 0)
  }

  /** Used codes of length b: bl_count[0] is 0 by definition. */
  function UsedCount(lens: seq<nat>, b: nat): nat {
    if b == 0 then 0 else Count(lens, b)
  }

  /** Smallest code of length b (next_code in the RFC, step 2). */
  function Base(lens: seq<nat>, b: nat): nat {
    if b == 0 then 0 else 2 * (Base(lens, b - 1) + UsedCount(lens, b - 1))
  }

  /** Number of earlier symbols with the same length. */
  function Rank(lens: seq<nat>, i: nat): nat
    requires i < |lens|
  {
    Count(lens[..i], lens[i])
  }

  /** The code of symbol i (step 3 of the RFC). */
  function Code(lens: seq<nat>, i: nat): nat
    requires i < |lens|
  {
    Base(lens, lens[i]) + Rank(lens, i)
  }

  /** The code of symbol i as it is sent, most significant bit first. */
  function CodeBits(lens: seq<nat>, i: nat): (s: seq<bool>)
    requires i < |lens|
    ensures |s| == lens[i]
  {
    MsbBits(Code(lens, i), lens[i])
  }

  /** All the codewords. */
  function CodeWords(lens: seq<nat>): (ws: seq<seq<bool>>)
    ensures |ws| == |lens|
    ensures forall i :: 0 <= i < |lens| ==> ws[i] == CodeBits(lens, i)
  {
    seq(|lens|, i requires 0 <= i < |lens| => CodeBits(lens, i))
  }

  predicate AtMost(lens: seq<nat>, m: nat) {
    forall i :: 0 <= i < |lens| ==> lens[i] <= m
  }

  /** The Kraft sum in units of 2^-m. */
  function KraftSum(lens: seq<nat>, m: nat): nat
    requires AtMost(lens, m)
  {
    if lens == [] then 0
    else
      var l := lens[|lens| - 1];
      KraftSum(lens[..|lens| - 1], m) + (if l == 0 then 0 else Pow2(m - l))
  }

  /** The Kraft sum over the codes of length at most b, in units of 2^-b. */
  function KraftUpTo(lens: seq<nat>, b: nat): nat {
    if b == 0 then 0 else 2 * KraftUpTo(lens, b - 1) + Count(lens, b)
  }

  lemma {:induction false} CountAppend(s: seq<nat>, t: seq<nat>, b: nat)
    ensures Count(s + t, b) == Count(s, b) + Count(t, b)
    decreases |t|
  {
    if t == [] {
      assert s + t == s;
    } else {
      var k := |t| - 1;
      CountAppend(s, t[..k], b);
      assert (s + t)[..|s| + k] == s + t[..k];
    }
  }

  lemma CountPrefix(lens: seq<nat>, i: nat, j: nat, b: nat)
    requires i < j <= |lens|
    ensures Count(lens[..i], b) + (if lens[i] == b then 1 else 0) <= Count(lens[..j], b)
  {
    assert lens[..j] == lens[..i + 1] + lens[i + 1..j];
    CountAppend(lens[..i + 1], lens[i + 1..j], b);
    assert lens[..i + 1][..i] == lens[..i];
  }

  lemma CountStep(lens: seq<nat>, k: nat, b: nat)
    requires k < |lens|
    ensures Count(lens[..k + 1], b) == Count(lens[..k], b) + (if lens[k] == b then 1 else 0)
  {
    assert lens[..k + 1][..k] == lens[..k];
  }

  lemma {:induction false} CountGap(lens: seq<nat>, i: nat, j: nat, b: nat)
    requires i <= j <= |lens|
    requires forall k :: i <= k < j ==> lens[k] != b
    ensures Count(lens[..j], b) == Count(lens[..i], b)
    decreases j
  {
    if i < j {
      CountGap(lens, i, j - 1, b);
      CountStep(lens, j - 1, b);
    }
  }

  lemma CountUpdate(s: seq<nat>, k: nat, v: nat, b: nat)
    requires k < |s|
    ensures Count(s[k := v], b)
         == Count(s, b) - (if s[k] == b then 1 else 0) + (if v == b then 1 else 0)
  {
    var t := s[k := v];
    assert s == s[..k] + ([s[k]] + s[k + 1..]) && t == s[..k] + ([v] + s[k + 1..]);
    CountAppend(s[..k], [s[k]] + s[k + 1..], b);
    CountAppend([s[k]], s[k + 1..], b);
    CountAppend(s[..k], [v] + s[k + 1..], b);
    CountAppend([v], s[k + 1..], b);
    assert Count([s[k]], b) == if s[k] == b then 1 else 0;
    assert Count([v], b) == if v == b then 1 else 0;
  }

  /** One past the last code of length b is the Kraft sum up to b. */
  lemma {:induction false} BaseIsKraft(lens: seq<nat>, b: nat)
    ensures Base(lens, b) + UsedCount(lens, b) == KraftUpTo(lens, b)
  {
    if b > 0 { BaseIsKraft(lens, b - 1); }
  }

  lemma {:induction false} KraftUpToSnoc(lens: seq<nat>, l: nat, b: nat)
    ensures KraftUpTo(lens + [l], b)
         == KraftUpTo(lens, b) + (if 0 < l <= b then Pow2(b - l) else 0)
    decreases b
  {
    if b > 0 {
      KraftUpToSnoc(lens, l, b - 1);
      assert (lens + [l])[..|lens|] == lens;
    }
  }

  lemma {:induction false} KraftUpToEmpty(b: nat)
    ensures KraftUpTo([], b) == 0
  {
    if b > 0 { KraftUpToEmpty(b - 1); }
  }

  /** The two ways to add up 2^-length agree. */
  lemma {:induction false} KraftSums(lens: seq<nat>, m: nat)
    requires AtMost(lens, m)
    ensures KraftUpTo(lens, m) == KraftSum(lens, m)
    decreases |lens|
  {
    if lens == [] {
      KraftUpToEmpty(m);
    } else {
      var k := |lens| - 1;
      assert lens == lens[..k] + [lens[k]];
      KraftSums(lens[..k], m);
      KraftUpToSnoc(lens[..k], lens[k], m);
    }
  }

  lemma {:induction false} KraftGrows(lens: seq<nat>, a: nat, b: nat)
    requires a <= b
    ensures Pow2(b - a) * KraftUpTo(lens, a) <= KraftUpTo(lens, b)
    ensures a < b ==> Pow2(b - a) * KraftUpTo(lens, a) <= Base(lens, b)
    decreases b
  {
    if a < b {
      KraftGrows(lens, a, b - 1);
      BaseIsKraft(lens, b - 1);
      MulTwo(Pow2(b - 1 - a), KraftUpTo(lens, a));
    } else {
      assert Pow2(0) * KraftUpTo(lens, a) == KraftUpTo(lens, a);
    }
  }

  lemma KraftFits(lens: seq<nat>, b: nat, m: nat)
    requires b <= m && KraftUpTo(lens, m) <= Pow2(m)
    ensures KraftUpTo(lens, b) <= Pow2(b)
  {
    KraftGrows(lens, b, m);
    Pow2Add(m - b, b);
    MulCancel(Pow2(m - b), KraftUpTo(lens, b), Pow2(b));
  }

  /**
    Canonical codes fit in their lengths exactly when the lengths satisfy the
    Kraft inequality.
    */
  lemma CodesFitIffKraft(lens: seq<nat>, m: nat)
    requires AtMost(lens, m)
    ensures KraftSum(lens, m) <= Pow2(m)
       <==> forall b: nat :: b <= m ==> KraftUpTo(lens, b) <= Pow2(b)
  {
    KraftSums(lens, m);
    if KraftSum(lens, m) <= Pow2(m) {
      forall b: nat | b <= m ensures KraftUpTo(lens, b) <= Pow2(b) {
        KraftFits(lens, b, m);
      }
    }
  }

  lemma MulCancel(p: nat, x: nat, y: nat)
    requires p > 0 && p * x <= p * y
    ensures x <= y
  {
  }

  /** A code is smaller than the Kraft sum up to its length, so it fits. */
  lemma CodeBelow(lens: seq<nat>, m: nat, i: nat)
    requires AtMost(lens, m)
    requires KraftSum(lens, m) <= Pow2(m)
    requires i < |lens| && lens[i] > 0
    ensures Base(lens, lens[i]) <= Code(lens, i) < KraftUpTo(lens, lens[i]) <= Pow2(lens[i])
  {
    assert lens[..|lens|] == lens;
    CountPrefix(lens, i, |lens|, lens[i]);
    BaseIsKraft(lens, lens[i]);
    CodesFitIffKraft(lens, m);
  }

  /** Codes of one length are ordered by symbol. */
  lemma SameLengthCodes(lens: seq<nat>, i: nat, j: nat)
    requires i < j < |lens| && lens[i] == lens[j]
    ensures Code(lens, i) < Code(lens, j)
  {
    CountPrefix(lens, i, j, lens[i]);
  }

  /** A shorter code lies below the start of every longer one. */
  lemma ShorterCodes(lens: seq<nat>, m: nat, i: nat, j: nat)
    requires AtMost(lens, m) && KraftSum(lens, m) <= Pow2(m)
    requires i < |lens| && j < |lens| && 0 < lens[i] < lens[j]
    ensures Code(lens, i) < Shr(Code(lens, j), lens[j] - lens[i])
  {
    var k, q, low := lens[j] - lens[i], KraftUpTo(lens, lens[i]), Base(lens, lens[j]);
    assert Code(lens, i) < q by { CodeBelow(lens, m, i); }
    assert Pow2(k) * q <= low by { KraftGrows(lens, lens[i], lens[j]); }
    ShrAbove(Code(lens, j), k, q, low);
  }

  predicate PrefixFree(lens: seq<nat>) {
    forall i, j :: 0 <= i < |lens| && 0 <= j < |lens| && i != j && lens[i] > 0 && lens[j] > 0
      ==> !(CodeBits(lens, i) <= CodeBits(lens, j))
  }

  lemma NoCodeStarts(lens: seq<nat>, m: nat, i: nat, j: nat)
    requires AtMost(lens, m) && KraftSum(lens, m) <= Pow2(m)
    requires i < |lens| && j < |lens| && i != j && lens[i] > 0 && lens[j] > 0
    ensures !(CodeBits(lens, i) <= CodeBits(lens, j))
  {
    if lens[i] <= lens[j] {
      CodeBelow(lens, m, i);
      CodeBelow(lens, m, j);
      if lens[i] < lens[j] {
        ShorterCodes(lens, m, i, j);
      } else if i < j {
        SameLengthCodes(lens, i, j);
      } else {
        SameLengthCodes(lens, j, i);
      }
      DifferentPrefix(Code(lens, i), lens[i], Code(lens, j), lens[j]);
    }
  }

  lemma DifferentPrefix(x: nat, a: nat, y: nat, b: nat)
    requires a <= b && x < Pow2(a) && y < Pow2(b) && Shr(y, b - a) != x
    ensures !(MsbBits(x, a) <= MsbBits(y, b))
  {
    MsbBitsPrefix(y, b, a);
    ShrBelow(y, a, b - a);
    DifferentWords(x, Shr(y, b - a), a);
  }

  lemma DifferentWords(x: nat, y: nat, n: nat)
    requires x < Pow2(n) && y < Pow2(n) && x != y
    ensures MsbBits(x, n) != MsbBits(y, n)
  {
    if MsbBits(x, n) == MsbBits(y, n) { MsbBitsInjective(x, y, n); }
  }

  /** Canonical codes of lengths that satisfy the Kraft inequality are prefix-free. */
  lemma CanonicalIsPrefixFree(lens: seq<nat>, m: nat)
    requires AtMost(lens, m) && KraftSum(lens, m) <= Pow2(m)
    ensures PrefixFree(lens)
  {
    forall i, j | 0 <= i < |lens| && 0 <= j < |lens| && i != j && lens[i] > 0 && lens[j] > 0
      ensures !(CodeBits(lens, i) <= CodeBits(lens, j))
    {
      NoCodeStarts(lens, m, i, j);
    }
  }

  // ---------- An example ----------

  lemma PrefixCounts(lens: seq<nat>, b: nat)
    requires lens == [3, 3, 3, 3, 3, 2, 4, 4]
    ensures b == 3 ==> forall k :: 0 <= k < 5 ==> Count(lens[..k], b) == k
    ensures Count(lens[..5], b) == if b == 3 then 5 else 0
    ensures Count(lens[..6], b) == if b == 3 then 5 else if b == 2 then 1 else 0
    ensures Count(lens[..7], b) == if b == 3 then 5 else if b == 2 || b == 4 then 1 else 0
    ensures Count(lens, b) == if b == 3 then 5 else if b == 2 then 1 else if b == 4 then 2 else 0
  {
    CountStep(lens, 0, b);
    CountStep(lens, 1, b);
    CountStep(lens, 2, b);
    CountStep(lens, 3, b);
    CountStep(lens, 4, b);
    CountStep(lens, 5, b);
    CountStep(lens, 6, b);
    CountStep(lens, 7, b);
    assert lens[..8] == lens && lens[..0] == [];
  }

  /** The example of section 3.2.2 of RFC 1951: lengths 3, 3, 3, 3, 3, 2, 4, 4. */
  lemma RfcExample(lens: seq<nat>)
    requires lens == [3, 3, 3, 3, 3, 2, 4, 4]
    ensures Code(lens, 0) == 2 && Code(lens, 1) == 3 && Code(lens, 2) == 4 && Code(lens, 3) == 5
    ensures Code(lens, 4) == 6 && Code(lens, 5) == 0 && Code(lens, 6) == 14 && Code(lens, 7) == 15
  {
    PrefixCounts(lens, 1);
    PrefixCounts(lens, 2);
    PrefixCounts(lens, 3);
    PrefixCounts(lens, 4);
    assert Base(lens, 1) == 0;
    assert Base(lens, 2) == 0;
    assert Base(lens, 3) == 2;
    assert Base(lens, 4) == 14;
  }
}
