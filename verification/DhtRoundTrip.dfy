/**
  encode_lengths followed by dht_decomp: every array of code lengths comes back,
  and with it the canonical codes. dhtgen followed by dht_decomp: counts become
  complete prefix codes.
  */
module DhtRoundTrip {
  import opened Bits
  import opened Canonical
  import opened DhtFormat
  import opened DhtEncoder
  import opened DhtDecoder
  import opened HuffmanLengths
  import opened Huffman
  import DhtGen

  /**
    For every length array of the sizes that a table can have, decoding what was
    encoded gives the same lengths in a buffer of 288 bytes, with the canonical
    code of each symbol as the base of its length plus its idx.
    */
  method RoundTrip(symLen: array<nat>, numL: nat, numD: nat) returns (c: Ctx, hlit: nat, hdist: nat)
    requires numL <= NLEN && numD <= NDIS && Hlit(numL) + Hdist(numD) <= symLen.Length
    requires AtMost(symLen[..Hlit(numL) + Hdist(numD)], MAX_LEN)
    ensures hlit == Hlit(numL) && hdist == Hdist(numD)
    ensures Complete(c.ll, symLen[..hlit], NLEN)
    ensures Complete(c.dist, symLen[hlit..hlit + hdist], NDIS)
    ensures c.ll.len[..hlit] + c.dist.len[..hdist] == symLen[..hlit + hdist]
  {
    hide AtMost, Complete, Expand, ValidTable, TableBits;
    var dht := new nat[288];
    var bittotal, table := EncodeLengths(dht, symLen, numL, numD);
    ghost var lens := symLen[..Hlit(numL) + Hdist(numD)];
    c, hlit, hdist := Decode(dht, table);
    Halves(symLen[..], hlit, hlit + hdist);
    TwoTables(c.ll, c.dist, lens, hlit);
  }

  /** Decode the table at the start of a buffer, from a zeroed ctx. */
  method Decode(dht: array<nat>, ghost table: Table) returns (c: Ctx, hlit: nat, hdist: nat)
    requires ValidTable(table) && |TableBits(table)| + 6 <= 8 * dht.Length
    requires TableBits(table) <= Flatten(dht[..])
    ensures hlit == table.hlit && hdist == table.hdist
    ensures Complete(c.ll, Expand(table.tokens)[..hlit], NLEN)
    ensures Complete(c.dist, Expand(table.tokens)[hlit..], NDIS)
  {
    var r := new BitReader(dht);
    c := new Ctx(r);
    hlit, hdist := c.DhtDecomp(table);
  }

  lemma Halves<T>(s: seq<T>, a: nat, n: nat)
    requires a <= n <= |s|
    ensures s[..n][..a] == s[..a] && s[..n][a..] == s[a..n]
  {
  }

  lemma TwoTables(ll: LenTable, dist: LenTable, lens: seq<nat>, hlit: nat)
    requires hlit <= |lens| && Complete(ll, lens[..hlit], NLEN) && Complete(dist, lens[hlit..], NDIS)
    ensures ll.len[..hlit] + dist.len[..|lens| - hlit] == lens
  {
    OnePassCodes(ll, lens[..hlit], NLEN);
    OnePassCodes(dist, lens[hlit..], NDIS);
  }

  /**
    What huffmanize makes of the caller's counts: they are divided in passes, and stay as they
    are if and only if they are small enough and give a tree at most 15 high.
    */
  ghost predicate Recounted(before: seq<nat>, after: seq<nat>) {
    && DhtGen.Normalizes(before, after) && DhtGen.SameZeros(after, before)
    && (after == before <==> DhtGen.Fits(before))
  }

  /** The lengths of an alphabet: of a Huffman code for the counts, then zeros. */
  ghost predicate CodesCounts(lens: seq<nat>, counts: seq<nat>) {
    && |counts| <= |lens|
    && DhtGen.Outcome(counts, lens[..|counts|])
    && forall i :: |counts| <= i < |lens| ==> lens[i] == 0
  }

  /** The same for the distances; with at most one of them the first counts as used. */
  ghost predicate DistancesRecounted(before: seq<nat>, after: seq<nat>, numD: nat)
    requires numD <= |before| == |after| && |before| >= 1
  {
    if numD > 1 then Recounted(before[..numD], after[..numD]) && after[numD..] == before[numD..]
    else after == before[0 := 1]
  }

  /** The distance lengths: one code of one bit when there is at most one distance. */
  ghost predicate CodesDistances(lens: seq<nat>, counts: seq<nat>, numD: nat) {
    if numD > 1 then CodesCounts(lens, counts) else lens == [1]
  }

  /**
    dhtgen without the CPB header: normalises both histograms in place, builds
    both codes and writes the table. The ghost result is the table written.
    */
  method Dhtgen(lhist: array<nat>, numL: nat, dhist: array<nat>, numD: nat, dht: array<nat>)
    returns (numBytes: nat, validBits: nat, ghost table: Table)
    requires lhist != dhist && lhist != dht && dhist != dht && dht.Length >= 288
    requires numL <= lhist.Length && numL <= NLEN && Used(lhist[..numL]) >= 2
    requires numD <= dhist.Length && numD <= NDIS && dhist.Length >= 1
    requires numD > 1 ==> Used(dhist[..numD]) >= 2
    modifies lhist, dhist, dht
    ensures ValidTable(table) && table.hlit == Hlit(numL) && table.hdist == Hdist(numD)
    ensures TableBits(table) <= Flatten(dht[..])
    ensures |TableBits(table)| == if validBits == 0 then 8 * numBytes else 8 * (numBytes - 1) + validBits
    ensures validBits < 8 && numBytes <= 286 && table.tokens == RunLengths(Expand(table.tokens))
    ensures Recounted(old(lhist[..numL]), lhist[..numL]) && lhist[numL..] == old(lhist[numL..])
    ensures DistancesRecounted(old(dhist[..]), dhist[..], numD)
    ensures CodesCounts(Expand(table.tokens)[..Hlit(numL)], lhist[..numL])
    ensures CodesDistances(Expand(table.tokens)[Hlit(numL)..], dhist[..numD], numD)
    ensures DhtGen.Fits(old(lhist[..numL])) ==> CodesCounts(Expand(table.tokens)[..Hlit(numL)], old(lhist[..numL]))
    ensures numD > 1 && DhtGen.Fits(old(dhist[..numD])) ==>
      CodesCounts(Expand(table.tokens)[Hlit(numL)..], old(dhist[..numD]))
  {
    var lens, numD' := MakeLengths(lhist, numL, dhist, numD);
    ghost var coded, lc, dc := lens[..Hlit(numL) + Hdist(numD)], lhist[..numL], dhist[..numD];
    numBytes, validBits, table := WriteBytes(dht, lens, numL, numD');
    assert Expand(table.tokens) == coded && lhist[..numL] == lc && dhist[..numD] == dc;
  }

  /** encode_lengths, and the byte and bit counts that dhtgen returns. */
  method WriteBytes(dht: array<nat>, lens: array<nat>, numL: nat, numD: nat)
    returns (numBytes: nat, validBits: nat, ghost table: Table)
    requires dht != lens && dht.Length >= 288 && lens.Length == NLEN + NDIS
    requires numL <= NLEN && numD <= NDIS && AtMost(lens[..Hlit(numL) + Hdist(numD)], MAX_LEN)
    modifies dht
    ensures ValidTable(table) && table.hlit == Hlit(numL) && table.hdist == Hdist(numD)
    ensures Expand(table.tokens) == lens[..Hlit(numL) + Hdist(numD)]
    ensures table.tokens == RunLengths(Expand(table.tokens))
    ensures TableBits(table) <= Flatten(dht[..])
    ensures |TableBits(table)| == if validBits == 0 then 8 * numBytes else 8 * (numBytes - 1) + validBits
    ensures validBits < 8 && numBytes <= 286
  {
    var bittotal;
    bittotal, table := EncodeLengths(dht, lens, numL, numD);
    WholeBytes(bittotal);
    numBytes, validBits := (bittotal + 7) / 8, bittotal % 8;
  }

  lemma WholeBytes(n: nat)
    ensures n == if n % 8 == 0 then 8 * ((n + 7) / 8) else 8 * ((n + 7) / 8 - 1) + n % 8
    ensures n <= 2283 ==> (n + 7) / 8 <= 286
  {
  }

  /** The lengths of both alphabets, one after the other. */
  method MakeLengths(lhist: array<nat>, numL: nat, dhist: array<nat>, numD: nat)
    returns (lens: array<nat>, numD': nat)
    requires lhist != dhist
    requires numL <= lhist.Length && numL <= NLEN && Used(lhist[..numL]) >= 2
    requires numD <= dhist.Length && numD <= NDIS && dhist.Length >= 1
    requires numD > 1 ==> Used(dhist[..numD]) >= 2
    modifies lhist, dhist
    ensures fresh(lens) && lens.Length == NLEN + NDIS && Hdist(numD') == Hdist(numD) && numD' <= NDIS
    ensures Recounted(old(lhist[..numL]), lhist[..numL]) && lhist[numL..] == old(lhist[numL..])
    ensures DistancesRecounted(old(dhist[..]), dhist[..], numD)
    ensures CodesCounts(lens[..Hlit(numL) + Hdist(numD)][..Hlit(numL)], lhist[..numL])
    ensures CodesDistances(lens[..Hlit(numL) + Hdist(numD)][Hlit(numL)..], dhist[..numD], numD)
    ensures AtMost(lens[..Hlit(numL) + Hdist(numD)], MAX_LEN)
  {
    lens := new nat[NLEN + NDIS](i => 0);
    var off := Hlit(numL);
    CodeLiterals(lhist, numL, lens);
    ghost var ll := lens[..off];
    numD' := CodeDistances(dhist, numD, lens, off);
    assert lens[..off] == ll;
    ghost var n := off + Hdist(numD);
    Halves(lens[..], off, n);
    assert lens[..][..n] == lens[..n];
    LensFit(lens[..n], off, lhist[..numL], dhist[..numD], numD);
  }

  /** The literal/length half of dhtgen. */
  method CodeLiterals(lhist: array<nat>, numL: nat, lens: array<nat>)
    requires lhist != lens && lens.Length == NLEN + NDIS
    requires numL <= lhist.Length && numL <= NLEN && Used(lhist[..numL]) >= 2
    requires forall i :: 0 <= i < lens.Length ==> lens[i] == 0
    modifies lhist, lens
    ensures CodesCounts(lens[..Hlit(numL)], lhist[..numL])
    ensures Recounted(old(lhist[..numL]), lhist[..numL]) && lhist[numL..] == old(lhist[numL..])
    ensures forall i :: Hlit(numL) <= i < lens.Length ==> lens[i] == 0
  {
    hide Used, DhtGen.Outcome, DhtGen.SameZeros;
    var passes := DhtGen.Huffmanize(lhist, numL, lens, 0);
    ghost var rest := lens[numL..];
    assert forall i :: 0 <= i < |rest| ==> rest[i] == 0 && lens[numL + i] == rest[i];
    assert lens[..Hlit(numL)][..numL] == lens[0..0 + numL];
  }

  /** The distance half of dhtgen: returns the new number of distances. */
  method CodeDistances(dhist: array<nat>, numD: nat, lens: array<nat>, off: nat) returns (numD': nat)
    requires dhist != lens && off + NDIS <= lens.Length
    requires numD <= dhist.Length && numD <= NDIS && dhist.Length >= 1
    requires numD > 1 ==> Used(dhist[..numD]) >= 2
    requires forall i :: off <= i < lens.Length ==> lens[i] == 0
    modifies dhist, lens
    ensures numD' == Hdist(numD)
    ensures CodesDistances(lens[off..off + numD'], dhist[..numD], numD)
    ensures DistancesRecounted(old(dhist[..]), dhist[..], numD)
    ensures lens[..off] == old(lens[..off])
  {
    hide CodesCounts, Recounted, Used;
    if numD > 1 {
      CodeManyDistances(dhist, numD, lens, off);
      numD' := numD;
    } else {
      lens[off] := 1;
      dhist[0] := 1;
      numD' := 1;
    }
  }

  method CodeManyDistances(dhist: array<nat>, numD: nat, lens: array<nat>, off: nat)
    requires dhist != lens && off + NDIS <= lens.Length
    requires 1 < numD <= dhist.Length && numD <= NDIS && Used(dhist[..numD]) >= 2
    requires forall i :: off <= i < lens.Length ==> lens[i] == 0
    modifies dhist, lens
    ensures CodesCounts(lens[off..off + numD], dhist[..numD])
    ensures Recounted(old(dhist[..numD]), dhist[..numD]) && dhist[numD..] == old(dhist[numD..])
    ensures lens[..off] == old(lens[..off])
  {
    var passes := DhtGen.Huffmanize(dhist, numD, lens, off);
    assert lens[off..off + numD][..numD] == lens[off..off + numD];
  }

  lemma LensFit(lens: seq<nat>, off: nat, lcounts: seq<nat>, dcounts: seq<nat>, numD: nat)
    requires off <= |lens| && CodesCounts(lens[..off], lcounts)
    requires CodesDistances(lens[off..], dcounts, numD)
    ensures AtMost(lens, MAX_LEN)
  {
    hide KraftSum, CodesCounts;
    CountsFit(lens[..off], lcounts);
    if numD > 1 { CountsFit(lens[off..], dcounts); }
    forall i | 0 <= i < |lens| ensures lens[i] <= MAX_LEN {
      assert i < off ==> lens[i] == lens[..off][i];
      assert i >= off ==> lens[i] == lens[off..][i - off];
    }
  }

  /** The code is complete and its lengths are at most 15. */
  lemma CountsFit(lens: seq<nat>, counts: seq<nat>)
    requires CodesCounts(lens, counts)
    ensures AtMost(lens, MAX_LEN) && KraftSum(lens, MAX_LEN) == Pow2(MAX_LEN)
  {
    var used := lens[..|counts|];
    KraftIsOne(counts, used, MAX_LEN);
    forall i | 0 <= i < |lens| ensures lens[i] <= MAX_LEN {
      assert i < |counts| ==> lens[i] == used[i];
    }
    ZerosKeepKraft(lens, |counts|, MAX_LEN);
  }

  lemma {:induction false} ZerosKeepKraft(lens: seq<nat>, n: nat, m: nat)
    requires n <= |lens| && AtMost(lens, m) && forall i :: n <= i < |lens| ==> lens[i] == 0
    ensures AtMost(lens[..n], m) && KraftSum(lens, m) == KraftSum(lens[..n], m)
    decreases |lens|
  {
    if n < |lens| {
      var k := |lens| - 1;
      ZerosKeepKraft(lens[..k], n, m);
      assert lens[..k][..n] == lens[..n];
    } else {
      assert lens[..n] == lens;
    }
  }

  /**
    From counts to decoded tables: the codes that dht_decomp rebuilds from the
    output of dhtgen are prefix-free, give a code to exactly the symbols with a
    nonzero count, and no prefix-free code takes fewer bits for the normalised
    counts, which are the caller's own if these are small enough.
    */
  method GenerateAndDecode(lhist: array<nat>, numL: nat, dhist: array<nat>, numD: nat)
    returns (c: Ctx, hlit: nat, hdist: nat)
    requires lhist != dhist
    requires numL <= lhist.Length && numL <= NLEN && Used(lhist[..numL]) >= 2
    requires numD <= dhist.Length && numD <= NDIS && dhist.Length >= 1
    requires numD > 1 ==> Used(dhist[..numD]) >= 2
    modifies lhist, dhist
    ensures hlit == Hlit(numL) && hdist == Hdist(numD) && |c.ll.len| == NLEN && |c.dist.len| == NDIS
    ensures Recounted(old(lhist[..numL]), lhist[..numL]) && lhist[numL..] == old(lhist[numL..])
    ensures DistancesRecounted(old(dhist[..]), dhist[..], numD)
    ensures GoodCode(c.ll, c.ll.len[..hlit], lhist[..numL])
    ensures if numD > 1 then GoodCode(c.dist, c.dist.len[..hdist], dhist[..numD]) else OneBitCode(c.dist)
    ensures DhtGen.Fits(old(lhist[..numL])) ==> GoodCode(c.ll, c.ll.len[..hlit], old(lhist[..numL]))
    ensures numD > 1 && DhtGen.Fits(old(dhist[..numD])) ==>
      GoodCode(c.dist, c.dist.len[..hdist], old(dhist[..numD]))
  {
    hide GoodCode, Complete, Used, DistancesRecounted, TableBits, Flatten, CodesDistances, CodesCounts;
    var dht := new nat[288];
    var numBytes, validBits, table := Dhtgen(lhist, numL, dhist, numD, dht);
    ghost var lc, dc, lens := lhist[..numL], dhist[..numD], Expand(table.tokens);
    c, hlit, hdist := Decode(dht, table);
    BothGood(c.ll, c.dist, lens, hlit, lc, dc, numD);
    assert lhist[..numL] == lc && dhist[..numD] == dc;
    if numD > 1 {
      SmallDistancesStay(old(dhist[..]), dhist[..], numD);
      assert old(dhist[..])[..numD] == old(dhist[..numD]) && dhist[..][..numD] == dc;
    }
  }

  lemma SmallDistancesStay(before: seq<nat>, after: seq<nat>, numD: nat)
    requires numD <= |before| == |after| && numD > 1 && DistancesRecounted(before, after, numD)
    ensures DhtGen.Fits(before[..numD]) ==> after[..numD] == before[..numD]
  {
  }

  /** The first distance has a code of one bit, which is zero. */
  ghost predicate OneBitCode(t: LenTable) {
    |t.len| == |t.idx| > 0 && |t.base| == MAX_LEN + 1 && t.len[0] == 1 && t.base[1] + t.idx[0] == 0
  }

  lemma BothGood(ll: LenTable, dist: LenTable, lens: seq<nat>, hlit: nat, lc: seq<nat>, dc: seq<nat>, numD: nat)
    requires hlit <= |lens| && Complete(ll, lens[..hlit], NLEN) && Complete(dist, lens[hlit..], NDIS)
    requires CodesCounts(lens[..hlit], lc) && CodesDistances(lens[hlit..], dc, numD)
    ensures |ll.len| == NLEN && |dist.len| == NDIS && hlit <= NLEN && |lens| - hlit <= NDIS
    ensures GoodCode(ll, ll.len[..hlit], lc)
    ensures if numD > 1 then GoodCode(dist, dist.len[..|lens| - hlit], dc) else OneBitCode(dist)
  {
    hide CodesCounts;
    CodeIsGood(ll, lens[..hlit], lc, NLEN);
    if numD > 1 {
      CodeIsGood(dist, lens[hlit..], dc, NDIS);
    } else {
      CodeIsOneBit(dist, lens[hlit..]);
    }
  }

  lemma CodeIsOneBit(t: LenTable, lens: seq<nat>)
    requires Complete(t, lens, NDIS) && lens == [1]
    ensures OneBitCode(t) && |t.len| == NDIS
  {
    OnePassCodes(t, lens, NDIS);
    FirstCode(lens, 1);
    assert t.base[t.len[0]] + t.idx[0] == Code(lens, 0);
  }

  lemma FirstCode(lens: seq<nat>, b: nat)
    requires lens == [1] && b == 1
    ensures Code(lens, 0) == 0
  {
    assert Base(lens, b) == 2 * (Base(lens, b - 1) + UsedCount(lens, b - 1));
  }

  /** What the decoded table of an alphabet says about its counts. */
  ghost predicate GoodCode(t: LenTable, lens: seq<nat>, counts: seq<nat>) {
    && |counts| <= |lens| <= |t.len| && |t.len| == |t.idx| && |t.base| == MAX_LEN + 1
    && AtMost(lens, MAX_LEN) && PrefixFree(lens) && KraftSum(lens, MAX_LEN) == Pow2(MAX_LEN)
    && (forall s :: 0 <= s < |lens| ==> (lens[s] > 0 <==> s < |counts| && counts[s] > 0))
    && (forall s :: 0 <= s < |lens| && lens[s] > 0 ==>
          t.len[s] == lens[s] && t.base[lens[s]] + t.idx[s] == Code(lens, s))
    && (forall words :: CodeFor(counts, words) ==>
          TotalBits(counts, lens[..|counts|]) <= TotalBits(counts, Lengths(words)))
  }

  lemma CodeIsGood(t: LenTable, lens: seq<nat>, counts: seq<nat>, size: nat)
    requires Complete(t, lens, size) && CodesCounts(lens, counts)
    ensures t.len[..|lens|] == lens && GoodCode(t, lens, counts)
  {
    var used := lens[..|counts|];
    CountsFit(lens, counts);
    CanonicalIsPrefixFree(lens, MAX_LEN);
    OnePassCodes(t, lens, size);
    forall s | 0 <= s < |lens| ensures lens[s] > 0 <==> s < |counts| && counts[s] > 0 {
      if s < |counts| { UsedSymbols(counts, used, s); }
    }
    forall words | CodeFor(counts, words)
      ensures TotalBits(counts, used) <= TotalBits(counts, Lengths(words))
    {
      CheapestCode(counts, used, words);
    }
  }

  // ---------- As the library calls it ----------

  /** fill_zero_lzcounts for one alphabet. */
  method FillZeros(hist: array<nat>, val: nat)
    modifies hist
    ensures forall i :: 0 <= i < hist.Length ==> hist[i] == if old(hist[i]) == 0 then val else old(hist[i])
  {
    for i := 0 to hist.Length
      invariant forall j :: 0 <= j < i ==> hist[j] == if old(hist[j]) == 0 then val else old(hist[j])
      invariant forall j :: i <= j < hist.Length ==> hist[j] == old(hist[j])
    {
      if hist[i] == 0 {
        hist[i] := val;
      }
    }
  }

  lemma {:induction false} AllItemsUsed(xs: seq<Item>)
    requires forall i :: 0 <= i < |xs| ==> xs[i].count > 0
    ensures Sum(xs, IsUsed) == |xs|
  {
    if xs != [] { AllItemsUsed(xs[1..]); }
  }

  lemma AllAreUsed(counts: seq<nat>)
    requires forall i :: 0 <= i < |counts| ==> counts[i] > 0
    ensures Used(counts) == |counts|
  {
    AllItemsUsed(AllItems(counts));
  }

  /** The counts with 1 for each zero. */
  function Filled(h: seq<nat>): (r: seq<nat>)
    ensures |r| == |h| && forall i :: 0 <= i < |h| ==> r[i] == if h[i] == 0 then 1 else h[i]
  {
    seq(|h|, i requires 0 <= i < |h| => if h[i] == 0 then 1 else h[i])
  }

  /**
    Whatever the counts, the table that dht_lookup5 has generated gives every symbol a code, and
    the best one for the counts with 1 for each zero if these are small enough.
    */
  method UniversalTable(lhist: array<nat>, dhist: array<nat>) returns (c: Ctx, hlit: nat, hdist: nat)
    requires lhist != dhist && lhist.Length == NLEN && dhist.Length == NDIS
    modifies lhist, dhist
    ensures hlit == NLEN && hdist == NDIS && |c.ll.len| == NLEN && |c.dist.len| == NDIS
    ensures Recounted(Filled(old(lhist[..])), lhist[..]) && Recounted(Filled(old(dhist[..])), dhist[..])
    ensures GoodCode(c.ll, c.ll.len, lhist[..]) && GoodCode(c.dist, c.dist.len, dhist[..])
    ensures DhtGen.Fits(Filled(old(lhist[..]))) ==> GoodCode(c.ll, c.ll.len, Filled(old(lhist[..])))
    ensures DhtGen.Fits(Filled(old(dhist[..]))) ==> GoodCode(c.dist, c.dist.len, Filled(old(dhist[..])))
    ensures forall s :: 0 <= s < NLEN ==> c.ll.len[s] > 0
    ensures forall s :: 0 <= s < NDIS ==> c.dist.len[s] > 0
  {
    hide GoodCode, DhtGen.Fits, DhtGen.Normalizes, Used;
    FillZeros(lhist, 1);
    FillZeros(dhist, 1);
    AllAreUsed(lhist[..]);
    AllAreUsed(dhist[..]);
    assert lhist[..] == Filled(old(lhist[..])) && dhist[..] == Filled(old(dhist[..]));
    WholeTables(lhist[..], dhist[..]);
    ghost var l0, d0 := lhist[..], dhist[..];
    c, hlit, hdist := GenerateAndDecode(lhist, NLEN, dhist, NDIS);
    WholeTables(lhist[..], dhist[..]);
    assert c.ll.len[..hlit] == c.ll.len && c.dist.len[..hdist] == c.dist.len;
    AllCoded(c.ll, l0, lhist[..]);
    AllCoded(c.dist, d0, dhist[..]);
  }

  lemma AllCoded(t: LenTable, before: seq<nat>, after: seq<nat>)
    requires GoodCode(t, t.len, after) && DhtGen.SameZeros(after, before) && |after| == |t.len|
    requires forall s :: 0 <= s < |before| ==> before[s] > 0
    ensures forall s :: 0 <= s < |t.len| ==> t.len[s] > 0
  {
  }

  lemma WholeTables<T>(a: seq<T>, b: seq<T>)
    ensures a[..|a|] == a && b[..|b|] == b
  {
  }
}
