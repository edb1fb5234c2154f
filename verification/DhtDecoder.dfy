/**
  dht_decomp of lib/nx_dht_decomp.c: a streaming decoder that rebuilds the
  canonical codes of a dynamic Huffman table in one pass.

  The arrays that the C struct holds by value are fields of type `seq`.
  */
module DhtDecoder {
  import Buffers
  import opened Bits
  import opened Canonical
  import opened DhtFormat

  /** hold, hold_bits and dbuf of the ctx struct: a window on the input bits. */
  class BitReader {
    const buf: array<nat>
    var hold: nat
    var holdBits: nat
    var dbuf: nat
    ghost var pos: nat           // bits dropped so far
    ghost var stream: seq<bool>  // all the bits of buf

    /** hold has the next bits, as many as a 32-bit register can. */
    ghost predicate Holding()
      reads this, buf
    {
      && stream == Flatten(buf[..])
      && pos + holdBits == 8 * dbuf <= |stream|
      && holdBits <= 32
      && hold == FromBits(stream[pos..pos + holdBits])
    }

    ghost predicate Valid()
      reads this, buf
    {
      Holding() && holdBits <= 24
    }

    constructor (buf: array<nat>)
      ensures Valid() && this.buf == buf && stream == Flatten(buf[..]) && pos == 0
    {
      this.buf := buf;
      hold, holdBits, dbuf, pos, stream := 0, 0, 0, 0, Flatten(buf[..]);
    }

    /** Add a byte to hold. */
    method Replenish()
      requires Valid() && 8 * dbuf < |stream|
      modifies this
      ensures Holding() && pos == old(pos) && stream == old(stream)
      ensures holdBits == old(holdBits) + 8
    {
      hide BitOr, Shl, Low, ToBits;
      ghost var s, b := stream[pos..pos + holdBits], ToBits(buf[dbuf], 8);
      NextUnit(buf[..], dbuf, buf[dbuf], pos, 8);
      hold := BitOr(hold, Shl(Low(buf[dbuf], 8), holdBits));
      holdBits := holdBits + 8;
      dbuf := dbuf + 1;
    }

    /** Filling up to n bits shifts nothing out of the register. */
    predicate KeepsAll(n: nat)
      reads this
    {
      n <= 30 && (holdBits <= 16 || n <= holdBits + 8)
    }

    /** The two if-then blocks that replenish hold. */
    method Fill(n: nat)
      requires Valid() && KeepsAll(n) && pos + n <= |stream|
      modifies this
      ensures Holding() && pos == old(pos) && stream == old(stream)
      ensures (holdBits > 24 ==> holdBits < n + 8) && holdBits >= Buffers.Min(n, old(holdBits) + 16)
      ensures n <= holdBits <==> n <= old(holdBits) + 16
    {
      if holdBits < n {
        Replenish();
      }
      if holdBits < n {
        Replenish();
      }
    }

    /**
      Drop the bits used last time, then peek at the next ones: at all that are needed exactly when
      two bytes more are enough.
      */
    method ShiftThenGetBits(need: nat, shf: nat) returns (result: nat)
      requires Valid() && 0 < need < 16 && shf < 16 && KeepsAll(need + shf)
      requires pos + shf + need <= |stream|
      modifies this
      ensures Valid() && pos == old(pos) + shf && stream == old(stream)
      ensures result == FromBits(stream[pos..pos + Buffers.Min(need, holdBits)])
      ensures need <= holdBits <==> need + shf <= old(holdBits) + 16
    {
      hide Low, Flatten, FromBits;
      Fill(need + shf);
      Drop(shf);
      result := Low(hold, need);
      LowOfHeld(need);
    }

    lemma LowOfHeld(need: nat)
      requires Holding()
      ensures Low(hold, need) == FromBits(stream[pos..pos + Buffers.Min(need, holdBits)])
    {
      LowOfAll(stream[pos..pos + holdBits], need);
      SliceTake(stream, pos, pos + holdBits, Buffers.Min(need, holdBits));
    }

    method Drop(shf: nat)
      requires Holding() && shf <= holdBits
      modifies this
      ensures Holding() && pos == old(pos) + shf && stream == old(stream)
      ensures holdBits == old(holdBits) - shf
    {
      hide Shr, Low, Flatten;
      LowOfBits(stream[pos..pos + holdBits], shf);
      SliceDrop(stream, pos, pos + holdBits, shf);
      hold := Shr(hold, shf);
      holdBits := holdBits - shf;
      pos := pos + shf;
    }
  }

  /** The bits of a number that are not there are zero. */
  lemma LowOfAll(s: seq<bool>, n: nat)
    ensures Low(FromBits(s), n) == FromBits(s[..Buffers.Min(n, |s|)])
  {
    if n <= |s| {
      LowOfBits(s, n);
    } else {
      var zeros := seq(n - |s|, i => false);
      ZerosAbove(s, n - |s|);
      LowOfBits(s + zeros, n);
      assert (s + zeros)[..n] == s + zeros && s[..|s|] == s;
    }
  }

  lemma {:induction false} ZerosAbove(s: seq<bool>, k: nat)
    ensures FromBits(s + seq(k, i => false)) == FromBits(s)
  {
    NoBits(k);
    FromBitsConcat(s, seq(k, i => false));
  }

  lemma {:induction false} NoBits(k: nat)
    ensures FromBits(seq(k, i => false)) == 0
  {
    if k > 0 {
      NoBits(k - 1);
      assert seq(k, i => false)[1..] == seq(k - 1, i => false);
    }
  }

  /** What OR-ing the next byte into hold does. */
  lemma NextUnit(bytes: seq<nat>, k: nat, x: nat, pos: nat, w: nat)
    requires k < |bytes| && x == bytes[k] && pos <= w * k
    ensures w * k + w <= w * |bytes|
    ensures BitOr(FromBits(Units(bytes, w)[pos..w * k]), Shl(Low(x, w), w * k - pos))
         == FromBits(Units(bytes, w)[pos..w * k + w])
  {
    var stream := Units(bytes, w);
    UnitsAt(bytes, k, w);
    FromToLow(x, w);
    OrAbove(stream[pos..w * k], ToBits(x, w));
    SliceJoin(stream, pos, w * k, w * k + w);
  }

  /** The reverse() loop. */
  method Reverse(val: nat, n: nat) returns (result: nat)
    ensures result == FromBits(MsbBits(val, n))
  {
    var v, i := val, 0;
    result := 0;
    while i < n
      invariant 0 <= i <= n
      invariant Reversal(v, n - i, result) == Reversal(val, n, 0)
    {
      result := 2 * result + v % 2;
      v := v / 2;
      i := i + 1;
    }
    ReversalOfMsb(val, n, []);
    assert MsbBits(val, n) + [] == MsbBits(val, n);
  }

  /** len, idx, next_code_base and bl_count of one alphabet. */
  datatype LenTable = LenTable(len: seq<nat>, idx: seq<nat>, base: seq<nat>, count: seq<nat>)

  /** The assignments for one length that was read. */
  function Store(t: LenTable, i: nat, l: nat): LenTable
    requires i < |t.len| && i < |t.idx| && l < |t.count|
  {
    t.(len := t.len[i := l], idx := t.idx[i := t.count[l]],
       count := if l != 0 then t.count[l := t.count[l] + 1] else t.count)
  }

  /** The assignments for one zero of a run of zeros. */
  function StoreZero(t: LenTable, i: nat): LenTable
    requires i < |t.len| && i < |t.idx|
  {
    t.(len := t.len[i := 0], idx := t.idx[i := 0])
  }

  /** The rank of symbol k; unused symbols have none. */
  function UsedRank(lens: seq<nat>, k: nat): nat
    requires k < |lens|
  {
    if lens[k] == 0 then 0 else Rank(lens, k)
  }

  ghost predicate HoldsAt(t: LenTable, lens: seq<nat>, k: nat)
    requires k < |lens| <= |t.len| && |t.len| == |t.idx|
  {
    t.len[k] == lens[k] && t.idx[k] == UsedRank(lens, k)
  }

  /** The table after the lengths `lens` of an alphabet of `size` symbols. */
  ghost predicate Holds(t: LenTable, lens: seq<nat>, size: nat) {
    && |t.len| == |t.idx| == size && |t.base| == |t.count| == MAX_LEN + 1
    && |lens| <= size && AtMost(lens, MAX_LEN)
    && (forall k :: 0 <= k < |lens| ==> HoldsAt(t, lens, k))
    && (forall b :: 0 <= b <= MAX_LEN ==> t.count[b] == UsedCount(lens, b))
  }

  lemma RankKept(lens: seq<nat>, l: nat, k: nat)
    requires k < |lens|
    ensures UsedRank(lens + [l], k) == UsedRank(lens, k)
  {
    assert (lens + [l])[..k] == lens[..k];
  }

  lemma StoreHolds(t: LenTable, lens: seq<nat>, size: nat, l: nat)
    requires Holds(t, lens, size) && |lens| < size && l <= MAX_LEN
    ensures Holds(Store(t, |lens|, l), lens + [l], size)
    ensures l == 0 ==> StoreZero(t, |lens|) == Store(t, |lens|, 0)
  {
    var u, n, more := Store(t, |lens|, l), |lens|, lens + [l];
    assert more[..n] == lens;
    forall k | 0 <= k < |more| ensures HoldsAt(u, more, k) {
      if k < n {
        assert HoldsAt(t, lens, k);
        RankKept(lens, l, k);
      }
    }
    forall b | 0 <= b <= MAX_LEN ensures u.count[b] == UsedCount(more, b) {
      assert t.count[b] == UsedCount(lens, b);
    }
  }

  /** The loop that turns bl_count into the smallest code of each length. */
  method CodeMinimums(count: seq<nat>, base0: seq<nat>, ghost lens: seq<nat>) returns (base: seq<nat>)
    requires |count| == |base0| > 0
    requires forall b :: 0 <= b < |count| ==> count[b] == UsedCount(lens, b)
    ensures |base| == |count| && base[0] == base0[0]
    ensures forall b :: 1 <= b < |base| ==> base[b] == Base(lens, b)
  {
    hide UsedCount;
    base := base0;
    var code, hbits := 0, 1;
    while hbits < |count|
      invariant 1 <= hbits <= |count| == |base| && base[0] == base0[0]
      invariant code == Base(lens, hbits - 1)
      invariant forall b :: 1 <= b < hbits ==> base[b] == Base(lens, b)
    {
      code := 2 * (code + count[hbits - 1]);
      base := base[hbits := code];
      hbits := hbits + 1;
    }
  }

  /** Entry i of the code length code matches the low bits of hcode. */
  predicate Match(len: seq<nat>, code: seq<nat>, hcode: nat, i: nat)
    requires i < |len| && i < |code|
  {
    len[i] != 0 && Low(hcode, len[i]) == Low(code[i], len[i])
  }

  /** search_hclen_tree: the first match, or -1. */
  method SearchHclenTree(len: seq<nat>, code: seq<nat>, hcode: nat) returns (alp: int)
    requires |len| == |code| == CODES
    ensures -1 <= alp < CODES
    ensures alp == -1 <==> forall i :: 0 <= i < CODES ==> !Match(len, code, hcode, i)
    ensures alp >= 0 ==> Match(len, code, hcode, alp)
    ensures forall i :: 0 <= i < alp ==> !Match(len, code, hcode, i)
  {
    var i := 0;
    while i < CODES
      invariant 0 <= i <= CODES
      invariant forall k :: 0 <= k < i ==> !Match(len, code, hcode, k)
    {
      if Match(len, code, hcode, i) {
        return i;
      }
      i := i + 1;
    }
    return -1;
  }

  /** The two arrays hold a prefix-free code, bit-reversed. */
  ghost predicate IsCode(len: seq<nat>, code: seq<nat>, words: seq<seq<bool>>) {
    && |len| == |code| == |words| == CODES
    && (forall i :: 0 <= i < CODES ==> len[i] == |words[i]| <= 7)
    && (forall i :: 0 <= i < CODES && len[i] > 0 ==> code[i] == FromBits(words[i]))
    && (forall i, j :: 0 <= i < CODES && 0 <= j < CODES && i != j && words[i] != [] && words[j] != []
          ==> !(words[i] <= words[j]))
  }

  lemma Comparable(s: seq<bool>, t: seq<bool>, u: seq<bool>)
    requires |s| <= |u| && s == u[..|s|] && t <= u
    ensures s <= t || t <= s
  {
  }

  /** Exactly the codeword at the front of the peeked bits matches. */
  lemma OnlyMatch(len: seq<nat>, code: seq<nat>, words: seq<seq<bool>>, peek: seq<bool>, s: nat, i: nat)
    requires IsCode(len, code, words) && |peek| == 7
    requires s < CODES && words[s] != [] && words[s] <= peek && i < CODES
    ensures Match(len, code, FromBits(peek), i) <==> i == s
  {
    if len[i] != 0 {
      LowOfBits(peek, len[i]);
      LowOfBits(words[i], len[i]);
      assert words[i][..len[i]] == words[i];
      if i == s {
        assert peek[..len[i]] == words[i];
      }
      if FromBits(peek[..len[i]]) == FromBits(words[i]) {
        FromBitsInjective(peek[..len[i]], words[i]);
        Comparable(words[i], words[s], peek);
      }
    }
  }

  ghost predicate StartsAt(stream: seq<bool>, p: nat, bits: seq<bool>) {
    p + |bits| <= |stream| && stream[p..p + |bits|] == bits
  }

  lemma SplitToken(stream: seq<bool>, p: nat, word: seq<bool>, extra: seq<bool>)
    requires StartsAt(stream, p, word + extra) && 1 <= |word| <= 7
    requires p + |word + extra| + 6 <= |stream|
    ensures word <= stream[p..p + 7]
    ensures StartsAt(stream, p + |word|, extra)
  {
    var n, m := |word|, |extra|;
    SliceTake(stream, p, p + n + m, n);
    SliceDrop(stream, p, p + n + m, n);
    assert (word + extra)[..n] == word && (word + extra)[n..] == extra;
    SliceTake(stream, p, p + 7, n);
  }

  /** Two strings one after the other. */
  lemma StartsAtSplit(stream: seq<bool>, p: nat, a: seq<bool>, b: seq<bool>)
    requires StartsAt(stream, p, a + b)
    ensures StartsAt(stream, p, a) && StartsAt(stream, p + |a|, b)
  {
    var n, m := |a|, |b|;
    SliceTake(stream, p, p + n + m, n);
    SliceDrop(stream, p, p + n + m, n);
    assert (a + b)[..n] == a && (a + b)[n..] == b;
  }

  /** The lengths before and after token k. */
  lemma NextLens(tokens: seq<Token>, k: nat)
    requires ValidTokens(tokens) && k < |tokens|
    ensures ValidTokens(tokens[..k]) && ValidTokens(tokens[..k + 1])
    ensures tokens[k].Again? ==> Expand(tokens[..k]) != []
    ensures Expand(tokens[..k + 1]) == Apply(Expand(tokens[..k]), tokens[k])
    ensures Expand(tokens[..k + 1]) <= Expand(tokens)
    ensures k + 1 < |tokens| ==> |Expand(tokens[..k + 1])| < |Expand(tokens)|
  {
    ExpandPrefix(tokens, k + 1);
    assert tokens[..k + 1] == tokens[..k] + [tokens[k]];
    ExpandSnoc(tokens[..k], tokens[k]);
  }

  /** Token k follows the bits of the tokens before it. */
  lemma NextBits(words: seq<seq<bool>>, tokens: seq<Token>, k: nat, stream: seq<bool>, start: nat)
    requires |words| == CODES && ValidTokens(tokens) && k < |tokens|
    requires ValidTokens(tokens[..k]) && ValidTokens(tokens[..k + 1])
    requires StartsAt(stream, start, TokensBits(words, tokens))
    ensures |TokensBits(words, tokens[..k + 1])|
         == |TokensBits(words, tokens[..k])| + |TokenBits(words, tokens[k])|
         <= |TokensBits(words, tokens)|
    ensures StartsAt(stream, start + |TokensBits(words, tokens[..k])|, TokenBits(words, tokens[k]))
  {
    hide TokensBits, TokenBits, ValidTokens, StartsAt;
    var t := tokens[k];
    BitsPrefix(words, tokens, k + 1);
    assert tokens[..k + 1] == tokens[..k] + [t];
    TokensBitsSnoc(words, tokens[..k], t);
    MiddleAt(stream, start, TokensBits(words, tokens[..k]), TokenBits(words, t), TokensBits(words, tokens));
  }

  lemma MiddleAt(stream: seq<bool>, p: nat, a: seq<bool>, b: seq<bool>, all: seq<bool>)
    requires StartsAt(stream, p, all) && a + b <= all
    ensures StartsAt(stream, p + |a|, b)
  {
    PrefixSplit(a + b, all);
    StartsAtSplit(stream, p, a + b, all[|a + b|..]);
    StartsAtSplit(stream, p, a, b);
  }

  /** The tokens can be decoded from `start`, with some bits to spare for the peeks. */
  ghost predicate Decodable(stream: seq<bool>, words: seq<seq<bool>>, tokens: seq<Token>, start: nat) {
    && |words| == CODES && ValidTokens(tokens)
    && (forall k :: 0 <= k < |tokens| ==> words[Symbol(tokens[k])] != [])
    && StartsAt(stream, start, TokensBits(words, tokens))
    && start + |TokensBits(words, tokens)| + 6 <= |stream|
  }

  /** k tokens have been decoded, up to bit p, and stand for lens. */
  ghost predicate Progress(words: seq<seq<bool>>, tokens: seq<Token>, start: nat, k: nat, p: nat, lens: seq<nat>)
    requires |words| == CODES && ValidTokens(tokens)
  {
    && k <= |tokens| && ValidTokens(tokens[..k]) && lens == Expand(tokens[..k]) <= Expand(tokens)
    && (k < |tokens| <==> |lens| < |Expand(tokens)|)
    && p == start + |TokensBits(words, tokens[..k])|
  }

  lemma Nothing(words: seq<seq<bool>>, tokens: seq<Token>)
    requires |words| == CODES && ValidTokens(tokens) && tokens != []
    ensures forall start: nat :: Progress(words, tokens, start, 0, start, [])
  {
    assert tokens[..0] == [];
    ExpandPrefix(tokens, 0);
  }

  /** The next token, and where it leads. */
  lemma NextToken(stream: seq<bool>, words: seq<seq<bool>>, tokens: seq<Token>, start: nat,
                  k: nat, p: nat, lens: seq<nat>)
    requires Decodable(stream, words, tokens, start) && Progress(words, tokens, start, k, p, lens)
    requires k < |tokens|
    ensures var t := tokens[k];
      && ValidToken(t) && words[Symbol(t)] != [] && (t.Again? ==> lens != [])
      && StartsAt(stream, p, TokenBits(words, t)) && p + |TokenBits(words, t)| + 6 <= |stream|
      && |Apply(lens, t)| <= |Expand(tokens)|
      && Progress(words, tokens, start, k + 1, p + |TokenBits(words, t)|, Apply(lens, t))
  {
    hide TokenBits, TokensBits, StartsAt, Apply;
    NextLens(tokens, k);
    NextBits(words, tokens, k, stream, start);
    if k + 1 == |tokens| {
      assert tokens[..k + 1] == tokens;
    }
  }

  /** Where each symbol stands in ORDER. */
  const PLACE: seq<nat> := [3, 17, 15, 13, 11, 9, 7, 5, 4, 6, 8, 10, 12, 14, 16, 18, 0, 1, 2]

  lemma OrderIsPermutation()
    ensures forall i :: 0 <= i < CODES ==> 0 <= ORDER[i] < CODES && PLACE[ORDER[i]] == i
    ensures forall k :: 0 <= k < CODES ==> 0 <= PLACE[k] < CODES && ORDER[PLACE[k]] == k
  {
  }

  lemma {:induction false} NoUsedCodes(n: nat)
    ensures forall b :: 0 <= b ==> UsedCount(Copies(0, n), b) == 0
  {
    if n > 0 {
      NoUsedCodes(n - 1);
      assert Copies(0, n)[..n - 1] == Copies(0, n - 1);
      forall b: nat ensures UsedCount(Copies(0, n), b) == 0 {
        assert UsedCount(Copies(0, n - 1), b) == 0;
      }
    }
  }

  ghost predicate LengthAt(stream: seq<bool>, cl: seq<nat>, i: nat)
    requires |cl| == CODES && i < CODES
  {
    StartsAt(stream, 14 + 3 * i, ToBits(cl[ORDER[i]], 3))
  }

  /** The first i lengths sent have been stored, the others are zero. */
  ghost predicate Partial(len: seq<nat>, cl: seq<nat>, i: nat) {
    && |len| == |cl| == CODES
    && forall k :: 0 <= k < CODES ==> len[ORDER[k]] == if k < i then cl[ORDER[k]] else 0
  }

  lemma PartialStep(len: seq<nat>, cl: seq<nat>, i: nat)
    requires Partial(len, cl, i) && i < CODES
    ensures len[ORDER[i]] == 0
    ensures Partial(len[ORDER[i] := cl[ORDER[i]]], cl, i + 1)
  {
    OrderIsPermutation();
    forall k | 0 <= k < CODES && k != i ensures ORDER[k] != ORDER[i] {
      assert PLACE[ORDER[k]] == k && PLACE[ORDER[i]] == i;
    }
  }

  lemma PartialDone(len: seq<nat>, cl: seq<nat>, n: nat)
    requires Partial(len, cl, n) && forall i :: n <= i < CODES ==> cl[ORDER[i]] == 0
    ensures len == cl
  {
    OrderIsPermutation();
    forall k | 0 <= k < CODES ensures len[k] == cl[k] {
      assert ORDER[PLACE[k]] == k;
    }
  }

  ghost predicate Counted(count: seq<nat>, lens: seq<nat>) {
    |count| == 8 && forall b :: 0 <= b < 8 ==> count[b] == UsedCount(lens, b)
  }

  lemma CountedStep(count: seq<nat>, lens: seq<nat>, k: nat, v: nat)
    requires Counted(count, lens) && k < |lens| && lens[k] == 0 && v < 8
    ensures Counted(if v != 0 then count[v := count[v] + 1] else count, lens[k := v])
  {
    UsedCountUpdate(lens, k, v);
  }

  /** The next code of each length after the first i symbols. */
  ghost predicate NextCodes(next: seq<nat>, lens: seq<nat>, i: nat)
    requires i <= |lens|
  {
    |next| == 8 && forall b :: 1 <= b < 8 ==> next[b] == Base(lens, b) + Count(lens[..i], b)
  }

  lemma NextCodesStep(next: seq<nat>, lens: seq<nat>, i: nat)
    requires i < |lens| && NextCodes(next, lens, i) && lens[i] < 8
    ensures NextCodes(if lens[i] != 0 then next[lens[i] := next[lens[i]] + 1] else next, lens, i + 1)
    ensures lens[i] > 0 ==> next[lens[i]] == Code(lens, i)
  {
    forall b | 1 <= b < 8 ensures Count(lens[..i + 1], b) == Count(lens[..i], b) + (if lens[i] == b then 1 else 0) {
      CountStep(lens, i, b);
    }
  }

  /** The first i codes are in place, bit-reversed. */
  ghost predicate CodesUpTo(code: seq<nat>, lens: seq<nat>, i: nat)
    requires i <= |lens|
  {
    && |code| == |lens|
    && forall k :: 0 <= k < i && lens[k] > 0 ==> code[k] == FromBits(CodeBits(lens, k))
  }

  /** Setting an unused entry adds one code of its new length. */
  lemma UsedCountUpdate(s: seq<nat>, k: nat, v: nat)
    requires k < |s| && s[k] == 0
    ensures forall b :: 0 <= b ==>
      UsedCount(s[k := v], b) == UsedCount(s, b) + (if v == b && b != 0 then 1 else 0)
  {
    forall b: nat { CountUpdate(s, k, v, b); }
  }

  /** The tables of the ctx struct. */
  class Ctx {
    const r: BitReader
    var hclenLen: seq<nat>
    var hclenCode: seq<nat>
    var ll: LenTable
    var dist: LenTable

    /** ctx as memset leaves it, reading from buf. */
    constructor (r: BitReader)
      ensures this.r == r && |hclenLen| == |hclenCode| == CODES
      ensures forall hlit: nat :: Decoded([], hlit)
    {
      this.r := r;
      hclenLen, hclenCode := Copies(0, CODES), Copies(0, CODES);
      var zeros := Copies(0, MAX_LEN + 1);
      ll := LenTable(Copies(0, NLEN), Copies(0, NLEN), zeros, zeros);
      dist := LenTable(Copies(0, NDIS), Copies(0, NDIS), zeros, zeros);
    }

    /** The first hlit lengths are in ll, the others in dist. */
    ghost predicate Decoded(lens: seq<nat>, hlit: nat)
      reads this`ll, this`dist
    {
      var n := if |lens| < hlit then |lens| else hlit;
      Holds(ll, lens[..n], NLEN) && Holds(dist, lens[n..], NDIS)
    }

    /** Store one length, as a literal/length or as a distance. */
    method StoreLength(i: nat, j: nat, hlit: nat, l: nat, zeroRun: bool, ghost lens: seq<nat>)
      returns (i': nat, j': nat)
      requires Decoded(lens, hlit) && i == |lens| && (zeroRun ==> l == 0) && l <= MAX_LEN
      requires hlit <= NLEN && i < hlit + NDIS && j == if i < hlit then 0 else i - hlit
      modifies this`ll, this`dist
      ensures Decoded(lens + [l], hlit)
      ensures i' == i + 1 && j' == if i' < hlit then 0 else i' - hlit
    {
      ghost var more := lens + [l];
      if i < hlit {
        StoreHolds(ll, lens[..i], NLEN, l);
        assert lens[..i] == lens && more[..i + 1] == more && more[i + 1..] == lens[i..];
        ll := if zeroRun then StoreZero(ll, i) else Store(ll, i, l);
        i', j' := i + 1, j;
      } else {
        StoreHolds(dist, lens[hlit..], NDIS, l);
        assert more[..hlit] == lens[..hlit] && more[hlit..] == lens[hlit..] + [l];
        dist := if zeroRun then StoreZero(dist, j) else Store(dist, j, l);
        i', j' := i + 1, j + 1;
      }
    }

    /** The while (arg-- > 0) loops. */
    method StoreRun(i: nat, j: nat, hlit: nat, l: nat, zeroRun: bool, arg: nat, ghost lens: seq<nat>)
      returns (i': nat, j': nat)
      requires Decoded(lens, hlit) && i == |lens| && (zeroRun ==> l == 0) && l <= MAX_LEN
      requires hlit <= NLEN && i + arg <= hlit + NDIS && j == if i < hlit then 0 else i - hlit
      modifies this`ll, this`dist
      ensures Decoded(lens + Copies(l, arg), hlit)
      ensures i' == i + arg && j' == if i' < hlit then 0 else i' - hlit
    {
      var left := arg;
      i', j' := i, j;
      assert lens + Copies(l, 0) == lens;
      while left > 0
        invariant 0 <= left <= arg && i' == i + (arg - left)
        invariant Decoded(lens + Copies(l, arg - left), hlit)
        invariant j' == if i' < hlit then 0 else i' - hlit
      {
        ghost var n := arg - left;
        i', j' := StoreLength(i', j', hlit, l, zeroRun, lens + Copies(l, n));
        CopiesSnoc(lens, l, n);
        left := left - 1;
      }
    }

    /** Peek at 7 bits and find the symbol they start with. */
    method ReadSymbol(used: nat, ghost words: seq<seq<bool>>, ghost s: nat) returns (alp: int)
      requires r.Valid() && IsCode(hclenLen, hclenCode, words) && used <= 7
      requires s < CODES && words[s] != [] && r.pos + used + 7 <= |r.stream|
      requires words[s] <= r.stream[r.pos + used..r.pos + used + 7]
      modifies r
      ensures r.Valid() && r.pos == old(r.pos) + used && r.stream == old(r.stream)
      ensures alp == s
    {
      ghost var peek := r.stream[r.pos + used..r.pos + used + 7];
      var hcode := r.ShiftThenGetBits(7, used);
      alp := SearchHclenTree(hclenLen, hclenCode, hcode);
      OnlyMatch(hclenLen, hclenCode, words, peek, s, s);
      if alp >= 0 {
        OnlyMatch(hclenLen, hclenCode, words, peek, s, alp);
      }
    }

    /** Read the repeat count that follows a symbol of `used` bits. */
    method ReadArg(nbits: nat, used: nat, ghost x: nat) returns (arg: nat)
      requires r.Valid() && 0 < nbits <= 7 && used <= 7 && x < Pow2(nbits)
      requires r.pos + used + nbits <= |r.stream|
      requires r.stream[r.pos + used..r.pos + used + nbits] == ToBits(x, nbits)
      modifies r
      ensures r.Valid() && r.pos == old(r.pos) + used && r.stream == old(r.stream)
      ensures arg == x
    {
      hide FromBits, ToBits, Flatten;
      FromToBits(x, nbits);
      arg := r.ShiftThenGetBits(nbits, used);
    }

    /**
      One pass of the decoding loop, when the unread bits start with token t.
      `used` is how many of the bits before them are still to be dropped.
      */
    method DecodeToken(i: nat, j: nat, hlit: nat, prev: nat, used: nat,
                       ghost words: seq<seq<bool>>, ghost t: Token, ghost lens: seq<nat>)
      returns (i': nat, j': nat, prev': nat, used': nat)
      requires IsCode(hclenLen, hclenCode, words)
      requires At(r.pos + used, i, j, hlit, prev, used, lens)
      requires ValidToken(t) && words[Symbol(t)] != [] && (t.Again? ==> lens != [])
      requires StartsAt(r.stream, r.pos + used, TokenBits(words, t))
      requires r.pos + used + |TokenBits(words, t)| + 6 <= |r.stream|
      requires hlit <= NLEN && |Apply(lens, t)| <= hlit + NDIS
      modifies r, this`ll, this`dist
      ensures r.stream == old(r.stream)
      ensures At(old(r.pos) + used + |TokenBits(words, t)|, i', j', hlit, prev', used', Apply(lens, t))
    {
      hide TokensBits, ValidTokens;
      var alp, arg;
      alp, arg, used' := ReadToken(used, words, t);
      if alp < 16 {
        i', j' := StoreLength(i, j, hlit, alp, false, lens);
        prev' := alp;
      } else {
        i', j', prev' := StoreRepeat(i, j, hlit, prev, alp, arg, t, lens);
      }
    }

    /** Read a symbol and, if it has one, its argument. */
    method ReadToken(used: nat, ghost words: seq<seq<bool>>, ghost t: Token)
      returns (alp: nat, arg: nat, used': nat)
      requires r.Valid() && IsCode(hclenLen, hclenCode, words) && used <= 7
      requires ValidToken(t) && words[Symbol(t)] != []
      requires StartsAt(r.stream, r.pos + used, TokenBits(words, t))
      requires r.pos + used + |TokenBits(words, t)| + 6 <= |r.stream|
      modifies r
      ensures r.Valid() && r.stream == old(r.stream) && used' <= 7
      ensures r.pos + used' == old(r.pos) + used + |TokenBits(words, t)|
      ensures alp == Symbol(t) && (!t.Len? ==> arg == t.times)
    {
      ghost var word, extra := words[Symbol(t)], Extra(t);
      assert hclenLen[Symbol(t)] == |word| <= 7;
      SplitToken(r.stream, r.pos + used, word, extra);
      alp := ReadSymbol(used, words, Symbol(t));
      arg, used' := 0, hclenLen[alp];
      if alp >= 16 {
        arg, used' := ReadRepeat(alp, used', t);
      }
    }

    /** Read the argument of symbol 16, 17 or 18. */
    method ReadRepeat(alp: nat, used: nat, ghost t: Token) returns (arg: nat, used': nat)
      requires r.Valid() && used <= 7 && ValidToken(t) && !t.Len? && alp == Symbol(t)
      requires StartsAt(r.stream, r.pos + used, Extra(t))
      modifies r
      ensures r.Valid() && r.pos == old(r.pos) + used && r.stream == old(r.stream)
      ensures arg == t.times && used' == |Extra(t)| <= 7
    {
      if alp == 16 {
        assert Pow2(2) == 4;
        arg := ReadArg(2, used, t.times - 3);
        arg, used' := arg + 3, 2;
      } else if alp == 17 {
        assert Pow2(3) == 8;
        arg := ReadArg(3, used, t.times - 3);
        arg, used' := arg + 3, 3;
      } else {
        assert Pow2(7) == 128;
        arg := ReadArg(7, used, t.times - 11);
        arg, used' := arg + 11, 7;
      }
    }

    /** Store the lengths of symbol 16, 17 or 18. */
    method StoreRepeat(i: nat, j: nat, hlit: nat, prev: nat, alp: nat, arg: nat,
                       ghost t: Token, ghost lens: seq<nat>)
      returns (i': nat, j': nat, prev': nat)
      requires ValidToken(t) && !t.Len? && alp == Symbol(t) && arg == t.times
      requires Decoded(lens, hlit) && i == |lens| && j == (if i < hlit then 0 else i - hlit)
      requires prev <= MAX_LEN && (t.Again? ==> lens != [] && prev == lens[|lens| - 1])
      requires hlit <= NLEN && |Apply(lens, t)| <= hlit + NDIS
      modifies this`ll, this`dist
      ensures Decoded(Apply(lens, t), hlit)
      ensures i' == |Apply(lens, t)| && j' == if i' < hlit then 0 else i' - hlit
      ensures prev' == Apply(lens, t)[i' - 1] <= MAX_LEN
    {
      if alp == 16 {
        i', j' := StoreRun(i, j, hlit, prev, false, arg, lens);
        prev' := prev;
      } else {
        i', j' := StoreRun(i, j, hlit, 0, true, arg, lens);
        prev' := 0;
      }
    }

    /** HLIT, HDIST and HCLEN. */
    method ReadSizes(ghost t: Table) returns (hlit: nat, hdist: nat, hclen: nat, used: nat)
      requires r.Valid() && r.pos == 0
      requires 257 <= t.hlit <= NLEN && 1 <= t.hdist <= NDIS && 4 <= t.hclen <= CODES
      requires StartsAt(r.stream, 0, ToBits(t.hlit - 257, 5))
      requires StartsAt(r.stream, 5, ToBits(t.hdist - 1, 5))
      requires StartsAt(r.stream, 10, ToBits(t.hclen - 4, 4))
      modifies r
      ensures r.Valid() && r.stream == old(r.stream) && r.pos + used == 14 && used <= 7
      ensures hlit == t.hlit && hdist == t.hdist && hclen == t.hclen
    {
      assert Pow2(5) == 32 && Pow2(4) == 16;
      hlit := ReadArg(5, 0, t.hlit - 257);
      hdist := ReadArg(5, 5, t.hdist - 1);
      hclen := ReadArg(4, 5, t.hclen - 4);
      hlit, hdist, hclen, used := hlit + 257, hdist + 1, hclen + 4, 4;
    }

    /** The length of the next symbol in the order of section 3.2.7. */
    method ReadOneHclen(i: nat, used: nat, count0: seq<nat>, ghost cl: seq<nat>) returns (count: seq<nat>)
      requires r.Valid() && used <= 7 && i < CODES && r.pos + used == 14 + 3 * i
      requires |cl| == CODES && AtMost(cl, 7) && LengthAt(r.stream, cl, i)
      requires Partial(hclenLen, cl, i) && Counted(count0, hclenLen)
      modifies r, this`hclenLen
      ensures r.Valid() && r.stream == old(r.stream) && r.pos == 14 + 3 * i
      ensures Partial(hclenLen, cl, i + 1) && Counted(count, hclenLen)
    {
      var k := ORDER[i];
      assert Pow2(3) == 8;
      var len := ReadArg(3, used, cl[k]);
      PartialStep(hclenLen, cl, i);
      CountedStep(count0, hclenLen, k, len);
      hclenLen := hclenLen[k := len];
      count := count0;
      if len != 0 {
        count := count[len := count[len] + 1];
      }
    }

    /** The code length code lengths and how often each occurs. */
    method ReadHclen(hclen: nat, used: nat, ghost cl: seq<nat>) returns (count: seq<nat>, used': nat)
      requires r.Valid() && used <= 7 && r.pos + used == 14 && 4 <= hclen <= CODES
      requires |cl| == CODES && AtMost(cl, 7)
      requires forall i :: hclen <= i < CODES ==> cl[ORDER[i]] == 0
      requires forall i :: 0 <= i < hclen ==> LengthAt(r.stream, cl, i)
      modifies r, this`hclenLen
      ensures r.Valid() && r.stream == old(r.stream) && r.pos + used' == 14 + 3 * hclen && used' <= 7
      ensures hclenLen == cl && Counted(count, cl)
    {
      hclenLen, count, used' := Copies(0, CODES), Copies(0, 8), used;
      NoUsedCodes(CODES);
      var i := 0;
      while i < hclen
        invariant 0 <= i <= hclen && r.Valid() && r.stream == old(r.stream)
        invariant r.pos + used' == 14 + 3 * i && used' <= 7
        invariant Partial(hclenLen, cl, i) && Counted(count, hclenLen)
      {
        count := ReadOneHclen(i, used', count, cl);
        used' := 3;
        i := i + 1;
      }
      PartialDone(hclenLen, cl, hclen);
    }

    /** The code of each symbol of the code length alphabet, bit-reversed. */
    method AssignHclenCodes(count: seq<nat>)
      requires |hclenLen| == |hclenCode| == CODES && AtMost(hclenLen, 7) && Counted(count, hclenLen)
      modifies this`hclenCode
      ensures CodesUpTo(hclenCode, hclenLen, CODES)
    {
      var next := CodeMinimums(count, Copies(0, 8), hclenLen);
      hclenCode := Copies(0, CODES);
      var i := 0;
      while i < CODES
        invariant 0 <= i <= CODES
        invariant NextCodes(next, hclenLen, i) && CodesUpTo(hclenCode, hclenLen, i)
      {
        var len := hclenLen[i];
        NextCodesStep(next, hclenLen, i);
        if len != 0 {
          var code := Reverse(next[len], len);
          hclenCode := hclenCode[i := code];
          next := next[len := next[len] + 1];
        }
        i := i + 1;
      }
    }

    /** The decoder at bit p, with the lengths so far. */
    ghost predicate At(p: nat, i: nat, j: nat, hlit: nat, prev: nat, used: nat, lens: seq<nat>)
      reads this`ll, this`dist, r, r.buf
    {
      && r.Valid() && used <= 7 && r.pos + used == p
      && Decoded(lens, hlit) && i == |lens| && j == (if i < hlit then 0 else i - hlit)
      && prev <= MAX_LEN && (lens != [] ==> prev == lens[|lens| - 1])
    }

    /** One pass of the loop, with the progress it makes. */
    method DecodeStep(i: nat, j: nat, hlit: nat, prev: nat, used: nat, ghost words: seq<seq<bool>>,
                      ghost tokens: seq<Token>, ghost start: nat, ghost k: nat, ghost p: nat, ghost lens: seq<nat>)
      returns (i': nat, j': nat, prev': nat, used': nat, ghost p': nat, ghost lens': seq<nat>)
      requires IsCode(hclenLen, hclenCode, words) && Decodable(r.stream, words, tokens, start)
      requires k < |tokens| && Progress(words, tokens, start, k, p, lens)
      requires At(p, i, j, hlit, prev, used, lens)
      requires hlit <= NLEN && |Expand(tokens)| <= hlit + NDIS
      modifies r, this`ll, this`dist
      ensures r.stream == old(r.stream) && At(p', i', j', hlit, prev', used', lens')
      ensures Progress(words, tokens, start, k + 1, p', lens')
    {
      ghost var t := tokens[k];
      NextToken(r.stream, words, tokens, start, k, p, lens);
      i', j', prev', used' := DecodeToken(i, j, hlit, prev, used, words, t, lens);
      p', lens' := p + |TokenBits(words, t)|, Apply(lens, t);
    }

    /** The loop over the literal/length and distance lengths. */
    method DecodeLengths(hlit: nat, hdist: nat, used: nat, ghost words: seq<seq<bool>>,
                         ghost tokens: seq<Token>, ghost start: nat)
      requires IsCode(hclenLen, hclenCode, words) && Decodable(r.stream, words, tokens, start)
      requires r.Valid() && used <= 7 && r.pos + used == start
      requires 0 < hlit <= NLEN && hdist <= NDIS && Decoded([], hlit)
      requires |Expand(tokens)| == hlit + hdist
      modifies r, this`ll, this`dist
      ensures Decoded(Expand(tokens), hlit)
    {
      ghost var k: nat, p: nat, lens: seq<nat> := 0, start, [];
      var i: nat, j: nat, prev: nat, used': nat := 0, 0, 0, used;
      Nothing(words, tokens);
      while i < hlit + hdist
        invariant r.stream == old(r.stream) && At(p, i, j, hlit, prev, used', lens)
        invariant Progress(words, tokens, start, k, p, lens)
        decreases |tokens| - k
      {
        i, j, prev, used', p, lens :=
          DecodeStep(i, j, hlit, prev, used', words, tokens, start, k, p, lens);
        k := k + 1;
      }
      assert lens == Expand(tokens);
    }

    /** Read the header: everything before the first token. */
    method ReadHeader(ghost t: Table) returns (hlit: nat, hdist: nat, used: nat)
      requires r.Valid() && r.pos == 0 && ValidTable(t)
      requires |hclenLen| == |hclenCode| == CODES
      requires StartsAt(r.stream, 0, HeaderBits(t.hlit, t.hdist, t.hclen, t.cl))
      modifies r, this`hclenLen, this`hclenCode
      ensures r.Valid() && r.stream == old(r.stream) && used <= 7
      ensures r.pos + used == |HeaderBits(t.hlit, t.hdist, t.hclen, t.cl)|
      ensures hlit == t.hlit && hdist == t.hdist
      ensures IsCode(hclenLen, hclenCode, CodeWords(t.cl))
    {
      hide IsCode, OrderBits;
      HeaderParts(r.stream, t.hlit, t.hdist, t.hclen, t.cl);
      OrderParts(r.stream, t.cl, t.hclen);
      var hclen;
      hlit, hdist, hclen, used := ReadSizes(t);
      var count;
      count, used := ReadHclen(hclen, used, t.cl);
      AssignHclenCodes(count);
      CodeIsCode(hclenLen, hclenCode);
    }

    /** The smallest code of each length, for both alphabets. */
    method BuildBases(ghost lens: seq<nat>, hlit: nat)
      requires Decoded(lens, hlit) && hlit <= |lens|
      modifies this`ll, this`dist
      ensures Complete(ll, lens[..hlit], NLEN) && Complete(dist, lens[hlit..], NDIS)
    {
      var base := CodeMinimums(ll.count, ll.base, lens[..hlit]);
      WithBases(ll, lens[..hlit], NLEN, base);
      ll := ll.(base := base);
      base := CodeMinimums(dist.count, dist.base, lens[hlit..]);
      WithBases(dist, lens[hlit..], NDIS, base);
      dist := dist.(base := base);
    }

    /**
      dht_decomp, with no block header to skip, on a buffer that starts with
      the bits of a valid table and has a few bits after them: it recovers the
      lengths of both alphabets and the tables for their codes.
      */
    method DhtDecomp(ghost t: Table) returns (hlit: nat, hdist: nat)
      requires r.Valid() && r.pos == 0 && ValidTable(t)
      requires |hclenLen| == |hclenCode| == CODES && Decoded([], t.hlit)
      requires StartsAt(r.stream, 0, TableBits(t)) && |TableBits(t)| + 6 <= |r.stream|
      modifies this, r
      ensures hlit == t.hlit && hdist == t.hdist
      ensures Complete(ll, Expand(t.tokens)[..hlit], NLEN)
      ensures Complete(dist, Expand(t.tokens)[hlit..], NDIS)
    {
      hide TokensBits, Expand, ValidTokens, HeaderBits, Complete, CodeWords;
      ghost var head, words := HeaderBits(t.hlit, t.hdist, t.hclen, t.cl), CodeWords(t.cl);
      StartsAtSplit(r.stream, 0, head, TokensBits(words, t.tokens));
      var used;
      hlit, hdist, used := ReadHeader(t);
      DecodeLengths(hlit, hdist, used, words, t.tokens, |head|);
      BuildBases(Expand(t.tokens), hlit);
    }
  }

  /** A finished table: the lengths, their ranks, and the smallest code of each length. */
  ghost predicate Complete(t: LenTable, lens: seq<nat>, size: nat) {
    && Holds(t, lens, size)
    && forall b :: 1 <= b <= MAX_LEN ==> t.base[b] == Base(lens, b)
  }

  lemma WithBases(t: LenTable, lens: seq<nat>, size: nat, base: seq<nat>)
    requires Holds(t, lens, size) && |base| == MAX_LEN + 1
    requires forall b :: 1 <= b <= MAX_LEN ==> base[b] == Base(lens, b)
    ensures Complete(t.(base := base), lens, size)
  {
    forall k | 0 <= k < |lens| ensures HoldsAt(t.(base := base), lens, k) {
      assert HoldsAt(t, lens, k);
    }
  }

  /**
    The one-pass scheme is the two-pass rule of section 3.2.2 of RFC 1951: the
    code of a symbol is the smallest code of its length plus its idx.
    */
  lemma OnePassCodes(t: LenTable, lens: seq<nat>, size: nat)
    requires Complete(t, lens, size)
    ensures t.len[..|lens|] == lens
    ensures forall k :: 0 <= k < |lens| && lens[k] > 0 ==> t.base[t.len[k]] + t.idx[k] == Code(lens, k)
  {
    forall k | 0 <= k < |lens| ensures t.len[k] == lens[k] && t.idx[k] == UsedRank(lens, k) {
      assert HoldsAt(t, lens, k);
    }
  }

  lemma CodeIsCode(len: seq<nat>, code: seq<nat>)
    requires |len| == CODES && AtMost(len, 7) && KraftSum(len, 7) <= Pow2(7)
    requires CodesUpTo(code, len, CODES)
    ensures IsCode(len, code, CodeWords(len))
  {
    CanonicalIsPrefixFree(len, 7);
    var words := CodeWords(len);
    forall i, j | 0 <= i < CODES && 0 <= j < CODES && i != j && words[i] != [] && words[j] != []
      ensures !(words[i] <= words[j])
    {
      assert !(CodeBits(len, i) <= CodeBits(len, j));
    }
  }

  /** Where the fields of the header start. */
  lemma HeaderParts(stream: seq<bool>, hlit: nat, hdist: nat, hclen: nat, cl: seq<nat>)
    requires 257 <= hlit && 1 <= hdist && 4 <= hclen <= CODES && |cl| == CODES
    requires StartsAt(stream, 0, HeaderBits(hlit, hdist, hclen, cl))
    ensures StartsAt(stream, 0, ToBits(hlit - 257, 5))
    ensures StartsAt(stream, 5, ToBits(hdist - 1, 5))
    ensures StartsAt(stream, 10, ToBits(hclen - 4, 4))
    ensures StartsAt(stream, 14, OrderBits(cl, hclen))
  {
    FourParts(stream, ToBits(hlit - 257, 5), ToBits(hdist - 1, 5), ToBits(hclen - 4, 4), OrderBits(cl, hclen));
  }

  lemma FourParts(stream: seq<bool>, a: seq<bool>, b: seq<bool>, c: seq<bool>, d: seq<bool>)
    requires StartsAt(stream, 0, a + b + c + d)
    ensures StartsAt(stream, 0, a) && StartsAt(stream, |a|, b) && StartsAt(stream, |a| + |b|, c)
    ensures StartsAt(stream, |a| + |b| + |c|, d)
  {
    StartsAtSplit(stream, 0, a + b + c, d);
    StartsAtSplit(stream, 0, a + b, c);
    StartsAtSplit(stream, 0, a, b);
  }

  lemma {:induction false} OrderParts(stream: seq<bool>, cl: seq<nat>, n: nat)
    requires |cl| == CODES && n <= CODES && StartsAt(stream, 14, OrderBits(cl, n))
    ensures forall i :: 0 <= i < n ==> LengthAt(stream, cl, i)
  {
    if n > 0 {
      StartsAtSplit(stream, 14, OrderBits(cl, n - 1), ToBits(cl[ORDER[n - 1]], 3));
      OrderParts(stream, cl, n - 1);
    }
  }
}
