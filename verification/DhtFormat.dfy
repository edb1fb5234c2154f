/**
  The dynamic Huffman table of a DEFLATE block (section 3.2.7 of RFC 1951):
  the run-length tokens, what they expand to, and how they are sent.
  */
module DhtFormat {
  import opened Sequences
  import opened Bits
  import opened Canonical

  const CODES := 19    // symbols of the code length alphabet
  const MAX_LEN := 15  // longest literal/length or distance code
  const NLEN := 286    // literal/length symbols
  const NDIS := 30     // distance symbols

  /** The order in which the code length code lengths are sent. */
  const ORDER: seq<nat> := [16, 17, 18, 0, 8, 7, 9, 6, 10, 5, 11, 4, 12, 3, 13, 2, 14, 1, 15]

  /**
    Section 3.2.7 of RFC 1951: up to 257 + 29 and 1 + 29 lengths of at most 15 bits. First the three runs and 0,
    then outwards from 8, up and down in turn.
    */
  lemma OrderIs()
    ensures NLEN == 257 + 29 && NDIS == 1 + 29 && MAX_LEN == 15
    ensures |ORDER| == CODES && ORDER[..4] == [16, 17, 18, 0]
    ensures forall k :: 0 <= k < 8 ==> ORDER[4 + 2 * k] == 8 + k
    ensures forall k :: 0 <= k < 7 ==> ORDER[5 + 2 * k] == 7 - k
  {
  }

  datatype Token =
    | Len(len: nat)       // one code length, 0 to 15
    | Again(times: nat)   // 16: the previous code length, 3 to 6 times
    | Zeros(times: nat)   // 17: a zero length, 3 to 10 times
    | ManyZeros(times: nat) // 18: a zero length, 11 to 138 times

  predicate ValidToken(t: Token) {
    match t
    case Len(l) => l <= MAX_LEN
    case Again(n) => 3 <= n <= 6
    case Zeros(n) => 3 <= n <= 10
    case ManyZeros(n) => 11 <= n <= 138
  }

  function Copies(v: nat, n: nat): (s: seq<nat>)
    ensures |s| == n
    ensures forall i :: 0 <= i < n ==> s[i] == v
  {
    seq(n, _ => v)
  }

  lemma CopiesSnoc(s: seq<nat>, v: nat, n: nat)
    ensures (s + Copies(v, n)) + [v] == s + Copies(v, n + 1)
    ensures [v] + Copies(v, n) == Copies(v, n + 1)
    ensures Copies(v, 1) == [v]
  {
    assert Copies(v, n) + [v] == Copies(v, n + 1);
    Assoc(s, Copies(v, n), [v]);
  }

  /** The lengths after one more token. */
  function Apply(lens: seq<nat>, t: Token): (r: seq<nat>)
    requires t.Again? ==> lens != []
    ensures lens <= r
    ensures ValidToken(t) ==> |lens| < |r|
  {
    match t
    case Len(l) => lens + [l]
    case Again(n) => lens + Copies(lens[|lens| - 1], n)
    case Zeros(n) => lens + Copies(0, n)
    case ManyZeros(n) => lens + Copies(0, n)
  }

  /** Only a first token can have nothing to repeat. */
  predicate ValidTokens(ts: seq<Token>) {
    && (forall i :: 0 <= i < |ts| ==> ValidToken(ts[i]))
    && (ts != [] ==> !ts[0].Again?)
  }

  /** The code lengths that a sequence of tokens describes. */
  function Expand(ts: seq<Token>): (r: seq<nat>)
    requires ValidTokens(ts)
    ensures |ts| <= |r|
  {
    if ts == [] then []
    else
      var k := |ts| - 1;
      var before := Expand(ts[..k]);
      assert ts[k].Again? ==> k > 0;
      Apply(before, ts[k])
  }

  /** The symbol of the code length alphabet that announces a token. */
  function Symbol(t: Token): (s: nat)
    requires ValidToken(t)
    ensures s < CODES
  {
    match t
    case Len(l) => l
    case Again(_) => 16
    case Zeros(_) => 17
    case ManyZeros(_) => 18
  }

  /** The repeat count that follows the symbol. */
  function Extra(t: Token): (s: seq<bool>)
    requires ValidToken(t)
  {
    match t
    case Len(_) => []
    case Again(n) => ToBits(n - 3, 2)
    case Zeros(n) => ToBits(n - 3, 3)
    case ManyZeros(n) => ToBits(n - 11, 7)
  }

  /** The runs and their extra bits as in section 3.2.7 of RFC 1951. */
  lemma ExtraIs(t: Token, n: nat)
    requires ValidToken(t)
    ensures t == Again(n) ==> Symbol(t) == 16 && |Extra(t)| == 2 && FromBits(Extra(t)) == n - 3
    ensures t == Zeros(n) ==> Symbol(t) == 17 && |Extra(t)| == 3 && FromBits(Extra(t)) == n - 3
    ensures t == ManyZeros(n) ==> Symbol(t) == 18 && |Extra(t)| == 7 && FromBits(Extra(t)) == n - 11
    ensures t == Len(n) ==> Symbol(t) == n && Extra(t) == []
  {
    match t
    case Len(_) =>
    case Again(k) => FromToBits(k - 3, 2);
    case Zeros(k) => FromToBits(k - 3, 3);
    case ManyZeros(k) => FromToBits(k - 11, 7);
  }

  /** A token as it is sent, with the codeword of each symbol of the code length alphabet. */
  function TokenBits(words: seq<seq<bool>>, t: Token): (s: seq<bool>)
    requires |words| == CODES && ValidToken(t)
  {
    words[Symbol(t)] + Extra(t)
  }

  function TokensBits(words: seq<seq<bool>>, ts: seq<Token>): (s: seq<bool>)
    requires |words| == CODES && ValidTokens(ts)
  {
    if ts == [] then []
    else TokensBits(words, ts[..|ts| - 1]) + TokenBits(words, ts[|ts| - 1])
  }

  /** The first n code length code lengths, three bits each. */
  function OrderBits(cl: seq<nat>, n: nat): (s: seq<bool>)
    requires |cl| == CODES && n <= CODES
    ensures |s| == 3 * n
  {
    if n == 0 then [] else OrderBits(cl, n - 1) + ToBits(cl[ORDER[n - 1]], 3)
  }

  /** A table as section 3.2.7 lays it out. */
  datatype Table = Table(hlit: nat, hdist: nat, hclen: nat, cl: seq<nat>, tokens: seq<Token>)

  /**
    A table that a decoder must accept: sizes within the alphabets, a code
    length code that satisfies the Kraft inequality and has a code for every
    symbol in use, and tokens that describe exactly hlit + hdist lengths.
    */
  ghost predicate ValidTable(t: Table) {
    && 257 <= t.hlit <= NLEN && 1 <= t.hdist <= NDIS && 4 <= t.hclen <= CODES
    && |t.cl| == CODES && AtMost(t.cl, 7) && KraftSum(t.cl, 7) <= Pow2(7)
    && (forall i :: t.hclen <= i < CODES ==> t.cl[ORDER[i]] == 0)
    && ValidTokens(t.tokens)
    && (forall i :: 0 <= i < |t.tokens| ==> t.cl[Symbol(t.tokens[i])] > 0)
    && |Expand(t.tokens)| == t.hlit + t.hdist
  }

  function HeaderBits(hlit: nat, hdist: nat, hclen: nat, cl: seq<nat>): (s: seq<bool>)
    requires 257 <= hlit && 1 <= hdist && 4 <= hclen <= CODES && |cl| == CODES
    ensures |s| == 14 + 3 * hclen
  {
    ToBits(hlit - 257, 5) + ToBits(hdist - 1, 5) + ToBits(hclen - 4, 4) + OrderBits(cl, hclen)
  }

  function Layout(hlit: nat, hdist: nat, hclen: nat, cl: seq<nat>,
                  words: seq<seq<bool>>, tokens: seq<Token>): seq<bool>
    requires 257 <= hlit && 1 <= hdist && 4 <= hclen <= CODES && |cl| == |words| == CODES
    requires ValidTokens(tokens)
  {
    HeaderBits(hlit, hdist, hclen, cl) + TokensBits(words, tokens)
  }

  /** The bits of a table. */
  function TableBits(t: Table): seq<bool>
    requires 257 <= t.hlit && 1 <= t.hdist && 4 <= t.hclen <= CODES && |t.cl| == CODES
    requires ValidTokens(t.tokens)
  {
    Layout(t.hlit, t.hdist, t.hclen, t.cl, CodeWords(t.cl), t.tokens)
  }

  lemma ExpandSnoc(ts: seq<Token>, t: Token)
    requires ValidTokens(ts + [t])
    ensures ValidTokens(ts) && (t.Again? ==> Expand(ts) != [])
    ensures Expand(ts + [t]) == Apply(Expand(ts), t)
  {
    var us := ts + [t];
    assert us[..|us| - 1] == ts;
    assert forall i :: 0 <= i < |ts| ==> ts[i] == us[i];
    assert t.Again? ==> ts != [];
  }

  lemma TokensBitsSnoc(words: seq<seq<bool>>, ts: seq<Token>, t: Token)
    requires |words| == CODES && ValidTokens(ts + [t])
    ensures ValidTokens(ts) && ValidToken(t)
    ensures TokensBits(words, ts + [t]) == TokensBits(words, ts) + TokenBits(words, t)
  {
    var us := ts + [t];
    assert us[..|us| - 1] == ts && us[|us| - 1] == t;
    assert forall i :: 0 <= i < |ts| ==> ts[i] == us[i];
  }

  /** The lengths of the first k tokens start those of all of them. */
  lemma {:induction false} ExpandPrefix(ts: seq<Token>, k: nat)
    requires ValidTokens(ts) && k <= |ts|
    ensures ValidTokens(ts[..k])
    ensures Expand(ts[..k]) <= Expand(ts)
    ensures k < |ts| ==> |Expand(ts[..k])| < |Expand(ts)|
    decreases |ts|
  {
    if k < |ts| {
      var n := |ts| - 1;
      ExpandPrefix(ts[..n], k);
      assert ts[..n][..k] == ts[..k];
      assert ts == ts[..n] + [ts[n]];
      ExpandSnoc(ts[..n], ts[n]);
    } else {
      assert ts[..k] == ts;
    }
  }

  /** So do the bits. */
  lemma {:induction false} BitsPrefix(words: seq<seq<bool>>, ts: seq<Token>, k: nat)
    requires |words| == CODES && ValidTokens(ts) && k <= |ts|
    ensures ValidTokens(ts[..k])
    ensures TokensBits(words, ts[..k]) <= TokensBits(words, ts)
    decreases |ts|
  {
    if k < |ts| {
      var n := |ts| - 1;
      BitsPrefix(words, ts[..n], k);
      assert ts[..n][..k] == ts[..k];
    } else {
      assert ts[..k] == ts;
    }
  }

  // ---------- Run-length encoding ----------

  function Times(t: Token, n: nat): (ts: seq<Token>)
    ensures |ts| == n
    ensures forall i :: 0 <= i < n ==> ts[i] == t
  {
    seq(n, _ => t)
  }

  /** One to six repeats of a length. */
  function FewRepeats(v: nat, n: nat): seq<Token> {
    if n < 3 then Times(Len(v), n) else [Again(n)]
  }

  /** Repeats of a length that was sent: six at a time. */
  function Repeats(v: nat, n: nat): seq<Token> {
    if n <= 6 then FewRepeats(v, n) else [Again(6)] + Repeats(v, n - 6)
  }

  function FewZeros(n: nat): seq<Token> {
    if n < 3 then Times(Len(0), n) else if n <= 10 then [Zeros(n)] else [ManyZeros(n)]
  }

  /** Zeros, 138 at a time. */
  function ZeroRun(n: nat): seq<Token> {
    if n <= 138 then FewZeros(n) else [ManyZeros(138)] + ZeroRun(n - 138)
  }

  /** A run of n lengths v. */
  function RunTokens(v: nat, n: nat): seq<Token>
    requires n > 0
  {
    if v == 0 then ZeroRun(n) else [Len(v)] + Repeats(v, n - 1)
  }

  /** How many lengths at the end are the same. */
  function LastRun(s: seq<nat>): (n: nat)
    requires s != []
    ensures 1 <= n <= |s|
  {
    var k := |s| - 1;
    if k > 0 && s[k - 1] == s[k] then LastRun(s[..k]) + 1 else 1
  }

  /** The lengths before the run at the end. */
  function BeforeRun(s: seq<nat>): seq<nat>
    requires s != []
  {
    s[..|s| - LastRun(s)]
  }

  /** Run by run, each in tokens of the greatest number as long as they fit. */
  function RunLengths(s: seq<nat>): seq<Token>
    decreases |s|
  {
    if s == [] then [] else RunLengths(BeforeRun(s)) + RunTokens(s[|s| - 1], LastRun(s))
  }

  lemma RunGrows(s: seq<nat>, x: nat)
    requires s != [] && x == s[|s| - 1]
    ensures LastRun(s + [x]) == LastRun(s) + 1 && BeforeRun(s + [x]) == BeforeRun(s)
  {
    LastRunSnoc(s, x);
    DropFromBoth(s, x, LastRun(s));
  }

  lemma RunStarts(s: seq<nat>, x: nat)
    requires s == [] || x != s[|s| - 1]
    ensures LastRun(s + [x]) == 1 && BeforeRun(s + [x]) == s
  {
    if s != [] { LastRunSnoc(s, x); }
    DropFromBoth(s, x, 0);
    assert s[..|s|] == s;
  }

  lemma LastRunSnoc(s: seq<nat>, x: nat)
    requires s != []
    ensures LastRun(s + [x]) == if x == s[|s| - 1] then LastRun(s) + 1 else 1
  {
    assert (s + [x])[..|s|] == s;
  }

  lemma DropFromBoth(s: seq<nat>, x: nat, n: nat)
    requires n <= |s|
    ensures (s + [x])[..|s + [x]| - (n + 1)] == s[..|s| - n]
  {
  }

  lemma TimesSnoc(t: Token, n: nat)
    ensures Times(t, n) + [t] == Times(t, n + 1) == [t] + Times(t, n)
  {
  }

  lemma {:induction false} RepeatsAre(v: nat, k: nat, c: nat)
    requires 1 <= c <= 6
    ensures Repeats(v, 6 * k + c) == Times(Again(6), k) + FewRepeats(v, c)
    decreases k
  {
    if k == 0 {
      assert Times(Again(6), 0) == [];
    } else {
      RepeatsAre(v, k - 1, c);
      TimesSnoc(Again(6), k - 1);
      TokenAssoc([Again(6)], Times(Again(6), k - 1), FewRepeats(v, c));
    }
  }

  lemma {:induction false} ZerosAre(k: nat, c: nat)
    requires 1 <= c <= 138
    ensures ZeroRun(138 * k + c) == Times(ManyZeros(138), k) + FewZeros(c)
    decreases k
  {
    if k == 0 {
      assert Times(ManyZeros(138), 0) == [];
    } else {
      ZerosAre(k - 1, c);
      TimesSnoc(ManyZeros(138), k - 1);
      TokenAssoc([ManyZeros(138)], Times(ManyZeros(138), k - 1), FewZeros(c));
    }
  }

  lemma TokenAssoc(a: seq<Token>, b: seq<Token>, c: seq<Token>)
    ensures (a + b) + c == a + (b + c)
  {
  }
}
