/**
  encode_lengths of lib/nx_dhtgen.c: the run-length encoder of code lengths and
  the bit packer below it.
  */
module DhtEncoder {
  import opened Sequences
  import opened Bits
  import opened Canonical
  import opened DhtFormat
  import HclenTable
  import opened HclenType

  /**
    The variables that append_bits and flush_bits update: the output bytes, the
    position `dht` in them, and the bits of the byte under construction.
    Every value fits its C type, so no operation here wraps.
    */
  class BitWriter {
    const bytes: array<nat>
    var pos: nat
    var bitbuf: nat
    var bitptr: nat
    var bittotal: nat
    ghost var held: seq<bool>      // the bits of bitbuf
    ghost var contents: seq<bool>  // the bits written so far

    ghost predicate Valid()
      reads this, bytes
    {
      && pos < bytes.Length
      && bitptr == |held| < 8 && bitbuf == FromBits(held)
      && (bytes[pos] == bitbuf || bytes[pos] == 0)  // a new byte gets its bits at the next OR
      && bittotal == 8 * pos + bitptr == |contents|
      && contents == Flatten(bytes[..pos]) + held
    }

    constructor (dht: array<nat>)
      requires dht.Length > 0
      modifies dht
      ensures bytes == dht && Valid() && contents == []
    {
      bytes := dht;
      pos, bitbuf, bitptr, bittotal, held, contents := 0, 0, 0, 0, [], [];
      new;
      bytes[0] := 0;
    }

    method Append(data: nat, nbits: nat)
      requires Valid() && nbits <= 8 && data < Pow2(nbits)
      requires bittotal + nbits < 8 * bytes.Length
      modifies this, bytes
      ensures Valid() && bittotal == old(bittotal) + nbits
      ensures contents == old(contents) + ToBits(data, nbits)
    {
      ghost var before, all := bytes[..pos], held + ToBits(data, nbits);
      OrBits(data, nbits);
      Assoc(Flatten(before), held, ToBits(data, nbits));
      bitptr := bitptr + nbits;
      bittotal := bittotal + nbits;
      contents := contents + ToBits(data, nbits);
      if bitptr > 7 {
        NextByte(before, all);
      } else {
        held := all;
      }
    }

    /** The first two lines of append_bits. */
    method OrBits(data: nat, nbits: nat)
      requires Valid() && data < Pow2(nbits)
      modifies this`bitbuf, bytes
      ensures bitbuf == FromBits(held + ToBits(data, nbits))
      ensures |held| + nbits < 8 ==> bitbuf % 256 == bitbuf
      ensures bytes[pos] == bitbuf % 256 && bytes[..pos] == old(bytes[..pos])
    {
      OrData(held, data, nbits);
      BitOrZero(FromBits(held + ToBits(data, nbits)) % 256);
      bitbuf := BitOr(bitbuf, Shl(data, bitptr));
      OrByte();
    }

    /** *dht = *dht | (bitbuf & 0xFF) */
    method OrByte()
      requires pos < bytes.Length
      requires BitOr(bytes[pos], bitbuf % 256) == bitbuf % 256
      modifies bytes
      ensures bytes[pos] == bitbuf % 256
      ensures bytes[..pos] == old(bytes[..pos])
    {
      bytes[pos] := BitOr(bytes[pos], bitbuf % 256);
    }

    /** flush_bits: push out any remaining byte, and clear the one after it. */
    method Flush()
      requires Valid() && pos + 1 < bytes.Length
      modifies this, bytes
      ensures bittotal == old(bittotal)
      ensures old(contents) <= Flatten(bytes[..])
      ensures old(bitptr) > 0 ==> pos == old(pos) + 1 && bytes[pos] == 0
    {
      ghost var before := bytes[..pos];
      if bitptr > 0 {
        SmallByte(held);
        BitOrZero(bitbuf);
        BitOrSelf(bitbuf);
        OrByte();
        assert bytes[..pos + 1] == before + [bitbuf];
        PartialByte(before, held);
        pos := pos + 1;
        bytes[pos] := 0;
        assert bytes[..pos] == before + [bitbuf];
      }
      assert bytes[..] == bytes[..pos] + bytes[pos..];
      UnitsConcat(bytes[..pos], bytes[pos..], 8);
    }

    /** The full-byte branch of append_bits. */
    method NextByte(ghost before: seq<nat>, ghost all: seq<bool>)
      requires pos + 1 < bytes.Length && bytes[..pos] == before && bytes[pos] == bitbuf % 256
      requires 8 <= bitptr == |all| < 16 && bitbuf == FromBits(all)
      requires bittotal == 8 * pos + bitptr == |contents| && contents == Flatten(before) + all
      modifies this, bytes
      ensures Valid() && bittotal == old(bittotal) && contents == old(contents)
    {
      ByteOut(before, all);
      pos := pos + 1;
      assert bytes[..pos] == before + [bitbuf % 256];
      bytes[pos] := 0;
      assert bytes[..pos] == before + [bitbuf % 256];
      bitptr := bitptr - 8;
      bitbuf := bitbuf / 256;
      held := all[8..];
      assert all == all[..8] + all[8..];
      Assoc(Flatten(before), all[..8], all[8..]);
    }
  }

  lemma OrData(held: seq<bool>, data: nat, nbits: nat)
    requires |held| < 8 && data < Pow2(nbits)
    ensures var all := FromBits(held + ToBits(data, nbits));
      && BitOr(FromBits(held), Shl(data, |held|)) == all
      && BitOr(FromBits(held), all % 256) == all % 256
      && (|held| + nbits < 8 ==> all % 256 == all)
  {
    FromToBits(data, nbits);
    OrAbove(held, ToBits(data, nbits));
    OrLowByte(held, ToBits(data, nbits));
  }

  lemma OrLowByte(held: seq<bool>, more: seq<bool>)
    requires |held| < 8
    ensures var all := FromBits(held + more);
      BitOr(FromBits(held), all % 256) == all % 256 && (|held + more| < 8 ==> all % 256 == all)
  {
    hide FromBits, BitOr;
    var all := held + more;
    assert Pow2(8) == 256;
    if |all| < 8 {
      Pow2Mono(|all|, 8);
      OrOver(held, more);
    } else {
      FromBitsMask(all, 8);
      assert all[..8] == held + more[..8 - |held|];
      OrOver(held, more[..8 - |held|]);
    }
  }

  lemma LowByte(all: seq<bool>)
    requires |all| >= 8
    ensures FromBits(all) % 256 == FromBits(all[..8])
    ensures FromBits(all) / 256 == FromBits(all[8..])
  {
    assert Pow2(8) == 256;
    FromBitsMask(all, 8);
  }

  lemma ByteOut(before: seq<nat>, all: seq<bool>)
    requires |all| >= 8
    ensures Flatten(before + [FromBits(all) % 256]) == Flatten(before) + all[..8]
    ensures FromBits(all) / 256 == FromBits(all[8..])
  {
    LowByte(all);
    var x := FromBits(all[..8]);
    assert ToBits(x, 8) == all[..8] by { ToFromBits(all[..8]); }
    UnitsSnoc(before, x, 8);
  }

  lemma SmallByte(held: seq<bool>)
    requires |held| < 8
    ensures FromBits(held) % 256 == FromBits(held)
  {
    assert Pow2(8) == 256;
    Pow2Mono(|held|, 8);
  }

  /** A partial byte starts with the bits it holds. */
  lemma PartialByte(before: seq<nat>, held: seq<bool>)
    requires |held| < 8
    ensures Flatten(before) + held <= Flatten(before + [FromBits(held)])
  {
    var x := FromBits(held);
    UnitsSnoc(before, x, 8);
    HeldStart(held, 8);
    PrefixUnder(Flatten(before), held, ToBits(x, 8));
  }

  lemma PrefixUnder<T>(f: seq<T>, s: seq<T>, t: seq<T>)
    requires s <= t
    ensures f + s <= f + t
  {
  }

  lemma {:induction false} HeldStart(held: seq<bool>, w: nat)
    requires |held| <= w
    ensures held <= ToBits(FromBits(held), w)
    decreases |held|
  {
    if held != [] {
      HeldStart(held[1..], w - 1);
      assert held == [held[0]] + held[1..];
    }
  }

  /** hclen[i] holds codeword i, ready to be sent. */
  ghost predicate HasWord(hclen: seq<Hclen>, words: seq<seq<bool>>, i: nat)
    requires i < |hclen| && i < |words|
  {
    && hclen[i].nbits == |words[i]| <= 7
    && hclen[i].code < Pow2(hclen[i].nbits)
    && ToBits(hclen[i].code, hclen[i].nbits) == words[i]
  }

  ghost predicate IsCode(hclen: seq<Hclen>, words: seq<seq<bool>>) {
    && |hclen| == CODES && |words| == CODES
    && forall i :: 0 <= i < CODES ==> HasWord(hclen, words, i)
  }

  /** A token takes at most 7 bits for each length it stands for. */
  lemma TokenSize(words: seq<seq<bool>>, lens: seq<nat>, t: Token)
    requires |words| == CODES && ValidToken(t) && |words[Symbol(t)]| <= 7
    requires t.Again? ==> lens != []
    ensures |TokenBits(words, t)| <= 7 * (|Apply(lens, t)| - |lens|)
  {
  }

  /** The table so far with one more token. */
  lemma OneMore(header: seq<bool>, words: seq<seq<bool>>, tokens: seq<Token>, t: Token)
    requires |words| == CODES && ValidTokens(tokens)
    requires ValidToken(t) && |words[Symbol(t)]| <= 7 && (t.Again? ==> Expand(tokens) != [])
    ensures ValidTokens(tokens + [t]) && Expand(tokens + [t]) == Apply(Expand(tokens), t)
    ensures header + TokensBits(words, tokens + [t])
         == header + TokensBits(words, tokens) + TokenBits(words, t)
    ensures |TokenBits(words, t)| <= 7 * (|Apply(Expand(tokens), t)| - |Expand(tokens)|)
  {
    ExpandSnoc(tokens, t);
    TokensBitsSnoc(words, tokens, t);
    TokenSize(words, Expand(tokens), t);
    Assoc(header, TokensBits(words, tokens), TokenBits(words, t));
  }

  const NO_LEN := 0xffff_ffff  // the sentinel length UINT32_MAX
  const MAX_LENS := NLEN + NDIS

  /** The bits of a table so far: a header and the tokens after it. */
  class TokenWriter {
    const w: BitWriter
    const hclen: seq<Hclen>
    ghost const words: seq<seq<bool>>
    ghost const header: seq<bool>
    ghost var tokens: seq<Token>
    ghost var lens: seq<nat>  // what the tokens expand to

    ghost predicate Valid()
      reads this, w, w.bytes
    {
      && w.Valid() && w.bytes.Length >= 288
      && |header| == 71 && IsCode(hclen, words)
      && ValidTokens(tokens) && lens == Expand(tokens)
      && w.contents == header + TokensBits(words, tokens)
      && w.bittotal <= 71 + 7 * |lens|
    }

    constructor (w: BitWriter, hclen: seq<Hclen>, ghost words: seq<seq<bool>>, ghost header: seq<bool>)
      requires w.Valid() && w.bytes.Length >= 288 && IsCode(hclen, words)
      requires |header| == 71 && w.contents == header
      ensures this.w == w && this.hclen == hclen && this.words == words && this.header == header
      ensures Valid() && lens == [] && tokens == []
    {
      this.w, this.hclen, this.words, this.header := w, hclen, words, header;
      tokens, lens := [], [];
    }

    /** Write one token. */
    method Put(t: Token)
      requires Valid() && ValidToken(t) && (t.Again? ==> lens != [])
      requires |Apply(lens, t)| <= MAX_LENS
      modifies this, w, w.bytes
      ensures Valid() && lens == Apply(old(lens), t) && tokens == old(tokens) + [t]
    {
      hide TokenBits;
      assert HasWord(hclen, words, Symbol(t));
      OneMore(header, words, tokens, t);
      WriteToken(w, hclen, words, t);
      tokens, lens := tokens + [t], Apply(lens, t);
    }

    /** Write the copies of a length that are too few for a repeat code. */
    method PutCopies(l: nat, n: nat)
      requires Valid() && l <= MAX_LEN && |lens| + n <= MAX_LENS
      modifies this, w, w.bytes
      ensures Valid() && lens == old(lens) + Copies(l, n) && tokens == old(tokens) + Times(Len(l), n)
    {
      var j := 1;
      while j <= n
        invariant 1 <= j <= n + 1 && Valid()
        invariant lens == old(lens) + Copies(l, j - 1) && tokens == old(tokens) + Times(Len(l), j - 1)
      {
        CopiesSnoc(old(lens), l, j - 1);
        TimesSnoc(Len(l), j - 1);
        TokenAssoc(old(tokens), Times(Len(l), j - 1), [Len(l)]);
        Put(Len(l));
        j := j + 1;
      }
    }
  }

  // ---------- The tokens of a run so far ----------

  function Sent(state: nat, v: nat, full: nat): seq<Token> {
    if state == 1 then [] else if state == 16 then [Len(v)] + Times(Again(6), full) else Times(ManyZeros(138), full)
  }

  function RunSoFar(state: nat, count: nat, full: nat): nat {
    if state == 1 then 1 else if state == 16 then 1 + 6 * full + count else 138 * full + count
  }

  /** What a state has still to write. */
  function Waiting(state: nat, v: nat, count: nat): seq<Token> {
    if state == 1 then [Len(v)] else if state == 16 then FewRepeats(v, count) else FewZeros(count)
  }

  /**
    The runs before the last one of the lengths are written, and of the last one the tokens
    of the greatest number.
    */
  ghost predicate Wrote(ts: seq<Token>, lens: seq<nat>, state: nat, v: nat, count: nat, full: nat) {
    if state == 0 then ts == [] && lens == []
    else if v == NO_LEN then ts == RunLengths(lens)
    else
      && lens != [] && lens[|lens| - 1] == v && LastRun(lens) == RunSoFar(state, count, full)
      && ts == RunLengths(BeforeRun(lens)) + Sent(state, v, full)
  }

  /** A count as the states keep it. */
  predicate InState(state: nat, v: nat, count: nat) {
    || (state == 1 && v <= MAX_LEN)
    || (state == 16 && 0 < v <= MAX_LEN && 1 <= count <= 6)
    || (state == 17 && v == 0 && 1 <= count <= 10)
    || (state == 18 && v == 0 && 11 <= count <= 138)
  }

  lemma WholeRun(state: nat, v: nat, count: nat, full: nat)
    requires InState(state, v, count)
    ensures RunSoFar(state, count, full) > 0
    ensures RunTokens(v, RunSoFar(state, count, full)) == Sent(state, v, full) + Waiting(state, v, count)
  {
    if state == 1 {
      assert RunTokens(v, 1) == [Len(v)];
    } else if state == 16 {
      RepeatsAre(v, full, count);
      TokenAssoc([Len(v)], Times(Again(6), full), FewRepeats(v, count));
    } else {
      ZerosAre(full, count);
    }
  }

  lemma WroteFirst(x: nat, count: nat, full: nat)
    requires x != NO_LEN
    ensures Wrote([], [x], 1, x, count, full)
  {
    assert [x][..0] == [];
    assert RunLengths([]) + Sent(1, x, full) == [];
  }

  /** The run ends, with another one or the sentinel. */
  lemma WroteRun(ts: seq<Token>, lens: seq<nat>, state: nat, v: nat, count: nat, full: nat, x: nat, count': nat)
    requires Wrote(ts, lens, state, v, count, full) && InState(state, v, count) && x != v
    ensures Wrote(ts + Waiting(state, v, count), if x == NO_LEN then lens else lens + [x], 1, x, count', full)
  {
    hide RunTokens, Times;
    WholeRun(state, v, count, full);
    TokenAssoc(RunLengths(BeforeRun(lens)), Sent(state, v, full), Waiting(state, v, count));
    var us := ts + Waiting(state, v, count);
    assert us == RunLengths(lens);
    RunStarts(lens, x);
    assert us + Sent(1, x, full) == us;
  }

  /** The run goes on. */
  lemma WroteMore(ts: seq<Token>, lens: seq<nat>, state: nat, v: nat, count: nat, full: nat, state': nat)
    requires Wrote(ts, lens, state, v, count, full) && v != NO_LEN
    requires (state == 16 && state' == 16) || ((state == 17 || state == 18) && (state' == 17 || state' == 18))
    ensures Wrote(ts, lens + [v], state', v, count + 1, full)
  {
    RunGrows(lens, v);
  }

  lemma WroteTwo(ts: seq<Token>, lens: seq<nat>, v: nat, count: nat, full: nat)
    requires Wrote(ts, lens, 1, v, count, full) && v != NO_LEN
    ensures v != 0 ==> Wrote(ts + [Len(v)], lens + [v], 16, v, 1, 0)
    ensures v == 0 ==> Wrote(ts, lens + [v], 17, v, 2, 0)
  {
    RunGrows(lens, v);
    var before := RunLengths(BeforeRun(lens));
    assert before + [] == before;
    assert [Len(v)] + Times(Again(6), 0) == [Len(v)] && Times(ManyZeros(138), 0) == [];
  }

  /** A full token is written, and the run goes on. */
  lemma WroteFull(ts: seq<Token>, lens: seq<nat>, state: nat, v: nat, count: nat, full: nat)
    requires Wrote(ts, lens, state, v, count, full) && v != NO_LEN
    ensures state == 16 && count == 6 ==> Wrote(ts + [Again(6)], lens + [v], 16, v, 1, full + 1)
    ensures state == 18 && count == 138 ==> Wrote(ts + [ManyZeros(138)], lens + [v], 17, v, 1, full + 1)
  {
    hide Times;
    if state != 0 { RunGrows(lens, v); }
    if state == 16 && count == 6 {
      TimesSnoc(Again(6), full);
      TokenAssoc([Len(v)], Times(Again(6), full), [Again(6)]);
      TokenAssoc(RunLengths(BeforeRun(lens)), Sent(16, v, full), [Again(6)]);
    } else if state == 18 && count == 138 {
      TimesSnoc(ManyZeros(138), full);
      TokenAssoc(RunLengths(BeforeRun(lens)), Sent(18, v, full), [ManyZeros(138)]);
    }
  }

  /** The run-length encoder: the variables of the loop of encode_lengths. */
  class RunEncoder {
    const out: TokenWriter
    var state: nat
    var curLen: nat
    var count: nat
    ghost var done: seq<nat>  // lengths read so far
    ghost var full: nat  // tokens of 6 or 138 lengths that the run at their end took so far

    /** Lengths read but not yet written, state by state. */
    ghost predicate Valid()
      reads this, out, out.w, out.w.bytes
    {
      && out.Valid() && |done| <= MAX_LENS && Wrote(out.tokens, done, state, curLen, count, full)
      && match state
         case 0 => done == [] && out.lens == []
         case 1 =>
           && done != []
           && if curLen == NO_LEN then done == out.lens
              else curLen <= MAX_LEN && done == out.lens + [curLen]
         case 16 =>
           && 0 < curLen <= MAX_LEN && 1 <= count <= 6 && done == out.lens + Copies(curLen, count)
           && out.lens != [] && out.lens[|out.lens| - 1] == curLen
         case 17 => curLen == 0 && 1 <= count <= 10 && done == out.lens + Copies(0, count)
         case 18 => curLen == 0 && 11 <= count <= 138 && done == out.lens + Copies(0, count)
         case _ => false
    }

    constructor (out: TokenWriter)
      requires out.Valid() && out.lens == [] && out.tokens == []
      ensures this.out == out && Valid() && done == [] && state == 0
    {
      this.out := out;
      state, curLen, count, done, full := 0, NO_LEN, 0, [], 0;
    }

    /** A length 0 to 15, or the sentinel once at the end. */
    ghost predicate Accepts(newLen: nat)
      reads this, out, out.w, out.w.bytes
    {
      && Valid()
      && (newLen <= MAX_LEN || newLen == NO_LEN)
      && (newLen != NO_LEN ==> |done| < MAX_LENS)
      && (state == 0 ==> newLen != NO_LEN)
      && (state == 1 ==> curLen != NO_LEN)
    }

    /** The lengths read after one pass of the loop. */
    ghost function Read(newLen: nat): seq<nat>
      reads this
    {
      if newLen == NO_LEN then done else done + [newLen]
    }

    /** case 1: one length is waiting. */
    method Step1(newLen: nat)
      requires Accepts(newLen) && state == 1
      modifies this, out, out.w, out.w.bytes
      ensures Valid() && done == old(Read(newLen)) && state != 0
      ensures state == 1 ==> curLen == newLen
      ensures newLen == NO_LEN ==> state == 1
    {
      hide TokenWriter.Valid, Expand, Wrote, FewRepeats, FewZeros;
      CopiesSnoc(out.lens, curLen, 1);
      CopiesSnoc(out.lens + [curLen], curLen, 0);
      if curLen != newLen {
        WroteRun(out.tokens, done, 1, curLen, count, full, newLen, count);
        out.Put(Len(curLen));
        state := 1;
      } else if newLen != 0 {
        WroteTwo(out.tokens, done, curLen, count, full);
        out.Put(Len(curLen));
        state, count, full := 16, 1, 0;
      } else {
        WroteTwo(out.tokens, done, curLen, count, full);
        state, count, full := 17, 2, 0;
      }
      curLen, done := newLen, Read(newLen);
    }

    lemma FewZerosAre(n: nat)
      requires n <= 138
      ensures FewZeros(n) == if n < 3 then Times(Len(0), n) else if n <= 10 then [Zeros(n)] else [ManyZeros(n)]
    {
    }

    lemma SixRepeats(v: nat)
      ensures FewRepeats(v, 6) == [Again(6)]
    {
    }

    /** Write the copies that are waiting in state 16. */
    method Emit16()
      requires Valid() && state == 16
      modifies out, out.w, out.w.bytes
      ensures out.Valid() && out.lens == done && out.tokens == old(out.tokens) + FewRepeats(curLen, count)
    {
      if count < 3 {
        out.PutCopies(curLen, count);
      } else {
        out.Put(Again(count));
      }
    }

    /** case 16: a nonzero length repeats. */
    method Step16(newLen: nat)
      requires Accepts(newLen) && state == 16
      modifies this, out, out.w, out.w.bytes
      ensures Valid() && done == old(Read(newLen)) && state != 0
      ensures state == 1 ==> curLen == newLen
      ensures newLen == NO_LEN ==> state == 1
    {
      hide TokenWriter.Valid, Expand, Wrote, FewRepeats, FewZeros;
      CopiesSnoc(out.lens, curLen, count);
      CopiesSnoc([], curLen, 0);
      if newLen != curLen {
        WroteRun(out.tokens, done, 16, curLen, count, full, newLen, count);
        Emit16();
        state := 1;
      } else if count == 6 {
        WroteFull(out.tokens, done, 16, curLen, count, full);
        SixRepeats(curLen);
        Emit16();
        count, full := 1, full + 1;
      } else {
        WroteMore(out.tokens, done, 16, curLen, count, full, 16);
        count := count + 1;
      }
      curLen, done := newLen, Read(newLen);
    }

    /** case 17: zeros, fewer than eleven so far. */
    method Step17(newLen: nat)
      requires Accepts(newLen) && state == 17
      modifies this, out, out.w, out.w.bytes
      ensures Valid() && done == old(Read(newLen)) && state != 0
      ensures state == 1 ==> curLen == newLen
      ensures newLen == NO_LEN ==> state == 1
    {
      hide TokenWriter.Valid, Expand, Wrote, FewRepeats, FewZeros;
      CopiesSnoc(out.lens, 0, count);
      if newLen != 0 {
        WroteRun(out.tokens, done, 17, curLen, count, full, newLen, count);
        FewZerosAre(count);
        assert Waiting(17, curLen, count) == FewZeros(count);
        if count < 3 {
          out.PutCopies(0, count);
        } else {
          out.Put(Zeros(count));
        }
        state := 1;
      } else {
        WroteMore(out.tokens, done, 17, curLen, count, full, if count == 10 then 18 else 17);
        state := if count == 10 then 18 else 17;
        count := count + 1;
      }
      curLen, done := newLen, Read(newLen);
    }

    /** case 18: eleven or more zeros. */
    method Step18(newLen: nat)
      requires Accepts(newLen) && state == 18
      modifies this, out, out.w, out.w.bytes
      ensures Valid() && done == old(Read(newLen)) && state != 0
      ensures state == 1 ==> curLen == newLen
      ensures newLen == NO_LEN ==> state == 1
    {
      hide TokenWriter.Valid, Expand, Wrote, FewRepeats, FewZeros;
      CopiesSnoc(out.lens, 0, count);
      CopiesSnoc([], 0, 0);
      if newLen != 0 {
        WroteRun(out.tokens, done, 18, curLen, count, full, newLen, count);
        FewZerosAre(count);
        assert Waiting(18, curLen, count) == [ManyZeros(count)];
        out.Put(ManyZeros(count));
        state := 1;
      } else if count == 138 {
        WroteFull(out.tokens, done, 18, curLen, count, full);
        out.Put(ManyZeros(count));
        state, count, full := 17, 1, full + 1;
      } else {
        WroteMore(out.tokens, done, 18, curLen, count, full, 18);
        count := count + 1;
      }
      curLen, done := newLen, Read(newLen);
    }

    /** After the sentinel everything is written. */
    lemma AllWritten()
      requires Valid() && state == 1 && curLen == NO_LEN
      ensures out.lens == done && out.tokens == RunLengths(done)
    {
    }

    /** One pass of the loop: read a length, or the sentinel that pushes out the last run. */
    method Step(newLen: nat)
      requires Accepts(newLen)
      modifies this, out, out.w, out.w.bytes
      ensures Valid() && done == old(Read(newLen)) && state != 0
      ensures state == 1 ==> curLen == newLen
      ensures newLen == NO_LEN ==> state == 1
    {
      match state {
        case 0 =>
          WroteFirst(newLen, count, full);
          state, curLen, done := 1, newLen, [newLen];
        case 1 => Step1(newLen);
        case 16 => Step16(newLen);
        case 17 => Step17(newLen);
        case _ => Step18(newLen);
      }
    }
  }

  /** append_bits of the symbol of a token, then of its repeat count. */
  method WriteToken(w: BitWriter, hclen: seq<Hclen>, ghost words: seq<seq<bool>>, t: Token)
    requires w.Valid() && IsCode(hclen, words) && ValidToken(t)
    requires w.bittotal + |TokenBits(words, t)| < 8 * w.bytes.Length
    modifies w, w.bytes
    ensures w.Valid() && w.contents == old(w.contents) + TokenBits(words, t)
  {
    ghost var before, code, extra := w.contents, words[Symbol(t)], Extra(t);
    var h := hclen[Symbol(t)];
    assert HasWord(hclen, words, Symbol(t));
    w.Append(h.code, h.nbits);
    WriteExtra(w, t);
    Assoc(before, code, extra);
  }

  method WriteExtra(w: BitWriter, t: Token)
    requires w.Valid() && ValidToken(t)
    requires w.bittotal + |Extra(t)| < 8 * w.bytes.Length
    modifies w, w.bytes
    ensures w.Valid() && w.contents == old(w.contents) + Extra(t)
  {
    match t {
      case Len(_) =>
      case Again(n) => assert Pow2(2) == 4; w.Append(n - 3, 2);
      case Zeros(n) => assert Pow2(3) == 8; w.Append(n - 3, 3);
      case ManyZeros(n) => assert Pow2(7) == 128; w.Append(n - 11, 7);
    }
  }

  /** Lengths of a code that a table may carry, with a code for every symbol. */
  ghost predicate CompleteCode(cl: seq<nat>) {
    && |cl| == CODES && AtMost(cl, 7) && KraftSum(cl, 7) <= Pow2(7)
    && forall i :: 0 <= i < CODES ==> cl[i] > 0
  }

  /** encode_hclen: the hard-coded code. The ghost result is its lengths. */
  method EncodeHclen() returns (hclen: seq<Hclen>, ghost cl: seq<nat>)
    ensures CompleteCode(cl) && IsCode(hclen, CodeWords(cl))
    ensures forall i :: 0 <= i < CODES ==> hclen[i].nbits == cl[i]
  {
    hclen, cl := HclenTable.TAB, HclenTable.CL;
    HclenTable.TabIsComplete();
    forall i | 0 <= i < CODES ensures HasWord(hclen, CodeWords(cl), i) {
      HclenTable.TabIsCanonical(i);
    }
  }

  /** HLIT, HDIST and HCLEN. */
  method WriteSizes(w: BitWriter, nhlit: nat, nhdist: nat)
    requires w.Valid() && w.contents == [] && w.bytes.Length >= 288
    requires 257 <= nhlit <= NLEN && 1 <= nhdist <= NDIS
    modifies w, w.bytes
    ensures w.Valid()
    ensures w.contents == ToBits(nhlit - 257, 5) + ToBits(nhdist - 1, 5) + ToBits(CODES - 4, 4)
  {
    hide ToBits;
    assert Pow2(5) == 32 && Pow2(4) == 16;
    w.Append(nhlit - 257, 5);
    w.Append(nhdist - 1, 5);
    w.Append(CODES - 4, 4);
  }

  lemma OrderNone(cl: seq<nat>)
    requires |cl| == CODES
    ensures OrderBits(cl, 0) == []
  {
  }

  lemma OrderNext(cl: seq<nat>, i: nat)
    requires |cl| == CODES && i < CODES
    ensures OrderBits(cl, i + 1) == OrderBits(cl, i) + ToBits(cl[ORDER[i]], 3)
  {
  }

  /** The code length code lengths, in the order of section 3.2.7. */
  method WriteOrder(w: BitWriter, hclen: seq<Hclen>, ghost cl: seq<nat>)
    requires w.Valid() && |w.contents| == 14 && w.bytes.Length >= 288
    requires |hclen| == |cl| == CODES
    requires forall i :: 0 <= i < CODES ==> hclen[i].nbits == cl[i] <= 7
    modifies w, w.bytes
    ensures w.Valid() && w.contents == old(w.contents) + OrderBits(cl, CODES)
  {
    hide ToBits, OrderBits;
    assert Pow2(3) == 8;
    OrderNone(cl);
    var i := 0;
    while i < CODES
      invariant 0 <= i <= CODES && w.Valid()
      invariant w.contents == old(w.contents) + OrderBits(cl, i)
    {
      var k := ORDER[i];
      OrderNext(cl, i);
      Assoc(old(w.contents), OrderBits(cl, i), ToBits(cl[k], 3));
      w.Append(hclen[k].nbits, 3);
      i := i + 1;
    }
  }

  /** The loop over the lengths, with the sentinel at the end. */
  method WriteLengths(out: TokenWriter, symLen: array<nat>, n: nat, ghost lens: seq<nat>)
    requires out.Valid() && out.lens == [] && out.tokens == [] && symLen != out.w.bytes
    requires 0 < n <= symLen.Length && n <= MAX_LENS
    requires lens == symLen[..n] && AtMost(lens, MAX_LEN)
    modifies out, out.w, out.w.bytes
    ensures out.Valid() && out.lens == lens && out.tokens == RunLengths(lens)
  {
    hide RunLengths, Wrote, Expand, TokenWriter.Valid;
    var e := new RunEncoder(out);
    var i := 0;
    while i <= n
      invariant 0 <= i <= n + 1 && e.out == out && e.Valid()
      invariant e.state == 0 <==> i == 0
      invariant lens == symLen[..n] && e.done == lens[..if i <= n then i else n]
      invariant e.state == 1 && i <= n ==> e.curLen != NO_LEN
      invariant i == n + 1 ==> e.state == 1 && e.curLen == NO_LEN
    {
      assert i < n ==> lens[i] <= MAX_LEN;
      var newLen := if i == n then NO_LEN else symLen[i];
      e.Step(newLen);
      i := i + 1;
    }
    e.AllWritten();
  }

  /** Header and lengths, for any code length code of codewords up to 7 bits. */
  method WriteTable(w: BitWriter, hclen: seq<Hclen>, ghost words: seq<seq<bool>>, ghost cl: seq<nat>,
                    symLen: array<nat>, nhlit: nat, nhdist: nat)
    returns (ghost table: Table)
    requires w.Valid() && w.contents == [] && w.bytes.Length >= 288 && symLen != w.bytes
    requires CompleteCode(cl) && words == CodeWords(cl) && IsCode(hclen, words)
    requires forall i :: 0 <= i < CODES ==> hclen[i].nbits == cl[i]
    requires 257 <= nhlit <= NLEN && 1 <= nhdist <= NDIS && nhlit + nhdist <= symLen.Length
    requires AtMost(symLen[..nhlit + nhdist], MAX_LEN)
    modifies w, w.bytes
    ensures ValidTable(table) && table.hlit == nhlit && table.hdist == nhdist
    ensures Expand(table.tokens) == symLen[..nhlit + nhdist] && table.tokens == RunLengths(symLen[..nhlit + nhdist])
    ensures w.Valid() && w.contents == TableBits(table)
    ensures w.bittotal <= 71 + 7 * (nhlit + nhdist)
  {
    ghost var tokens := WriteTokens(w, hclen, words, cl, symLen, nhlit, nhdist, symLen[..nhlit + nhdist]);
    table := Table(nhlit, nhdist, CODES, cl, tokens);
    CompleteTableIsValid(table);
  }

  method WriteHeader(w: BitWriter, hclen: seq<Hclen>, ghost cl: seq<nat>, nhlit: nat, nhdist: nat)
    requires w.Valid() && w.contents == [] && w.bytes.Length >= 288
    requires |hclen| == |cl| == CODES && forall i :: 0 <= i < CODES ==> hclen[i].nbits == cl[i] <= 7
    requires 257 <= nhlit <= NLEN && 1 <= nhdist <= NDIS
    modifies w, w.bytes
    ensures w.Valid() && w.contents == HeaderBits(nhlit, nhdist, CODES, cl) && |w.contents| == 71
  {
    WriteSizes(w, nhlit, nhdist);
    WriteOrder(w, hclen, cl);
  }

  method WriteTokens(w: BitWriter, hclen: seq<Hclen>, ghost words: seq<seq<bool>>, ghost cl: seq<nat>,
                     symLen: array<nat>, nhlit: nat, nhdist: nat, ghost lens: seq<nat>)
    returns (ghost tokens: seq<Token>)
    requires w.Valid() && w.contents == [] && w.bytes.Length >= 288 && symLen != w.bytes
    requires IsCode(hclen, words) && |cl| == CODES
    requires forall i :: 0 <= i < CODES ==> hclen[i].nbits == cl[i] <= 7
    requires 257 <= nhlit <= NLEN && 1 <= nhdist <= NDIS && nhlit + nhdist <= symLen.Length
    requires lens == symLen[..nhlit + nhdist] && AtMost(lens, MAX_LEN)
    modifies w, w.bytes
    ensures w.Valid() && ValidTokens(tokens) && Expand(tokens) == lens && tokens == RunLengths(lens)
    ensures w.contents == Layout(nhlit, nhdist, CODES, cl, words, tokens)
    ensures w.bittotal <= 71 + 7 * (nhlit + nhdist)
  {
    assert |hclen| == CODES;
    hide HeaderBits, AtMost, IsCode, RunLengths, Expand, TokensBits, OrderBits, ToBits, Pow2, BitWriter.Valid;
    WriteHeader(w, hclen, cl, nhlit, nhdist);
    ghost var header := w.contents;
    var out := new TokenWriter(w, hclen, words, header);
    WriteLengths(out, symLen, nhlit + nhdist, lens);
    tokens := out.tokens;
  }

  /**
    encode_lengths. The ghost result is the table that the bits spell; its
    tokens describe exactly the lengths given.
    */
  method EncodeLengths(dht: array<nat>, symLen: array<nat>, numL: nat, numD: nat)
    returns (bittotal: nat, ghost table: Table)
    requires dht != symLen && dht.Length >= 288
    requires numL <= NLEN && numD <= NDIS
    requires Hlit(numL) + Hdist(numD) <= symLen.Length
    requires AtMost(symLen[..Hlit(numL) + Hdist(numD)], MAX_LEN)
    modifies dht
    ensures ValidTable(table) && table.hlit == Hlit(numL) && table.hdist == Hdist(numD)
    ensures Expand(table.tokens) == symLen[..Hlit(numL) + Hdist(numD)]
    ensures table.tokens == RunLengths(symLen[..Hlit(numL) + Hdist(numD)])
    ensures bittotal == |TableBits(table)| <= 71 + 7 * (Hlit(numL) + Hdist(numD)) <= 2283
    ensures TableBits(table) <= Flatten(dht[..])
  {
    var nhlit, nhdist := Hlit(numL), Hdist(numD);
    var hclen, cl := EncodeHclen();
    var w := new BitWriter(dht);
    table := WriteTable(w, hclen, CodeWords(cl), cl, symLen, nhlit, nhdist);
    bittotal := w.bittotal;
    w.Flush();
  }

  /** The first 257 literal/length symbols and one distance symbol are always sent. */
  function Hlit(numL: nat): (n: nat)
    ensures 257 <= n && numL <= n && (n == 257 || n == numL)
  {
    if numL < 257 then 257 else numL
  }

  function Hdist(numD: nat): (n: nat)
    ensures 1 <= n && numD <= n && (n == 1 || n == numD)
  {
    if numD < 1 then 1 else numD
  }

  lemma CompleteTableIsValid(t: Table)
    requires CompleteCode(t.cl) && t.hclen == CODES
    requires 257 <= t.hlit <= NLEN && 1 <= t.hdist <= NDIS
    requires ValidTokens(t.tokens) && |Expand(t.tokens)| == t.hlit + t.hdist
    ensures ValidTable(t)
  {
    forall i | 0 <= i < |t.tokens| ensures t.cl[Symbol(t.tokens[i])] > 0 {
      assert ValidToken(t.tokens[i]);
    }
  }
}
