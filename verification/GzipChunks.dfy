/**
  A gzip header that comes in pieces, over several calls of nx_inflate (lib/nx_inflate.c).
  Where it is split matters in one place only: the extra field, when the caller's buffer
  is smaller than the field.
  */
module GzipChunks {
  import opened Sequences
  import opened Wrappers
  import opened Buffers
  import opened GzipHeader
  import opened GzipRoundTrip

  /** The bytes before the extra field: the fixed part and the length. */
  const BEFORE_EXTRA := 12

  /** Some call that brings input starts strictly between two positions. */
  predicate CallStartsIn(chunks: seq<seq<byte>>, pos: nat, low: nat, high: nat)
    decreases |chunks|
  {
    chunks != []
    && ((chunks[0] != [] && low < pos < high) || CallStartsIn(chunks[1..], pos + |chunks[0]|, low, high))
  }

  /** The reader keeps the extra field of h. */
  predicate KeepsExtra(p: Parser, h: Header) {
    p.head.Some? && p.head.value.extra.Some? && h.extra.Some?
  }

  /** A call starts within the extra field of h, beyond the end of the caller's buffer for it. */
  predicate SplitsExtra(p: Parser, h: Header, chunks: seq<seq<byte>>) {
    KeepsExtra(p, h)
    && CallStartsIn(chunks, 0, BEFORE_EXTRA + p.head.value.extraMax, BEFORE_EXTRA + |h.extra.value|)
  }

  /** The record can hold the time. */
  predicate TimeFits(p: Parser, h: Header) {
    p.head.None? || TimeOf(h) < 0x8000_0000
  }

  // ---------- Before the extra field ----------

  /** How many bytes it takes at least to get to the extra field, up to twelve. */
  function ToGo(p: Parser): int {
    match p.stage
    case Id2 => 11
    case Cm => 10
    case Flg => 9
    case Mtime => 8 - p.held
    case Xfl => 4
    case Os => 3
    case Xlen => 2 - p.held
    case Extra => if HasExtra(p.flags) then 0 else 12
    case _ => 12
  }

  lemma {:induction false} SettleToGo(p: Parser)
    ensures ToGo(Settle(p)) >= ToGo(p)
    decreases Rank(p.stage)
  {
    if !NeedsByte(p) { SettleToGo(Pass(p)); }
  }

  lemma StepToGo(p: Parser, b: byte)
    requires !Stopped(p)
    ensures ToGo(Step(p, b)) >= ToGo(p) - 1
  {
  }

  lemma {:induction false} FeedToGo(p: Parser, bs: seq<byte>)
    ensures ToGo(Feed(p, bs).parser) >= ToGo(p) - |bs|
    decreases |bs|
  {
    if bs != [] && !Stopped(p) {
      StepToGo(p, bs[0]);
      SettleToGo(Step(p, bs[0]));
      FeedToGo(Settle(Step(p, bs[0])), bs[1..]);
    }
  }

  // ---------- After the extra field ----------

  predicate Past(p: Parser) {
    p.stage.Name? || p.stage.Comment? || Stopped(p)
  }

  lemma {:induction false} SettlePast(p: Parser)
    requires Past(p)
    ensures Past(Settle(p))
    decreases Rank(p.stage)
  {
    if !NeedsByte(p) { SettlePast(Pass(p)); }
  }

  lemma {:induction false} FeedPast(p: Parser, bs: seq<byte>)
    requires Past(p)
    ensures Past(Feed(p, bs).parser)
    decreases |bs|
  {
    if bs != [] && !Stopped(p) {
      SettlePast(Step(p, bs[0]));
      FeedPast(Settle(Step(p, bs[0])), bs[1..]);
    }
  }

  // ---------- Anywhere ----------

  lemma PrefixOfPrefix(a: seq<byte>, b: seq<byte>, x: seq<byte>, y: seq<byte>)
    requires a + b == x + y && |x| <= |a|
    ensures a == x + a[|x|..] && a[|x|..] + b == y
  {
    var k := |x|;
    assert a == (a + b)[..|a|] && x == (x + y)[..k];
    assert a[..k] == x;
    assert a[k..] + b == (a + b)[k..];
  }

  /** Within the extra field e, after its first bytes u. */
  lemma WithinExtra(q: Parser, e: seq<byte>, u: seq<byte>, v: seq<byte>, w: seq<byte>)
    requires q.stage == Extra && HasExtra(q.flags) && q.length == |e| && u + v == e + w
    requires q.head.Some? ==> q.head.value.extraLen == |e|
    ensures Beyond(Feed(Settle(q), u).parser)
       <==> q.head.Some? && q.head.value.extra.Some? && q.head.value.extraMax < |u| < |e|
  {
    if |u| < |e| {
      InsideExtra(q, u);
    } else {
      PrefixOfPrefix(u, v, e, w);
      PastExtra(q, e, u[|e|..]);
    }
  }

  lemma InsideExtra(q: Parser, u: seq<byte>)
    requires q.stage == Extra && HasExtra(q.flags) && |u| < q.length
    requires q.head.Some? ==> q.head.value.extraLen == q.length
    ensures Beyond(Feed(Settle(q), u).parser)
       <==> q.head.Some? && q.head.value.extra.Some? && q.head.value.extraMax < |u|
  {
    var r := WithExtra(q, u).(length := q.length - |u|);
    assert u + [] == u;
    ReadExtra(q, u, []);
    StaysPut(r);
    assert Feed(Settle(q), u).parser == r;
    if q.head.Some? { KeepIs(q.head.value.extra, q.head.value.extraMax, u); }
  }

  lemma {:induction false} KeepIs(t: Option<seq<byte>>, max: nat, bs: seq<byte>)
    ensures KeepAll(t, max, bs).Some? <==> t.Some?
    decreases |bs|
  {
    if bs != [] { KeepIs(Keep(t, max, bs[0]), max, bs[1..]); }
  }

  lemma PastExtra(q: Parser, e: seq<byte>, rest: seq<byte>)
    requires q.stage == Extra && HasExtra(q.flags) && q.length == |e|
    ensures Past(Feed(Settle(q), e + rest).parser)
  {
    var r := WithExtra(q, e).(length := 0);
    ReadExtra(q, e, rest);
    SettlePast(Pass(r));
    assert Settle(r) == Settle(Pass(r));
    FeedPast(Settle(r), rest);
  }

  /** With an extra field, after the fixed part and some of what follows. */
  lemma AfterLength(q: Parser, h: Header, a: seq<byte>, b: seq<byte>, w: seq<byte>)
    requires q.stage == Xlen && q.length == 0 && q.held == 0 && q.flags == FlagByte(h) && h.extra.Some?
    requires |h.extra.value| < 0x1_0000 && |a| >= 2 && a + b == ExtraPart(h.extra) + w
    ensures Beyond(Feed(Settle(q), a).parser)
       <==> q.head.Some? && q.head.value.extra.Some? && 2 + q.head.value.extraMax < |a| < 2 + |h.extra.value|
  {
    var e := h.extra.value;
    var x := [ByteOf(|e|, 0), ByteOf(|e|, 1)];
    FlagsTell(h);
    Assoc(x, e, w);
    PrefixOfPrefix(a, b, x, e + w);
    StaysPut(q);
    ReadLength(q, |e|, a[2..]);
    WithinExtra(AfterLengthBytes(q, |e|), e, a[2..], b, w);
  }

  /** Without one, the parser goes past it at once. */
  lemma NoExtra(q: Parser, h: Header, a: seq<byte>)
    requires q.stage == Xlen && q.flags == FlagByte(h) && h.extra.None?
    ensures Past(Feed(Settle(q), a).parser)
  {
    FlagsTell(h);
    var r := Pass(Pass(q));
    assert Settle(q) == Settle(Pass(q)) == Settle(r);
    SettlePast(r);
    FeedPast(Settle(r), a);
  }

  lemma TooEarly(p: Parser, a: seq<byte>)
    requires AtStart(p) && |a| < BEFORE_EXTRA
    ensures !Beyond(Feed(Settle(p), a).parser)
  {
    StartSettles(p);
    FeedToGo(Settle(p), a);
    NotYet(Feed(Settle(p), a).parser);
  }

  lemma NotYet(p: Parser)
    requires ToGo(p) > 0
    ensures !Beyond(p)
  {
  }

  /** After the bytes a of the header and what follows it, a call would start beyond the buffer. */
  lemma BeyondWhere(p: Parser, h: Header, rest: seq<byte>, a: seq<byte>, b: seq<byte>)
    requires AtStart(p) && Writable(h) && a + b == HeaderBytes(h) + rest
    ensures Beyond(Feed(Settle(p), a).parser)
       <==> TimeFits(p, h) && KeepsExtra(p, h)
            && BEFORE_EXTRA + p.head.value.extraMax < |a| < BEFORE_EXTRA + |h.extra.value|
  {
    if |a| < BEFORE_EXTRA {
      TooEarly(p, a);
    } else {
      AfterTwelve(p, h, rest, a, b);
    }
  }

  lemma AfterTwelve(p: Parser, h: Header, rest: seq<byte>, a: seq<byte>, b: seq<byte>)
    requires AtStart(p) && Writable(h) && a + b == HeaderBytes(h) + rest && |a| >= BEFORE_EXTRA
    ensures Beyond(Feed(Settle(p), a).parser)
       <==> TimeFits(p, h) && KeepsExtra(p, h)
            && BEFORE_EXTRA + p.head.value.extraMax < |a| < BEFORE_EXTRA + |h.extra.value|
  {
    var w := TextPart(h.name) + (TextPart(h.comment) + rest);
    Regroup(FixedPart(h), ExtraPart(h.extra), TextPart(h.name), TextPart(h.comment), rest);
    PrefixOfPrefix(a, b, FixedPart(h), ExtraPart(h.extra) + w);
    ReadFixed(p, h, a[10..]);
    if TimeFits(p, h) {
      SameExtra(p, h);
      AfterTen(AfterFixed(p, h), h, a[10..], b, w);
    }
  }

  lemma AfterTen(q: Parser, h: Header, a: seq<byte>, b: seq<byte>, w: seq<byte>)
    requires q.stage == Xlen && q.length == 0 && q.held == 0 && q.flags == FlagByte(h) && Writable(h)
    requires |a| >= 2 && a + b == ExtraPart(h.extra) + w
    ensures Beyond(Feed(Settle(q), a).parser)
       <==> KeepsExtra(q, h) && 2 + q.head.value.extraMax < |a| < 2 + |h.extra.value|
  {
    if h.extra.Some? { AfterLength(q, h, a, b, w); } else { NoExtra(q, h, a); }
  }

  /** The fixed part does not touch the extra field. */
  lemma SameExtra(p: Parser, h: Header)
    requires AtStart(p)
    ensures var q := AfterFixed(p, h);
      && q.head.Some? == p.head.Some? && q.length == 0 && q.held == 0 && q.flags == FlagByte(h) && q.stage == Xlen
      && (q.head.Some? ==>
            q.head.value.extra == p.head.value.extra && q.head.value.extraMax == p.head.value.extraMax)
  {
    StartSettles(p);
  }

  // ---------- The whole header, in pieces ----------

  /** Where the calls start decides whether one starts beyond the buffer. */
  lemma {:induction false} StartsBeyondWhere(p: Parser, h: Header, rest: seq<byte>, a: seq<byte>,
                                            chunks: seq<seq<byte>>)
    requires AtStart(p) && Writable(h) && a + Joined(chunks) == HeaderBytes(h) + rest && KeepsExtra(p, h)
    ensures StartsBeyond(Feed(Settle(p), a).parser, chunks)
       <==> TimeFits(p, h)
            && CallStartsIn(chunks, |a|, BEFORE_EXTRA + p.head.value.extraMax, BEFORE_EXTRA + |h.extra.value|)
    decreases |chunks|
  {
    if chunks != [] {
      var c := chunks[0];
      Assoc(a, c, Joined(chunks[1..]));
      BeyondWhere(p, h, rest, a, Joined(chunks));
      FeedOn(Settle(p), a, c);
      StartsBeyondWhere(p, h, rest, a + c, chunks[1..]);
    }
  }

  /** A reader that keeps no extra field is never beyond its buffer. */
  lemma {:induction false} NeverBeyond(p: Parser, h: Header, rest: seq<byte>, a: seq<byte>, chunks: seq<seq<byte>>)
    requires AtStart(p) && Writable(h) && a + Joined(chunks) == HeaderBytes(h) + rest && !KeepsExtra(p, h)
    ensures !StartsBeyond(Feed(Settle(p), a).parser, chunks)
    decreases |chunks|
  {
    if chunks != [] {
      var c := chunks[0];
      Assoc(a, c, Joined(chunks[1..]));
      BeyondWhere(p, h, rest, a, Joined(chunks));
      FeedOn(Settle(p), a, c);
      NeverBeyond(p, h, rest, a + c, chunks[1..]);
    }
  }

  lemma SplitsMatter(p: Parser, h: Header, rest: seq<byte>, chunks: seq<seq<byte>>)
    requires AtStart(p) && Writable(h) && Joined(chunks) == HeaderBytes(h) + rest
    ensures StartsBeyond(Settle(p), chunks) <==> TimeFits(p, h) && SplitsExtra(p, h, chunks)
  {
    assert [] + Joined(chunks) == Joined(chunks);
    if KeepsExtra(p, h) {
      StartsBeyondWhere(p, h, rest, [], chunks);
    } else {
      NeverBeyond(p, h, rest, [], chunks);
    }
  }

  /**
    Any writer's header, in any pieces, is read to its last byte and every field recovered, as far
    as the caller's buffers reach, exactly when the record can hold the time and no call that brings
    input starts within the extra field but beyond the caller's buffer for it.
    */
  lemma HeaderRoundTrip(p: Parser, h: Header, rest: seq<byte>, chunks: seq<seq<byte>>)
    requires AtStart(p) && Writable(h) && Joined(chunks) == HeaderBytes(h) + rest
    requires p.head.Some? ==> Empty(p.head.value.extra) && Empty(p.head.value.name) && Empty(p.head.value.comment)
    ensures PastHeader(FeedChunks(Settle(p), [], chunks), p, h, rest)
       <==> TimeFits(p, h) && !SplitsExtra(p, h, chunks)
    ensures !TimeFits(p, h) ==> FeedChunks(Settle(p), [], chunks).parser.stage == Abort
    ensures TimeFits(p, h) && SplitsExtra(p, h, chunks) ==> FeedChunks(Settle(p), [], chunks).parser.stage == Overrun
  {
    SplitsMatter(p, h, rest, chunks);
    ChunksDoNotMatter(Settle(p), chunks);
    WholeRoundTrip(p, h, rest);
  }

  /** A buffer as large as the field, or calls that bring all of it at once, are safe. */
  lemma {:induction false} BigEnough(chunks: seq<seq<byte>>, pos: nat, low: nat, high: nat)
    requires low >= high
    ensures !CallStartsIn(chunks, pos, low, high)
    decreases |chunks|
  {
    if chunks != [] { BigEnough(chunks[1..], pos + |chunks[0]|, low, high); }
  }

  lemma TwoCalls(x: seq<byte>, y: seq<byte>, low: nat, high: nat)
    ensures Joined([x, y]) == x + y && (CallStartsIn([x, y], 0, low, high) <==> y != [] && low < |x| < high)
  {
    OneCall(y, |x|, low, high);
    assert [x, y][1..] == [y];
  }

  lemma OneCall(x: seq<byte>, pos: nat, low: nat, high: nat)
    ensures Joined([x]) == x && (CallStartsIn([x], pos, low, high) <==> x != [] && low < pos < high)
  {
    assert [x][1..] == [] && x + [] == x;
  }

  /** With a buffer of ten bytes, thirty bytes of extra field split after twenty overrun it. */
  lemma TenThirtyTwenty(p: Parser, h: Header, rest: seq<byte>)
    requires AtStart(p) && Writable(h) && TimeOf(h) < 0x8000_0000 && h.extra.Some? && |h.extra.value| == 30
    requires p.head.Some? && p.head.value.extra == Some([]) && p.head.value.extraMax == 10
    requires Empty(p.head.value.name) && Empty(p.head.value.comment)
    ensures var all := HeaderBytes(h) + rest;
      && FeedChunks(Settle(p), [], [all[..32], all[32..]]).parser.stage == Overrun
      && FeedChunks(Settle(p), [], [all]).parser.stage == Inflate
      && FeedChunks(Settle(p), [], [all]).parser.head.Some?
      && FeedChunks(Settle(p), [], [all]).parser.head.value.extra == Some(h.extra.value[..10])
  {
    var all := HeaderBytes(h) + rest;
    assert all[..32] + all[32..] == all;
    TwoCalls(all[..32], all[32..], 22, 42);
    OneCall(all, 0, 22, 42);
    HeaderRoundTrip(p, h, rest, [all[..32], all[32..]]);
    HeaderRoundTrip(p, h, rest, [all]);
  }
}
