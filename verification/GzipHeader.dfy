/**
  The gzip and zlib headers: what nx_deflate_add_header writes (lib/nx_deflate.c)
  and how the header states of nx_inflate read it (lib/nx_inflate.c), a byte at a
  time. Section 2.3 of RFC 1952 and section 2.2 of RFC 1950.
  */
module GzipHeader {
  import opened Sequences
  import opened Wrappers
  import opened Buffers

  // ---------- Writing ----------

  /** What the caller of the writer asks for; strings have no NUL. */
  datatype Header = Header(text: bool, time: nat, os: nat, extra: Option<seq<byte>>,
                           name: Option<seq<byte>>, comment: Option<seq<byte>>)

  ghost predicate NoNul(s: Option<seq<byte>>) {
    s.Some? ==> forall i :: 0 <= i < |s.value| ==> s.value[i] != 0
  }

  ghost predicate Writable(h: Header) {
    NoNul(h.name) && NoNul(h.comment) && (h.extra.Some? ==> |h.extra.value| < 0x1_0000)
  }

  function FlagByte(h: Header): (f: nat)
    ensures f < 32
  {
    (if h.text then 1 else 0) + (if h.extra.Some? then 4 else 0) + (if h.name.Some? then 8 else 0)
      + (if h.comment.Some? then 16 else 0)
  }

  /** The k-th byte of a number. */
  function ByteOf(n: nat, k: nat): (b: byte) {
    if k == 0 then (n % 256) as byte else ByteOf(n / 256, k - 1)
  }

  function FixedPart(h: Header): (s: seq<byte>) {
    [0x1f, 0x8b, 8, FlagByte(h) as byte,
     ByteOf(h.time, 0), ByteOf(h.time, 1), ByteOf(h.time, 2), ByteOf(h.time, 3), 4, ByteOf(h.os, 0)]
  }

  function ExtraPart(e: Option<seq<byte>>): (s: seq<byte>) {
    if e.None? then [] else [ByteOf(|e.value|, 0), ByteOf(|e.value|, 1)] + e.value
  }

  function TextPart(t: Option<seq<byte>>): (s: seq<byte>) {
    if t.None? then [] else t.value + [0]
  }

  /** The header as section 2.3 of RFC 1952 lays it out. */
  function HeaderBytes(h: Header): (s: seq<byte>) {
    FixedPart(h) + (ExtraPart(h.extra) + (TextPart(h.name) + TextPart(h.comment)))
  }

  /** The fields of the fixed part, by their positions and numbers in section 2.3 of RFC 1952. */
  lemma FixedPartIs(h: Header)
    ensures var s := FixedPart(h);
      && |s| == 10 && s[0] == 31 && s[1] == 139 && s[2] == 8
      && (s[3] as nat % 2 == 1 <==> h.text) && s[3] as nat / 2 % 2 == 0
      && (s[3] as nat / 4 % 2 == 1 <==> h.extra.Some?) && (s[3] as nat / 8 % 2 == 1 <==> h.name.Some?)
      && (s[3] as nat / 16 % 2 == 1 <==> h.comment.Some?) && s[3] as nat / 32 == 0
      && s[4] as nat + 256 * s[5] as nat + 0x1_0000 * s[6] as nat + 0x100_0000 * s[7] as nat == h.time % 0x1_0000_0000
      && s[8] == 4 && s[9] as nat == h.os % 256
  {
    var a, b, c := h.time / 256, h.time / 256 / 256, h.time / 256 / 256 / 256;
    assert ByteOf(h.time, 1) == ByteOf(a, 0);
    assert ByteOf(h.time, 2) == ByteOf(a, 1) == ByteOf(b, 0);
    assert ByteOf(h.time, 3) == ByteOf(a, 2) == ByteOf(b, 1) == ByteOf(c, 0);
    Digits(h.time, a, b, c);
  }

  lemma Digits(t: nat, a: nat, b: nat, c: nat)
    requires a == t / 256 && b == a / 256 && c == b / 256
    ensures t % 256 + 256 * (a % 256) + 0x1_0000 * (b % 256) + 0x100_0000 * (c % 256) == t % 0x1_0000_0000
  {
    var r := t % 256 + 256 * (a % 256) + 0x1_0000 * (b % 256) + 0x100_0000 * (c % 256);
    assert t == r + 0x1_0000_0000 * (c / 256);
  }

  // ---------- Reading ----------

  datatype Stage =
    Start | Id1 | Id2 | Cm | Flg | Mtime | Xfl | Os | Xlen | Extra | Name | Comment | Hcrc
    | ZlibId1 | ZlibFlg | DictId | Dict
    | Inflate | DataError | Abort | Overrun

  datatype Wrap = Gzip | Zlib | Either

  /** The caller's record of a gzip header. Each field is kept up to its buffer's size. */
  datatype Head = Head(text: bool, time: nat, xflags: nat, os: nat,
                       extraLen: nat, extra: Option<seq<byte>>, extraMax: nat,
                       name: Option<seq<byte>>, nameMax: nat, comment: Option<seq<byte>>, commentMax: nat, done: int)

  datatype Parser = Parser(stage: Stage, wrap: Wrap, flags: nat, held: nat, length: nat, cmf: nat, dictId: nat,
                           head: Option<Head>)

  predicate HasHcrc(flags: nat) { flags / 2 % 2 == 1 }

  predicate HasExtra(flags: nat) { flags / 4 % 2 == 1 }

  predicate HasName(flags: nat) { flags / 8 % 2 == 1 }

  predicate HasComment(flags: nat) { flags / 16 % 2 == 1 }

  function Shifted(b: nat, k: nat): nat {
    if k == 0 then b else Shifted(b, k - 1) * 256
  }

  /** No byte moves the parser on: it is past the header, or has failed. */
  predicate Stopped(p: Parser) {
    p.stage.Hcrc? || p.stage.Dict? || p.stage.Inflate? || p.stage.DataError? || p.stage.Abort? || p.stage.Overrun?
  }

  /** A byte of a field, kept if there is room. */
  function Keep(t: Option<seq<byte>>, max: nat, b: byte): Option<seq<byte>> {
    if t.Some? && |t.value| < max then Some(t.value + [b]) else t
  }

  function WithHead(p: Parser, f: Head -> Head): Parser {
    p.(head := if p.head.None? then None else Some(f(p.head.value)))
  }

  /** The bytes that every gzip header starts with. */
  function MagicStep(p: Parser, b: byte): Parser {
    match p.stage
    case Id1 => p.(stage := if b == 0x1f then Id2 else DataError)
    case Id2 => p.(stage := if b == 0x8b then Cm else DataError)
    case _ => p.(stage := if b == 8 then Flg else DataError)
  }

  function FlagsStep(p: Parser, b: byte): Parser {
    var n := b as nat;
    if n >= 32 then p.(flags := n, stage := DataError)
    else
      WithHead(p.(flags := n, stage := Mtime, held := 0, length := 0),
               (d: Head) => d.(text := n % 2 == 1, time := 0))
  }

  function TimeStep(p: Parser, b: byte): Parser {
    var q := WithHead(p, (d: Head) => d.(time := d.time + Shifted(b as nat, p.held)));
    if p.held < 3 then q.(held := p.held + 1)
    else q.(held := 0, stage := if q.head.Some? && q.head.value.time >= 0x8000_0000 then Abort else Xfl)
  }

  function XflStep(p: Parser, b: byte): Parser {
    WithHead(p.(stage := Os), (d: Head) => d.(xflags := b as nat))
  }

  function OsStep(p: Parser, b: byte): Parser {
    WithHead(p.(stage := Xlen, held := 0, length := 0), (d: Head) => d.(os := b as nat))
  }

  function LengthStep(p: Parser, b: byte): Parser {
    var len := p.length + Shifted(b as nat, p.held);
    if p.held < 1 then p.(held := p.held + 1, length := len)
    else WithHead(p.(held := 0, length := len, stage := Extra), (d: Head) => d.(extraLen := len))
  }

  function ExtraStep(p: Parser, b: byte): Parser {
    WithHead(p.(length := if p.length > 0 then p.length - 1 else 0),
             (d: Head) => d.(extra := Keep(d.extra, d.extraMax, b)))
  }

  function NameStep(p: Parser, b: byte): Parser {
    WithHead(p.(stage := if b == 0 then Comment else Name), (d: Head) => d.(name := Keep(d.name, d.nameMax, b)))
  }

  function CommentStep(p: Parser, b: byte): Parser {
    WithHead(p.(stage := if b == 0 then Hcrc else Comment),
             (d: Head) => d.(comment := Keep(d.comment, d.commentMax, b)))
  }

  /** The first byte of a header of either kind. */
  function EitherStep(p: Parser, b: byte): Parser {
    if b == 0x1f then p.(stage := Id2, wrap := Gzip)
    else if b as nat % 16 == 8 && b as nat / 16 < 8 then p.(stage := ZlibFlg, cmf := b as nat, wrap := Zlib)
    else p.(stage := DataError)
  }

  function ZlibIdStep(p: Parser, b: byte): Parser {
    if b as nat % 16 == 8 && b as nat / 16 < 8 then p.(stage := ZlibFlg, cmf := b as nat) else p.(stage := DataError)
  }

  /** The two bytes of a zlib header, as one number, are a multiple of 31. */
  predicate CheckBitsFit(cmf: nat, b: byte) { (cmf * 256 + b as nat) % 31 == 0 }

  function ZlibFlagStep(p: Parser, b: byte): Parser {
    if !CheckBitsFit(p.cmf, b) then p.(stage := DataError)
    else if b as nat / 32 % 2 == 1 then p.(stage := DictId, dictId := 0, held := 0)
    else p.(stage := Inflate, held := 0)
  }

  function DictStep(p: Parser, b: byte): Parser {
    var id := p.dictId * 256 + b as nat;
    if p.held < 3 then p.(held := p.held + 1, dictId := id) else p.(held := 0, dictId := id, stage := Dict)
  }

  /** The parser after one more byte. */
  function Step(p: Parser, b: byte): Parser {
    match p.stage
    case Start => EitherStep(p, b)
    case Id1 => MagicStep(p, b)
    case Id2 => MagicStep(p, b)
    case Cm => MagicStep(p, b)
    case Flg => FlagsStep(p, b)
    case Mtime => TimeStep(p, b)
    case Xfl => XflStep(p, b)
    case Os => OsStep(p, b)
    case Xlen => LengthStep(p, b)
    case Extra => ExtraStep(p, b)
    case Name => NameStep(p, b)
    case Comment => CommentStep(p, b)
    case ZlibId1 => ZlibIdStep(p, b)
    case ZlibFlg => ZlibFlagStep(p, b)
    case DictId => DictStep(p, b)
    case _ => p
  }

  function Rank(s: Stage): nat {
    match s
    case Start => 6
    case Xlen => 5
    case Extra => 4
    case Name => 3
    case Comment => 2
    case Hcrc => 1
    case _ => 0
  }

  /** A stage that may need no byte needs one here. */
  predicate NeedsByte(p: Parser) {
    match p.stage
    case Start => p.wrap == Either
    case Xlen => HasExtra(p.flags)
    case Extra => HasExtra(p.flags) && p.length > 0
    case Name => HasName(p.flags)
    case Comment => HasComment(p.flags)
    case Hcrc => HasHcrc(p.flags)
    case _ => true
  }

  /** A stage that needs no byte is passed. */
  function Pass(p: Parser): Parser {
    match p.stage
    case Start =>
      if p.wrap == Gzip then WithHead(p.(stage := Id1), (d: Head) => d.(done := 0))
      else WithHead(p.(stage := ZlibId1), (d: Head) => d.(done := -1))
    case Xlen => WithHead(p.(held := 0, stage := Extra), (d: Head) => d.(extra := None))
    case Extra => p.(length := 0, stage := Name)
    case Name => WithHead(p.(length := 0, stage := Comment), (d: Head) => d.(name := None))
    case Comment => WithHead(p.(length := 0, held := 0, stage := Hcrc), (d: Head) => d.(comment := None))
    case _ => WithHead(p.(held := 0, stage := Inflate), (d: Head) => d.(done := 1))
  }

  /** Up to the next stage that needs a byte. */
  function Settle(p: Parser): Parser
    decreases Rank(p.stage)
  {
    if NeedsByte(p) then p else Settle(Pass(p))
  }

  lemma StaysPut(p: Parser)
    requires NeedsByte(p)
    ensures Settle(p) == p
  {
  }

  datatype Progress = Progress(parser: Parser, rest: seq<byte>)

  /** The parser on a run of bytes, until the header ends. */
  function Feed(p: Parser, bs: seq<byte>): Progress
    decreases |bs|
  {
    if bs == [] || Stopped(p) then Progress(p, bs) else Feed(Settle(Step(p, bs[0])), bs[1..])
  }

  // ---------- Splitting the input ----------

  lemma {:induction false} FeedConcat(p: Parser, a: seq<byte>, b: seq<byte>)
    ensures Feed(p, a + b) == Feed(Feed(p, a).parser, Feed(p, a).rest + b)
    decreases |a|
  {
    if a == [] {
      assert a + b == b;
    } else if !Stopped(p) {
      assert (a + b)[0] == a[0] && (a + b)[1..] == a[1..] + b;
      FeedConcat(Settle(Step(p, a[0])), a[1..], b);
    }
  }

  function Joined(chunks: seq<seq<byte>>): seq<byte> {
    if chunks == [] then [] else chunks[0] + Joined(chunks[1..])
  }

  /**
    The extra field is copied call by call. A call that goes on beyond the end of the buffer
    computes its room as a negative number, which is a large unsigned one.
    */
  predicate Beyond(p: Parser) {
    && p.stage.Extra? && HasExtra(p.flags) && p.length > 0 && p.head.Some? && p.head.value.extra.Some?
    && p.head.value.extraLen > p.length + p.head.value.extraMax
  }

  /** The parser when a call brings the bytes bs. */
  function Enter(p: Parser, bs: seq<byte>): Parser {
    if bs != [] && Beyond(p) then p.(stage := Overrun) else p
  }

  /** Chunks come one call at a time, after what the call before left over. */
  function FeedChunks(p: Parser, left: seq<byte>, chunks: seq<seq<byte>>): Progress
    decreases |chunks|
  {
    if chunks == [] then Progress(p, left)
    else
      var bs := left + chunks[0];
      var g := Feed(Enter(p, bs), bs);
      FeedChunks(g.parser, g.rest, chunks[1..])
  }

  /** Some call that brings input starts beyond the buffer for the extra field. */
  predicate StartsBeyond(p: Parser, chunks: seq<seq<byte>>)
    decreases |chunks|
  {
    chunks != [] && ((chunks[0] != [] && Beyond(p)) || StartsBeyond(Feed(p, chunks[0]).parser, chunks[1..]))
  }

  lemma {:induction false} StoppedChunks(p: Parser, left: seq<byte>, chunks: seq<seq<byte>>)
    requires Stopped(p)
    ensures FeedChunks(p, left, chunks) == Progress(p, left + Joined(chunks)) && !StartsBeyond(p, chunks)
    decreases |chunks|
  {
    if chunks == [] {
      assert left + Joined(chunks) == left;
    } else {
      StoppedChunks(p, left + chunks[0], chunks[1..]);
      Assoc(left, chunks[0], Joined(chunks[1..]));
    }
  }

  /**
    However the input is split, the parser ends in the same state with the same bytes left,
    but for a call that starts beyond the buffer for the extra field.
    */
  lemma {:induction false} ChunksDoNotMatter(p: Parser, chunks: seq<seq<byte>>)
    ensures StartsBeyond(p, chunks) ==> FeedChunks(p, [], chunks).parser.stage == Overrun
    ensures !StartsBeyond(p, chunks) ==> FeedChunks(p, [], chunks) == Feed(p, Joined(chunks))
    decreases |chunks|
  {
    if chunks != [] {
      var a, b := chunks[0], Joined(chunks[1..]);
      assert [] + a == a;
      if a != [] && Beyond(p) {
        StoppedChunks(p.(stage := Overrun), a, chunks[1..]);
      } else {
        var g := Feed(p, a);
        FeedStops(p, a);
        FeedConcat(p, a, b);
        if Stopped(g.parser) {
          StoppedChunks(g.parser, g.rest, chunks[1..]);
        } else {
          assert [] + b == b;
          ChunksDoNotMatter(g.parser, chunks[1..]);
        }
      }
    }
  }

  /** A stopped parser takes no more, so what it leaves does not matter. */
  lemma FeedOn(p: Parser, a: seq<byte>, b: seq<byte>)
    ensures Feed(p, a + b).parser == Feed(Feed(p, a).parser, b).parser
  {
    FeedConcat(p, a, b);
    FeedStops(p, a);
    assert [] + b == b;
  }

  /** Bytes are left over only after the header. */
  lemma {:induction false} FeedStops(p: Parser, bs: seq<byte>)
    ensures Stopped(Feed(p, bs).parser) || Feed(p, bs).rest == []
    decreases |bs|
  {
    if bs != [] && !Stopped(p) { FeedStops(Settle(Step(p, bs[0])), bs[1..]); }
  }

  // ---------- What is rejected ----------

  /** Where no byte can be wrong any more. */
  predicate Past(p: Parser) {
    p.stage.Mtime? || p.stage.Xfl? || p.stage.Os? || p.stage.Xlen? || p.stage.Extra? || p.stage.Name?
    || p.stage.Comment? || p.stage.DictId? || (Stopped(p) && !p.stage.DataError?)
  }

  lemma {:induction false} SettlePast(p: Parser)
    requires Past(p)
    ensures Past(Settle(p))
    decreases Rank(p.stage)
  {
    if !NeedsByte(p) { SettlePast(Pass(p)); }
  }

  lemma {:induction false} FeedPast(p: Parser, bs: seq<byte>)
    requires Past(p)
    ensures Past(Feed(p, bs).parser)
    decreases |bs|
  {
    if bs != [] && !Stopped(p) {
      SettlePast(Step(p, bs[0]));
      FeedPast(Settle(Step(p, bs[0])), bs[1..]);
    }
  }

  /** Magic, method or reserved flags that section 2.3 of RFC 1952 does not allow. */
  predicate BadGzip(bs: seq<byte>) {
    || (|bs| > 0 && bs[0] != 31) || (|bs| > 1 && bs[1] != 139) || (|bs| > 2 && bs[2] != 8)
    || (|bs| > 3 && bs[3] as nat / 32 != 0)
  }

  /** Method, window size or check bits that section 2.2 of RFC 1950 does not allow. */
  predicate BadZlib(bs: seq<byte>) {
    || (|bs| > 0 && (bs[0] as nat % 16 != 8 || bs[0] as nat / 16 > 7))
    || (|bs| > 1 && (bs[0] as nat * 256 + bs[1] as nat) % 31 != 0)
  }

  /** The next byte of the stage. */
  lemma NextIs(p: Parser, bs: seq<byte>)
    requires bs != [] && !Stopped(p) && NeedsByte(Step(p, bs[0]))
    ensures Feed(p, bs) == Feed(Step(p, bs[0]), bs[1..])
  {
    StaysPut(Step(p, bs[0]));
  }

  lemma RejectsFlags(p: Parser, bs: seq<byte>)
    requires p.stage.Flg?
    ensures Feed(p, bs).parser.stage.DataError? <==> |bs| > 0 && bs[0] as nat / 32 != 0
  {
    if bs != [] {
      NextIs(p, bs);
      if Past(Step(p, bs[0])) { FeedPast(Step(p, bs[0]), bs[1..]); }
    }
  }

  lemma RejectsMethod(p: Parser, bs: seq<byte>)
    requires p.stage.Cm?
    ensures Feed(p, bs).parser.stage.DataError?
       <==> (|bs| > 0 && bs[0] != 8) || (|bs| > 1 && bs[1] as nat / 32 != 0)
  {
    if bs != [] {
      NextIs(p, bs);
      if bs[0] == 8 { RejectsFlags(Step(p, bs[0]), bs[1..]); }
    }
  }

  lemma RejectsSecond(p: Parser, bs: seq<byte>)
    requires p.stage.Id2?
    ensures Feed(p, bs).parser.stage.DataError?
       <==> (|bs| > 0 && bs[0] != 139) || (|bs| > 1 && bs[1] != 8) || (|bs| > 2 && bs[2] as nat / 32 != 0)
  {
    if bs != [] {
      NextIs(p, bs);
      if bs[0] == 139 { RejectsMethod(Step(p, bs[0]), bs[1..]); }
    }
  }

  lemma RejectsZlibFlags(p: Parser, bs: seq<byte>)
    requires p.stage.ZlibFlg?
    ensures Feed(p, bs).parser.stage.DataError? <==> |bs| > 0 && (p.cmf * 256 + bs[0] as nat) % 31 != 0
  {
    if bs != [] {
      NextIs(p, bs);
      if Past(Step(p, bs[0])) { FeedPast(Step(p, bs[0]), bs[1..]); }
    }
  }

  /** Whatever the bytes, the reader fails on just the headers that the two standards do not allow. */
  lemma Rejects(p: Parser, bs: seq<byte>)
    requires p.stage.Start?
    ensures Feed(Settle(p), bs).parser.stage.DataError? <==>
      match p.wrap
      case Gzip => BadGzip(bs)
      case Zlib => BadZlib(bs)
      case Either => |bs| > 0 && if bs[0] == 31 then BadGzip(bs) else BadZlib(bs)
  {
    var q := Settle(p);
    StartsAs(p);
    if bs != [] {
      NextIs(q, bs);
      if Step(q, bs[0]).stage.Id2? {
        RejectsSecond(Step(q, bs[0]), bs[1..]);
      } else if Step(q, bs[0]).stage.ZlibFlg? {
        RejectsZlibFlags(Step(q, bs[0]), bs[1..]);
      }
    }
  }

  /** A header without a CRC of its own ends after the comment; with one, the reader waits for it. */
  lemma HcrcWaits(p: Parser)
    requires p.stage.Hcrc?
    ensures Settle(p).stage == if p.flags / 2 % 2 == 1 then Hcrc else Inflate
  {
    if !NeedsByte(p) { StaysPut(Pass(p)); }
  }

  lemma StartsAs(p: Parser)
    requires p.stage.Start?
    ensures Settle(p).stage == (match p.wrap case Gzip => Id1 case Zlib => ZlibId1 case Either => Start)
    ensures Settle(p).wrap == p.wrap
  {
    if !p.wrap.Either? { StaysPut(Pass(p)); }
  }
}
