/** What the header writer of lib/nx_deflate.c writes, the reader of lib/nx_inflate.c recovers. */
module GzipRoundTrip {
  import opened Sequences
  import opened Wrappers
  import opened Buffers
  import opened GzipHeader

  lemma OneByte(p: Parser, b: byte, rest: seq<byte>)
    requires !Stopped(p)
    ensures Feed(p, [b] + rest) == Feed(Settle(Step(p, b)), rest)
  {
    assert ([b] + rest)[1..] == rest;
  }

  // ---------- Text fields ----------

  function KeepAll(t: Option<seq<byte>>, max: nat, bs: seq<byte>): Option<seq<byte>>
    decreases |bs|
  {
    if bs == [] then t else KeepAll(Keep(t, max, bs[0]), max, bs[1..])
  }

  /** A buffer keeps what fits in it. */
  lemma {:induction false} KeepsPrefix(got: seq<byte>, max: nat, bs: seq<byte>)
    requires |got| <= max
    ensures KeepAll(Some(got), max, bs) == Some(got + bs[..Min(max - |got|, |bs|)])
    decreases |bs|
  {
    if bs == [] {
      assert got + bs[..0] == got;
    } else {
      if |got| < max {
        KeepsPrefix(got + [bs[0]], max, bs[1..]);
        var n := Min(max - |got|, |bs|);
        assert (got + [bs[0]]) + bs[1..][..n - 1] == got + bs[..n];
      } else {
        KeepsPrefix(got, max, bs[1..]);
        assert got + bs[1..][..0] == got && got + bs[..0] == got;
      }
    }
  }

  lemma {:induction false} KeepNothing(max: nat, bs: seq<byte>)
    ensures KeepAll(None, max, bs) == None
    decreases |bs|
  {
    if bs != [] { KeepNothing(max, bs[1..]); }
  }

  function WithName(p: Parser, bs: seq<byte>): Parser {
    p.(head := if p.head.None? then None
               else Some(p.head.value.(name := KeepAll(p.head.value.name, p.head.value.nameMax, bs))))
  }

  function WithComment(p: Parser, bs: seq<byte>): Parser {
    p.(head := if p.head.None? then None
               else Some(p.head.value.(comment := KeepAll(p.head.value.comment, p.head.value.commentMax, bs))))
  }

  lemma {:induction false} KeepLast(t: Option<seq<byte>>, max: nat, bs: seq<byte>, b: byte)
    ensures KeepAll(t, max, bs + [b]) == Keep(KeepAll(t, max, bs), max, b)
    decreases |bs|
  {
    if bs == [] {
      assert bs + [b] == [b];
    } else {
      assert (bs + [b])[1..] == bs[1..] + [b];
      KeepLast(Keep(t, max, bs[0]), max, bs[1..], b);
    }
  }

  /** Some of the bytes of a text, before its NUL. */
  lemma {:induction false} NamePart(p: Parser, t: seq<byte>, rest: seq<byte>)
    requires p.stage == Name && HasName(p.flags) && NoNul(Some(t))
    ensures Feed(p, t + rest) == Feed(WithName(p, t), rest)
    decreases |t|
  {
    if t == [] {
      assert t + rest == rest;
    } else {
      var b, u := t[0], t[1..];
      assert t == [b] + u;
      Assoc([b], u, rest);
      OneByte(p, b, u + rest);
      NamePart(Step(p, b), u, rest);
    }
  }

  lemma ReadName(p: Parser, t: seq<byte>, rest: seq<byte>)
    requires p.stage == Name && HasName(p.flags) && NoNul(Some(t))
    ensures Feed(p, (t + [0]) + rest) == Feed(Settle(WithName(p, t + [0]).(stage := Comment)), rest)
  {
    Assoc(t, [0], rest);
    NamePart(p, t, [0] + rest);
    OneByte(WithName(p, t), 0, rest);
    if p.head.Some? { KeepLast(p.head.value.name, p.head.value.nameMax, t, 0); }
  }

  /** Some of the bytes of a text, before its NUL. */
  lemma {:induction false} CommentPart(p: Parser, t: seq<byte>, rest: seq<byte>)
    requires p.stage == Comment && HasComment(p.flags) && NoNul(Some(t))
    ensures Feed(p, t + rest) == Feed(WithComment(p, t), rest)
    decreases |t|
  {
    if t == [] {
      assert t + rest == rest;
    } else {
      var b, u := t[0], t[1..];
      assert t == [b] + u;
      Assoc([b], u, rest);
      OneByte(p, b, u + rest);
      CommentPart(Step(p, b), u, rest);
    }
  }

  lemma ReadComment(p: Parser, t: seq<byte>, rest: seq<byte>)
    requires p.stage == Comment && HasComment(p.flags) && NoNul(Some(t))
    ensures Feed(p, (t + [0]) + rest) == Feed(Settle(WithComment(p, t + [0]).(stage := Hcrc)), rest)
  {
    Assoc(t, [0], rest);
    CommentPart(p, t, [0] + rest);
    OneByte(WithComment(p, t), 0, rest);
    if p.head.Some? { KeepLast(p.head.value.comment, p.head.value.commentMax, t, 0); }
  }

  function AfterName(p: Parser, t: Option<seq<byte>>): Parser {
    if t.Some? then WithName(p, t.value + [0]).(stage := Comment)
    else p.(stage := Comment, head := if p.head.None? then None else Some(p.head.value.(name := None)))
  }

  function AfterComment(p: Parser, t: Option<seq<byte>>): Parser {
    if t.Some? then WithComment(p, t.value + [0]).(stage := Hcrc)
    else p.(stage := Hcrc, head := if p.head.None? then None else Some(p.head.value.(comment := None)))
  }

  lemma NameField(p: Parser, t: Option<seq<byte>>, rest: seq<byte>)
    requires p.stage == Name && p.length == 0 && p.held == 0 && (HasName(p.flags) <==> t.Some?) && NoNul(t)
    ensures Feed(Settle(p), TextPart(t) + rest) == Feed(Settle(AfterName(p, t)), rest)
  {
    if t.Some? { ReadName(p, t.value, rest); } else { assert [] + rest == rest; }
  }

  lemma CommentField(p: Parser, t: Option<seq<byte>>, rest: seq<byte>)
    requires p.stage == Comment && p.length == 0 && p.held == 0 && (HasComment(p.flags) <==> t.Some?) && NoNul(t)
    ensures Feed(Settle(p), TextPart(t) + rest) == Feed(Settle(AfterComment(p, t)), rest)
  {
    if t.Some? { ReadComment(p, t.value, rest); } else { assert [] + rest == rest; }
  }

  // ---------- The extra field ----------

  function WithExtra(p: Parser, e: seq<byte>): Parser {
    p.(head := if p.head.None? then None
               else Some(p.head.value.(extra := KeepAll(p.head.value.extra, p.head.value.extraMax, e))))
  }

  /** Some or all of what is left of the extra field. */
  lemma {:induction false} ReadExtra(p: Parser, e: seq<byte>, rest: seq<byte>)
    requires p.stage == Extra && HasExtra(p.flags) && |e| <= p.length
    ensures Feed(Settle(p), e + rest) == Feed(Settle(WithExtra(p, e).(length := p.length - |e|)), rest)
    decreases |e|
  {
    if e == [] {
      assert e + rest == rest;
    } else {
      var b, u := e[0], e[1..];
      assert e == [b] + u;
      Assoc([b], u, rest);
      OneByte(p, b, u + rest);
      ReadExtra(Step(p, b), u, rest);
    }
  }

  function AfterExtra(p: Parser, e: Option<seq<byte>>): Parser {
    if e.Some? then
      WithExtra(p, e.value).(stage := Name, head := if p.head.None? then None else
        Some(WithExtra(p, e.value).head.value.(extraLen := |e.value|)))
    else p.(stage := Name, head := if p.head.None? then None else Some(p.head.value.(extra := None)))
  }

  lemma TwoBytes(n: nat)
    requires n < 0x1_0000
    ensures Shifted(ByteOf(n, 0) as nat, 0) + Shifted(ByteOf(n, 1) as nat, 1) == n
  {
    assert n / 256 % 256 == n / 256;
  }

  function AfterLengthBytes(p: Parser, n: nat): Parser {
    p.(length := n, stage := Extra,
       head := if p.head.None? then None else Some(p.head.value.(extraLen := n)))
  }

  lemma ReadLength(p: Parser, n: nat, rest: seq<byte>)
    requires p.stage == Xlen && p.length == 0 && p.held == 0 && HasExtra(p.flags) && n < 0x1_0000
    ensures Feed(p, [ByteOf(n, 0), ByteOf(n, 1)] + rest)
         == Feed(Settle(AfterLengthBytes(p, n)), rest)
  {
    var b0, b1 := ByteOf(n, 0), ByteOf(n, 1);
    TwoBytes(n);
    assert [b0, b1] + rest == [b0] + ([b1] + rest);
    OneByte(p, b0, [b1] + rest);
    OneByte(Step(p, b0), b1, rest);
  }

  lemma ExtraField(p: Parser, e: Option<seq<byte>>, rest: seq<byte>)
    requires p.stage == Xlen && p.length == 0 && p.held == 0 && (HasExtra(p.flags) <==> e.Some?)
    requires e.Some? ==> |e.value| < 0x1_0000
    ensures Feed(Settle(p), ExtraPart(e) + rest) == Feed(Settle(AfterExtra(p, e)), rest)
  {
    if e.Some? {
      var n, x := |e.value|, e.value;
      Assoc([ByteOf(n, 0), ByteOf(n, 1)], x, rest);
      ReadLength(p, n, x + rest);
      ReadExtra(AfterLengthBytes(p, n), x, rest);
    } else {
      assert [] + rest == rest;
    }
  }

  // ---------- The fixed part ----------

  lemma ShiftedIs(b: nat)
    ensures Shifted(b, 1) == b * 256 && Shifted(b, 2) == b * 0x1_0000 && Shifted(b, 3) == b * 0x100_0000
  {
    assert Shifted(b, 2) == Shifted(b, 1) * 256 && Shifted(b, 3) == Shifted(b, 2) * 256;
  }

  lemma FourDigits(t: nat, a: nat, b: nat, c: nat)
    requires a == t / 256 && b == a / 256 && c == b / 256
    ensures t % 256 + a % 256 * 256 + b % 256 * 0x1_0000 + c % 256 * 0x100_0000 == t % 0x1_0000_0000
  {
    assert t == t % 256 + 256 * a && a == a % 256 + 256 * b && b == b % 256 + 256 * c && c == c % 256 + 256 * (c / 256);
    ModIs(t, c / 256, t % 256 + a % 256 * 256 + b % 256 * 0x1_0000 + c % 256 * 0x100_0000);
  }

  lemma ModIs(t: nat, q: nat, r: nat)
    requires t == r + 0x1_0000_0000 * q && r < 0x1_0000_0000
    ensures t % 0x1_0000_0000 == r
  {
  }

  lemma FourBytes(t: nat)
    ensures Shifted(ByteOf(t, 0) as nat, 0) + Shifted(ByteOf(t, 1) as nat, 1)
          + Shifted(ByteOf(t, 2) as nat, 2) + Shifted(ByteOf(t, 3) as nat, 3) == t % 0x1_0000_0000
  {
    var a, b, c := t / 256, t / 256 / 256, t / 256 / 256 / 256;
    ThirdByte(t, a, b, c);
    ShiftedIs(ByteOf(t, 1) as nat);
    ShiftedIs(ByteOf(t, 2) as nat);
    ShiftedIs(ByteOf(t, 3) as nat);
    FourDigits(t, a, b, c);
  }

  lemma ThirdByte(t: nat, a: nat, b: nat, c: nat)
    requires a == t / 256 && b == a / 256 && c == b / 256
    ensures ByteOf(t, 0) as nat == t % 256 && ByteOf(t, 1) as nat == a % 256
    ensures ByteOf(t, 2) as nat == b % 256 && ByteOf(t, 3) as nat == c % 256
  {
    assert ByteOf(t, 1) == ByteOf(a, 0);
    assert ByteOf(t, 2) == ByteOf(a, 1) == ByteOf(b, 0);
    assert ByteOf(t, 3) == ByteOf(a, 2) == ByteOf(b, 1) == ByteOf(c, 0);
  }

  /** The flags say which fields follow. */
  lemma FlagsTell(h: Header)
    ensures var f := FlagByte(h);
      && (f % 2 == 1 <==> h.text) && !HasHcrc(f) && (HasExtra(f) <==> h.extra.Some?)
      && (HasName(f) <==> h.name.Some?) && (HasComment(f) <==> h.comment.Some?)
  {
  }

  /** The parser at the first byte of a gzip header. */
  predicate AtStart(p: Parser) {
    p.stage == Start && (p.wrap.Gzip? || p.wrap.Either?) && p.held == 0 && p.length == 0
  }

  lemma PassesOnce(p: Parser)
    requires !NeedsByte(p) && NeedsByte(Pass(p))
    ensures Settle(p) == Pass(p)
  {
    StaysPut(Pass(p));
  }

  lemma StartSettles(p: Parser)
    requires AtStart(p)
    ensures Settle(p) == if p.wrap.Gzip? then Pass(p) else p
  {
    if p.wrap.Gzip? { PassesOnce(p); }
  }

  function TimeOf(h: Header): nat {
    h.time % 0x1_0000_0000
  }

  /** After magic, method and flags. */
  function AtTime(p: Parser, h: Header): Parser {
    var q := Settle(p);
    WithHead(q.(wrap := Gzip, flags := FlagByte(h), stage := Mtime, held := 0, length := 0),
             (d: Head) => d.(text := h.text, time := 0))
  }

  lemma OneByOne(b0: byte, b1: byte, b2: byte, b3: byte, rest: seq<byte>)
    ensures [b0, b1, b2, b3] + rest == [b0] + ([b1] + ([b2] + ([b3] + rest)))
  {
  }

  /** Magic and method, which leave the flags to come. */
  lemma ReadIds(q: Parser, rest: seq<byte>)
    requires q.stage == Id1 || (q.stage == Start && q.wrap.Either?)
    ensures Feed(q, [0x1f] + ([0x8b] + ([8] + rest)))
         == Feed(q.(stage := Flg, wrap := if q.stage.Id1? then q.wrap else Gzip), rest)
  {
    OneByte(q, 0x1f, [0x8b] + ([8] + rest));
    var q1 := Step(q, 0x1f);
    OneByte(q1, 0x8b, [8] + rest);
    OneByte(Step(q1, 0x8b), 8, rest);
  }

  lemma ReadMagic(p: Parser, h: Header, rest: seq<byte>)
    requires AtStart(p)
    ensures Feed(Settle(p), [0x1f, 0x8b, 8, FlagByte(h) as byte] + rest) == Feed(AtTime(p, h), rest)
  {
    var f := FlagByte(h) as byte;
    FlagsTell(h);
    StartSettles(p);
    OneByOne(0x1f, 0x8b, 8, f, rest);
    ReadIds(Settle(p), [f] + rest);
    OneByte(Settle(p).(stage := Flg, wrap := Gzip), f, rest);
  }

  function WithTime(p: Parser, t: nat): Parser {
    p.(head := if p.head.None? then None else Some(p.head.value.(time := t)))
  }

  /** The parser goes through all of a and is then in state q. */
  ghost predicate Runs(p: Parser, a: seq<byte>, q: Parser) {
    Feed(p, a) == Progress(q, [])
  }

  lemma RunOn(p: Parser, a: seq<byte>, q: Parser, b: seq<byte>)
    requires Runs(p, a, q)
    ensures Feed(p, a + b) == Feed(q, b)
  {
    FeedConcat(p, a, b);
    assert [] + b == b;
  }

  lemma RunsOne(p: Parser, b: byte)
    requires !Stopped(p)
    ensures Runs(p, [b], Settle(Step(p, b)))
  {
    var bs := [b];
    assert bs[1..] == [];
  }

  lemma RunsBoth(p: Parser, a: seq<byte>, q: Parser, b: seq<byte>, r: Parser)
    requires Runs(p, a, q) && Runs(q, b, r)
    ensures Runs(p, a + b, r)
  {
    RunOn(p, a, q, b);
  }

  lemma ReadTimeByte(p: Parser, k: nat, t: nat, b: byte)
    requires p.stage == Mtime && p.held == k < 3 && (p.head.Some? ==> p.head.value.time == t)
    ensures Runs(p, [b], WithTime(p, t + Shifted(b as nat, k)).(held := k + 1))
  {
    RunsOne(p, b);
    StaysPut(Step(p, b));
  }

  /** The parser after a time of u. */
  function TimeRead(p: Parser, u: nat): Parser {
    WithTime(p, u).(held := 0, stage := if p.head.Some? && u >= 0x8000_0000 then Abort else Xfl)
  }

  lemma ReadLastTimeByte(p: Parser, t: nat, b: byte)
    requires p.stage == Mtime && p.held == 3 && (p.head.Some? ==> p.head.value.time == t)
    ensures Runs(p, [b], TimeRead(p, t + Shifted(b as nat, 3)))
  {
    RunsOne(p, b);
    StaysPut(Step(p, b));
  }

  lemma TimeAgain(p: Parser, q: Parser, k: nat, t: nat, u: nat)
    requires q == WithTime(p, t).(held := k)
    ensures TimeRead(q, u) == TimeRead(p, u) && WithTime(q, u) == WithTime(p, u).(held := k)
  {
  }

  lemma ReadFirstHalf(p: Parser, b0: byte, b1: byte, t: nat)
    requires p.stage == Mtime && p.held == 0 && (p.head.Some? ==> p.head.value.time == 0)
    requires t == Shifted(b0 as nat, 0) + Shifted(b1 as nat, 1)
    ensures Runs(p, [b0] + [b1], WithTime(p, t).(held := 2))
  {
    var t1 := Shifted(b0 as nat, 0);
    var q := WithTime(p, t1).(held := 1);
    ReadTimeByte(p, 0, 0, b0);
    ReadTimeByte(q, 1, t1, b1);
    TimeAgain(p, q, 1, t1, t);
    RunsBoth(p, [b0], q, [b1], WithTime(p, t).(held := 2));
  }

  lemma ReadSecondHalf(p: Parser, q: Parser, t: nat, b2: byte, b3: byte, u: nat)
    requires p.stage == Mtime && q == WithTime(p, t).(held := 2)
    requires u == t + Shifted(b2 as nat, 2) + Shifted(b3 as nat, 3)
    ensures Runs(q, [b2] + [b3], TimeRead(p, u))
  {
    var t3 := t + Shifted(b2 as nat, 2);
    var q3 := WithTime(p, t3).(held := 3);
    ReadTimeByte(q, 2, t, b2);
    TimeAgain(p, q, 2, t, t3);
    ReadLastTimeByte(q3, t3, b3);
    TimeAgain(p, q3, 3, t3, u);
    RunsBoth(q, [b2], q3, [b3], TimeRead(p, u));
  }

  lemma ReadTime(p: Parser, t: nat)
    requires p.stage == Mtime && p.held == 0 && (p.head.Some? ==> p.head.value.time == 0)
    ensures Runs(p, [ByteOf(t, 0), ByteOf(t, 1), ByteOf(t, 2), ByteOf(t, 3)], TimeRead(p, t % 0x1_0000_0000))
  {
    var b0, b1, b2, b3 := ByteOf(t, 0), ByteOf(t, 1), ByteOf(t, 2), ByteOf(t, 3);
    var t2, u := Shifted(b0 as nat, 0) + Shifted(b1 as nat, 1), t % 0x1_0000_0000;
    var q := WithTime(p, t2).(held := 2);
    FourBytes(t);
    ReadFirstHalf(p, b0, b1, t2);
    ReadSecondHalf(p, q, t2, b2, b3, u);
    RunsBoth(p, [b0] + [b1], q, [b2] + [b3], TimeRead(p, u));
    assert ([b0] + [b1]) + ([b2] + [b3]) == [b0, b1, b2, b3];
  }

  function AfterOs(p: Parser, os: nat): Parser {
    p.(stage := Xlen, head := if p.head.None? then None else Some(p.head.value.(xflags := 4, os := os)))
  }

  lemma ReadXflOs(p: Parser, os: byte, rest: seq<byte>)
    requires p.stage == Xfl && p.held == 0 && p.length == 0
    ensures Feed(p, [4, os] + rest)
         == Feed(Settle(AfterOs(p, os as nat)), rest)
  {
    hide Feed, Settle;
    assert [4, os] + rest == [4] + ([os] + rest);
    var q := Step(p, 4);
    OneByte(p, 4, [os] + rest);
    StaysPut(q);
    OneByte(q, os, rest);
  }

  // ---------- The whole header ----------

  function AfterFixed(p: Parser, h: Header): Parser {
    AfterOs(WithTime(AtTime(p, h), TimeOf(h)), ByteOf(h.os, 0) as nat)
  }

  lemma ReadFixed(p: Parser, h: Header, rest: seq<byte>)
    requires AtStart(p)
    ensures p.head.None? || TimeOf(h) < 0x8000_0000 ==>
      Feed(Settle(p), FixedPart(h) + rest) == Feed(Settle(AfterFixed(p, h)), rest)
    ensures !(p.head.None? || TimeOf(h) < 0x8000_0000) ==> Feed(Settle(p), FixedPart(h) + rest).parser.stage == Abort
  {
    var magic: seq<byte> := [0x1f, 0x8b, 8, FlagByte(h) as byte];
    var time := [ByteOf(h.time, 0), ByteOf(h.time, 1), ByteOf(h.time, 2), ByteOf(h.time, 3)];
    var last := [4, ByteOf(h.os, 0)];
    assert FixedPart(h) + rest == magic + (time + (last + rest));
    ReadMagic(p, h, time + (last + rest));
    var q := AtTime(p, h);
    ReadTime(q, h.time);
    RunOn(q, time, TimeRead(q, TimeOf(h)), last + rest);
    if p.head.None? || TimeOf(h) < 0x8000_0000 {
      ReadXflOs(WithTime(q, TimeOf(h)).(stage := Xfl), ByteOf(h.os, 0), rest);
    }
  }

  /** The parser after the optional fields. */
  function AfterOptional(q: Parser, h: Header): Parser {
    AfterComment(AfterName(AfterExtra(q, h.extra), h.name), h.comment)
  }

  lemma ReadOptional(q: Parser, h: Header, rest: seq<byte>)
    requires q.stage == Xlen && q.length == 0 && q.held == 0 && q.flags == FlagByte(h) && Writable(h)
    ensures Feed(Settle(q), ExtraPart(h.extra) + (TextPart(h.name) + (TextPart(h.comment) + rest)))
         == Feed(Settle(AfterOptional(q, h)), rest)
  {
    FlagsTell(h);
    ExtraField(q, h.extra, TextPart(h.name) + (TextPart(h.comment) + rest));
    NameField(AfterExtra(q, h.extra), h.name, TextPart(h.comment) + rest);
    CommentField(AfterName(AfterExtra(q, h.extra), h.name), h.comment, rest);
  }

  /** The parser after the header h, with the fields it recovered. */
  function AfterHeader(p: Parser, h: Header): Parser {
    Settle(AfterOptional(AfterFixed(p, h), h))
  }

  lemma Ends(p: Parser, h: Header)
    ensures AfterHeader(p, h).stage == Inflate
  {
    LastStage(p, h);
    PassesOnce(AfterOptional(AfterFixed(p, h), h));
  }

  /** The header is read to its last byte, whatever follows, unless the time is 2^31 or more. */
  lemma ReadHeader(p: Parser, h: Header, rest: seq<byte>)
    requires AtStart(p) && Writable(h) && (p.head.None? || TimeOf(h) < 0x8000_0000)
    ensures Feed(Settle(p), HeaderBytes(h) + rest) == Progress(AfterHeader(p, h), rest)
    ensures AfterHeader(p, h).stage == Inflate
  {
    var e, n, c := ExtraPart(h.extra), TextPart(h.name), TextPart(h.comment);
    Regroup(FixedPart(h), e, n, c, rest);
    ReadFixed(p, h, e + (n + (c + rest)));
    ReadOptional(AfterFixed(p, h), h, rest);
    Ends(p, h);
    StopsHere(AfterHeader(p, h), rest);
  }

  lemma StopsHere(p: Parser, rest: seq<byte>)
    requires Stopped(p)
    ensures Feed(p, rest) == Progress(p, rest)
  {
  }

  /** A reader that keeps a record meets its own assertion on a time of 2^31 or more. */
  lemma LateTimeAborts(p: Parser, h: Header, rest: seq<byte>)
    requires AtStart(p) && p.head.Some? && TimeOf(h) >= 0x8000_0000
    ensures Feed(Settle(p), HeaderBytes(h) + rest).parser.stage == Abort
  {
    var e, n, c := ExtraPart(h.extra), TextPart(h.name), TextPart(h.comment);
    Regroup(FixedPart(h), e, n, c, rest);
    ReadFixed(p, h, e + (n + (c + rest)));
  }

  // ---------- What is recovered ----------

  /** A buffer of size max for a text field of the header: what of the field it holds afterwards. */
  function Recovered(buffer: Option<seq<byte>>, max: nat, t: Option<seq<byte>>): Option<seq<byte>> {
    if t.None? || buffer.None? then None else Some((t.value + [0])[..Min(max, |t.value| + 1)])
  }

  /** The same for the extra field, which has no NUL. */
  function RecoveredExtra(buffer: Option<seq<byte>>, max: nat, e: Option<seq<byte>>): Option<seq<byte>> {
    if e.None? || buffer.None? then None else Some(e.value[..Min(max, |e.value|)])
  }

  /** The caller's buffers are empty before the header. */
  predicate Empty(b: Option<seq<byte>>) {
    b.Some? ==> b.value == []
  }

  /** What the record d, with its buffers as in d0, holds of the header h. */
  predicate Holds(d: Head, d0: Head, h: Header) {
    && d.text == h.text && d.time == TimeOf(h) && d.xflags == 4 && d.os == h.os % 256 && d.done == 1
    && (h.extra.Some? ==> d.extraLen == |h.extra.value|)
    && d.extra == RecoveredExtra(d0.extra, d0.extraMax, h.extra)
    && d.name == Recovered(d0.name, d0.nameMax, h.name)
    && d.comment == Recovered(d0.comment, d0.commentMax, h.comment)
  }

  lemma Keeps(buffer: Option<seq<byte>>, max: nat, t: seq<byte>)
    requires Empty(buffer)
    ensures KeepAll(buffer, max, t + [0]) == Recovered(buffer, max, Some(t))
  {
    if buffer.Some? {
      KeepsPrefix([], max, t + [0]);
      assert [] + (t + [0])[..Min(max, |t| + 1)] == (t + [0])[..Min(max, |t| + 1)];
    } else {
      KeepNothing(max, t + [0]);
    }
  }

  lemma FixedHead(p: Parser, h: Header)
    requires AtStart(p) && p.head.Some?
    ensures AfterFixed(p, h).head.Some?
    ensures var d := AfterFixed(p, h).head.value;
      d == p.head.value.(text := h.text, time := TimeOf(h), xflags := 4, os := h.os % 256, done := d.done)
  {
    StartSettles(p);
  }

  /** The record with the optional fields of h. */
  function WithFields(d: Head, h: Header): Head {
    d.(extraLen := if h.extra.Some? then |h.extra.value| else d.extraLen,
       extra := RecoveredExtra(d.extra, d.extraMax, h.extra),
       name := Recovered(d.name, d.nameMax, h.name),
       comment := Recovered(d.comment, d.commentMax, h.comment))
  }

  lemma ExtraHead(q: Parser, e: Option<seq<byte>>)
    requires q.head.Some? && Empty(q.head.value.extra)
    ensures AfterExtra(q, e).head == Some(q.head.value.(
      extraLen := if e.Some? then |e.value| else q.head.value.extraLen,
      extra := RecoveredExtra(q.head.value.extra, q.head.value.extraMax, e)))
  {
    var d := q.head.value;
    if e.Some? && d.extra.Some? {
      KeepsPrefix([], d.extraMax, e.value);
      assert [] + e.value[..Min(d.extraMax, |e.value|)] == e.value[..Min(d.extraMax, |e.value|)];
    } else if e.Some? {
      KeepNothing(d.extraMax, e.value);
    }
  }

  lemma NameHead(q: Parser, t: Option<seq<byte>>)
    requires q.head.Some? && Empty(q.head.value.name)
    ensures AfterName(q, t).head == Some(q.head.value.(name := Recovered(q.head.value.name, q.head.value.nameMax, t)))
  {
    if t.Some? { Keeps(q.head.value.name, q.head.value.nameMax, t.value); }
  }

  lemma CommentHead(q: Parser, t: Option<seq<byte>>)
    requires q.head.Some? && Empty(q.head.value.comment)
    ensures AfterComment(q, t).head
         == Some(q.head.value.(comment := Recovered(q.head.value.comment, q.head.value.commentMax, t)))
  {
    if t.Some? { Keeps(q.head.value.comment, q.head.value.commentMax, t.value); }
  }

  lemma OptionalHead(q: Parser, h: Header)
    requires q.head.Some? && Empty(q.head.value.extra) && Empty(q.head.value.name) && Empty(q.head.value.comment)
    ensures AfterOptional(q, h).head == Some(WithFields(q.head.value, h))
  {
    var q1 := AfterExtra(q, h.extra);
    ExtraHead(q, h.extra);
    NameHead(q1, h.name);
    CommentHead(AfterName(q1, h.name), h.comment);
  }

  lemma SettledHead(r: Parser)
    requires r.stage == Hcrc && !HasHcrc(r.flags) && r.head.Some?
    ensures Settle(r).head == Some(r.head.value.(done := 1))
  {
    PassesOnce(r);
  }

  lemma LastStage(p: Parser, h: Header)
    ensures AfterOptional(AfterFixed(p, h), h).stage == Hcrc && !HasHcrc(AfterOptional(AfterFixed(p, h), h).flags)
  {
    FlagsTell(h);
  }

  lemma Recovers(p: Parser, h: Header)
    requires AtStart(p) && p.head.Some?
    requires Empty(p.head.value.extra) && Empty(p.head.value.name) && Empty(p.head.value.comment)
    ensures AfterHeader(p, h).head.Some? && Holds(AfterHeader(p, h).head.value, p.head.value, h)
  {
    FixedHead(p, h);
    OptionalHead(AfterFixed(p, h), h);
    LastStage(p, h);
    SettledHead(AfterOptional(AfterFixed(p, h), h));
  }

  lemma {:induction false} NoHead(p: Parser, h: Header)
    requires AtStart(p) && p.head.None?
    ensures AfterHeader(p, h).head.None?
  {
    LastStage(p, h);
    StartSettles(p);
    PassesOnce(AfterOptional(AfterFixed(p, h), h));
    assert AfterOptional(AfterFixed(p, h), h).head.None?;
  }

  /** The parser stops just past the header, with every field recovered. */
  ghost predicate PastHeader(g: Progress, p: Parser, h: Header, rest: seq<byte>) {
    && g.parser.stage == Inflate && g.rest == rest && g.parser.head.Some? == p.head.Some?
    && (p.head.Some? ==> Holds(g.parser.head.value, p.head.value, h))
  }

  lemma WholeRoundTrip(p: Parser, h: Header, rest: seq<byte>)
    requires AtStart(p) && Writable(h)
    requires p.head.Some? ==> Empty(p.head.value.extra) && Empty(p.head.value.name) && Empty(p.head.value.comment)
    ensures PastHeader(Feed(Settle(p), HeaderBytes(h) + rest), p, h, rest) <==> p.head.None? || TimeOf(h) < 0x8000_0000
    ensures p.head.Some? && TimeOf(h) >= 0x8000_0000 ==> Feed(Settle(p), HeaderBytes(h) + rest).parser.stage == Abort
  {
    if p.head.None? {
      ReadHeader(p, h, rest);
      NoHead(p, h);
    } else if TimeOf(h) < 0x8000_0000 {
      ReadHeader(p, h, rest);
      Recovers(p, h);
    } else {
      LateTimeAborts(p, h, rest);
    }
  }

  lemma Regroup(f: seq<byte>, e: seq<byte>, n: seq<byte>, c: seq<byte>, rest: seq<byte>)
    ensures (f + (e + (n + c))) + rest == f + (e + (n + (c + rest)))
  {
    assert (n + c) + rest == n + (c + rest);
    assert (e + (n + c)) + rest == e + (n + (c + rest));
  }

  // ---------- The zlib header ----------

  /** The two bytes before the check bits are added: method, window size, level, FDICT. */
  function ZlibFields(windowBits: nat, level: int, dict: bool): (n: nat)
    requires 8 <= windowBits <= 15
    ensures n / 256 == 8 + (windowBits - 8) * 16 && n % 32 == 0 && (n / 32 % 2 == 1 <==> dict)
  {
    var flags := if level < 2 then 0 else if level < 6 then 1 else if level == 6 then 2 else 3;
    (8 + (windowBits - 8) * 16) * 256 + flags * 64 + (if dict then 32 else 0)
  }

  function ZlibWord(windowBits: nat, level: int, dict: bool): nat
    requires 8 <= windowBits <= 15
  {
    var n := ZlibFields(windowBits, level, dict);
    n + (31 - n % 31)
  }

  /** put_short */
  function Short(n: nat): (s: seq<byte>) {
    [ByteOf(n, 1), ByteOf(n, 0)]
  }

  function ZlibBytes(windowBits: nat, level: int, dict: Option<nat>): (s: seq<byte>)
    requires 8 <= windowBits <= 15
  {
    Short(ZlibWord(windowBits, level, dict.Some?))
      + (if dict.None? then [] else Short(dict.value / 0x1_0000) + Short(dict.value % 0x1_0000))
  }

  lemma CheckBits(m: nat, c: nat)
    requires c < 32
    ensures (32 * m + c) / 32 == m && (32 * m + c) / 256 == m / 8 && (32 * m + c) % 256 / 32 == m % 8
  {
    assert 32 * m + c == 256 * (m / 8) + (32 * (m % 8) + c);
    assert (32 * (m % 8) + c) / 32 == m % 8;
  }

  lemma Divisible(n: nat)
    ensures (n + (31 - n % 31)) % 31 == 0
  {
    assert n + (31 - n % 31) == 31 * (n / 31 + 1);
  }

  function One(holds: bool): nat {
    if holds then 1 else 0
  }

  /** The check bits fit below the flags they follow, and FLEVEL goes up at the levels 2, 6 and 7. */
  lemma ZlibWordIs(windowBits: nat, level: int, dict: bool)
    requires 8 <= windowBits <= 15
    ensures var w := ZlibWord(windowBits, level, dict);
      && w % 31 == 0 && w / 256 == 8 + (windowBits - 8) * 16 && (w % 256 / 32 % 2 == 1 <==> dict)
      && w % 256 / 64 == One(level >= 2) + One(level >= 6) + One(level >= 7)
  {
    var n := ZlibFields(windowBits, level, dict);
    Divisible(n);
    CheckBits(n / 32, 31 - n % 31);
    assert n == 32 * (n / 32);
    assert n / 32 / 8 == n / 256;
    assert n / 32 % 8 % 2 == n / 32 % 2;
  }

  /** The parser after a good zlib header word. */
  function AfterWord(p: Parser, w: nat): Parser {
    if w % 256 / 32 % 2 == 1 then p.(stage := DictId, wrap := Zlib, cmf := w / 256, held := 0, dictId := 0)
    else p.(stage := Inflate, wrap := Zlib, cmf := w / 256, held := 0)
  }

  lemma TwoDigits(w: nat)
    requires w < 0x1_0000
    ensures ByteOf(w, 1) as nat == w / 256 && ByteOf(w, 0) as nat == w % 256
  {
    assert ByteOf(w, 1) == ByteOf(w / 256, 0);
  }

  lemma ReadZlibWord(p: Parser, w: nat)
    requires (p.stage == Start && p.wrap.Either?) || (p.stage == ZlibId1 && p.wrap.Zlib?)
    requires w < 0x1_0000 && w % 31 == 0 && w / 256 % 16 == 8 && w / 256 / 16 < 8
    ensures Runs(p, Short(w), AfterWord(p, w))
  {
    var b1, b0 := ByteOf(w, 1), ByteOf(w, 0);
    TwoDigits(w);
    var q := p.(stage := ZlibFlg, wrap := Zlib, cmf := w / 256);
    assert Step(p, b1) == q;
    StaysPut(q);
    RunsOne(p, b1);
    StaysPut(AfterWord(p, w));
    assert Step(q, b0) == AfterWord(p, w);
    RunsOne(q, b0);
    RunsBoth(p, [b1], q, [b0], AfterWord(p, w));
    assert [b1] + [b0] == Short(w);
  }

  lemma ReadIdHalf(p: Parser, n: nat, k: nat)
    requires p.stage == DictId && p.held == k && (k == 0 || k == 2) && n < 0x1_0000
    ensures Runs(p, Short(n), if k == 0 then p.(held := 2, dictId := p.dictId * 0x1_0000 + n)
                             else p.(held := 0, dictId := p.dictId * 0x1_0000 + n, stage := Dict))
  {
    var b1, b0 := ByteOf(n, 1), ByteOf(n, 0);
    TwoDigits(n);
    var q := p.(held := k + 1, dictId := p.dictId * 256 + n / 256);
    assert Step(p, b1) == q;
    StaysPut(q);
    RunsOne(p, b1);
    StaysPut(Step(q, b0));
    RunsOne(q, b0);
    RunsBoth(p, [b1], q, [b0], Step(q, b0));
    assert [b1] + [b0] == Short(n);
    assert (p.dictId * 256 + n / 256) * 256 + n % 256 == p.dictId * 0x1_0000 + n;
  }

  /** The parser after the zlib header. */
  function AfterZlib(p: Parser, windowBits: nat, dict: Option<nat>): Parser {
    var q := p.(wrap := Zlib, cmf := 8 + 16 * (if windowBits >= 8 then windowBits - 8 else 0), held := 0);
    if dict.None? then q.(stage := Inflate) else q.(stage := Dict, dictId := dict.value)
  }

  /** A zlib header is accepted, and the dictionary asked for is the one it names. */
  lemma ZlibRoundTrip(p: Parser, windowBits: nat, level: int, dict: Option<nat>)
    requires (p.stage == Start && p.wrap.Either?) || (p.stage == ZlibId1 && p.wrap.Zlib?)
    requires 8 <= windowBits <= 15 && (dict.Some? ==> dict.value < 0x1_0000_0000)
    ensures Runs(p, ZlibBytes(windowBits, level, dict), AfterZlib(p, windowBits, dict))
  {
    var w := ZlibWord(windowBits, level, dict.Some?);
    ZlibWordIs(windowBits, level, dict.Some?);
    ReadZlibWord(p, w);
    if dict.Some? {
      var hi, lo := dict.value / 0x1_0000, dict.value % 0x1_0000;
      var q0 := AfterWord(p, w);
      var q1 := q0.(held := 2, dictId := hi);
      ReadIdHalf(q0, hi, 0);
      ReadIdHalf(q1, lo, 2);
      RunsBoth(q0, Short(hi), q1, Short(lo), AfterZlib(p, windowBits, dict));
      RunsBoth(p, Short(w), q0, Short(hi) + Short(lo), AfterZlib(p, windowBits, dict));
    } else {
      assert Short(w) + [] == Short(w);
    }
  }
}
