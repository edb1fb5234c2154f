/**
  The gzip header states of nx_inflate (lib/nx_inflate.c): a machine that stops
  wherever the input ends and goes on with the next call.
  */
module GzipReader {
  import opened Wrappers
  import opened Buffers
  import opened GzipChunks
  import opened GzipHeader
  import opened GzipRoundTrip

  lemma LengthFits(length: nat, held: nat, n: nat)
    requires held < 2 && n < 256 && length < (if held == 0 then 1 else 256)
    ensures length + Shifted(n, held) < if held == 0 then 256 else 0x1_0000
  {
    ShiftedIs(n);
  }

  predicate BeforeExtra(s: Stage) {
    (s.Start? || s.Id1? || s.Id2? || s.Cm? || s.Flg? || s.Mtime? || s.Xfl? || s.Os? || s.Xlen?)
  }

  predicate BeforeName(s: Stage) {
    BeforeExtra(s) || s == Extra
  }

  predicate BeforeComment(s: Stage) {
    BeforeName(s) || s == Name
  }

  /** What every stage can rely on. */
  predicate Sound(p: Parser) {
    && p.held < 4
    && (p.stage == Xlen ==> p.held < 2 && p.length < (if p.held == 0 then 1 else 256))
    && (p.stage == Extra && HasExtra(p.flags) ==> p.length < 0x1_0000)
    && (p.head.Some? ==> SoundHead(p, p.head.value))
  }

  /** A field is empty before its stage, and the extra field is copied as far as the buffer goes. */
  predicate SoundHead(p: Parser, d: Head) {
    && (BeforeExtra(p.stage) ==> Empty(d.extra))
    && (BeforeName(p.stage) ==> Empty(d.name))
    && (BeforeComment(p.stage) ==> Empty(d.comment))
    && (p.stage == Extra && HasExtra(p.flags) && d.extra.Some? ==>
          p.length <= d.extraLen < 0x1_0000 && |d.extra.value| == Min(d.extraLen - p.length, d.extraMax))
  }

  predicate OneByteStage(s: Stage) {
    !(s.Extra? || s.Name? || s.Comment?)
  }

  lemma SoundLength(p: Parser, b: byte)
    requires Sound(p) && p.stage == Xlen
    ensures Sound(LengthStep(p, b))
  {
    LengthFits(p.length, p.held, b as nat);
  }

  lemma SoundStep(p: Parser, b: byte)
    requires Sound(p) && OneByteStage(p.stage)
    ensures Sound(Step(p, b)) && !Step(p, b).stage.Name? && !Step(p, b).stage.Comment?
  {
    if p.stage == Xlen { SoundLength(p, b); }
  }

  lemma SoundExtra(p: Parser, s: seq<byte>)
    requires Sound(p) && p.stage == Extra && HasExtra(p.flags) && |s| <= p.length && (s == [] || !Beyond(p))
    ensures Sound(WithExtra(p, s).(length := p.length - |s|))
  {
    if p.head.Some? {
      var d := p.head.value;
      if d.extra.Some? { KeepsPrefix(d.extra.value, d.extraMax, s); } else { KeepNothing(d.extraMax, s); }
    }
  }

  lemma NoBytes(p: Parser, s: seq<byte>)
    ensures WithExtra(p, s[..0]) == p
  {
  }

  lemma SoundOverrun(p: Parser)
    requires Sound(p)
    ensures Sound(p.(stage := Overrun))
  {
  }

  lemma SoundNext(p: Parser)
    requires Sound(p) && (p.stage.Name? || p.stage.Comment?)
    ensures Sound(p.(stage := if p.stage.Name? then Comment else Hcrc))
    ensures p.stage.Name? && p.head.Some? ==> Empty(p.head.value.comment)
  {
  }

  lemma SoundPass(p: Parser)
    requires Sound(p) && !NeedsByte(p)
    ensures Sound(Pass(p))
    ensures p.stage == Extra && p.head.Some? ==> Empty(p.head.value.name)
    ensures p.stage == Name && p.head.Some? ==> Empty(p.head.value.comment)
  {
  }

  /** The text in the first bytes of s ends with the byte c and has no NUL before that. */
  predicate TextEnds(s: seq<byte>, copy: nat, c: byte) {
    0 < copy <= |s| && c == s[copy - 1] && forall i :: 0 <= i < copy - 1 ==> s[i] != 0
  }

  lemma NameGoes(p: Parser, s: seq<byte>, copy: nat, c: byte)
    requires p.stage == Name && HasName(p.flags) && TextEnds(s, copy, c)
    ensures c != 0 ==> Feed(p, s) == Feed(WithName(p, s[..copy]), s[copy..])
    ensures c == 0 ==> Feed(p, s) == Feed(Settle(WithName(p, s[..copy]).(stage := Comment)), s[copy..])
  {
    assert s == s[..copy] + s[copy..];
    if c != 0 {
      NamePart(p, s[..copy], s[copy..]);
    } else {
      assert s[..copy] == s[..copy - 1] + [0];
      ReadName(p, s[..copy - 1], s[copy..]);
    }
  }

  lemma CommentGoes(p: Parser, s: seq<byte>, copy: nat, c: byte)
    requires p.stage == Comment && HasComment(p.flags) && TextEnds(s, copy, c)
    ensures c != 0 ==> Feed(p, s) == Feed(WithComment(p, s[..copy]), s[copy..])
    ensures c == 0 ==> Feed(p, s) == Feed(Settle(WithComment(p, s[..copy]).(stage := Hcrc)), s[copy..])
  {
    assert s == s[..copy] + s[copy..];
    if c != 0 {
      CommentPart(p, s[..copy], s[copy..]);
    } else {
      assert s[..copy] == s[..copy - 1] + [0];
      ReadComment(p, s[..copy - 1], s[copy..]);
    }
  }

  lemma KeepFirst(t: Option<seq<byte>>, max: nat, s: seq<byte>)
    requires s != []
    ensures KeepAll(t, max, s[..1]) == Keep(t, max, s[0])
  {
    KeepNext(t, max, s, 0);
  }

  lemma KeepNext(t: Option<seq<byte>>, max: nat, s: seq<byte>, k: nat)
    requires k < |s|
    ensures KeepAll(t, max, s[..k + 1]) == Keep(KeepAll(t, max, s[..k]), max, s[k])
  {
    assert s[..k + 1] == s[..k] + [s[k]];
    KeepLast(t, max, s[..k], s[k]);
  }

  // The bytes of the extra field that came with its length are copied from the start of the buffer.

  lemma StepSafe(p: Parser, b: byte)
    requires !p.stage.Extra?
    ensures !Beyond(Step(p, b))
  {
  }

  lemma PassSafe(p: Parser)
    requires !NeedsByte(p)
    ensures Settle(p) == Settle(Pass(p)) && !Beyond(Pass(p)) && Rank(Pass(p).stage) < Rank(p.stage)
  {
  }

  lemma {:induction false} SettleSafe(p: Parser)
    ensures Beyond(Settle(p)) <==> Beyond(p)
    decreases Rank(p.stage)
  {
    if !NeedsByte(p) { SettleSafe(Pass(p)); }
  }

  /** How a call with the input s begins. */
  lemma CallBegins(p: Parser, s: seq<byte>)
    ensures Feed(Enter(Settle(p), s), s)
         == if s != [] && Beyond(p) then Progress(p.(stage := Overrun), s) else Feed(Settle(p), s)
  {
    SettleSafe(p);
    if Beyond(p) {
      StaysPut(p);
      if s != [] { AtEnd(p.(stage := Overrun), s); }
    }
  }

  lemma AtEnd(p: Parser, s: seq<byte>)
    requires s == [] || Stopped(p)
    ensures Feed(p, s) == Progress(p, s)
  {
  }

  function Blank(buffer: array?<byte>): Option<seq<byte>> {
    if buffer == null then None else Some([])
  }

  function Size(buffer: array?<byte>): nat {
    if buffer == null then 0 else buffer.Length
  }

  /** The record, if the caller has one, before anything is read. */
  function BlankHead(hasHead: bool, extra: array?<byte>, name: array?<byte>, comment: array?<byte>): Option<Head> {
    if hasHead then
      Some(Head(false, 0, 0, 0, 0, Blank(extra), Size(extra), Blank(name), Size(name),
                Blank(comment), Size(comment), 0))
    else None
  }

  class Reader {
    var nextIn: seq<byte>
    var stage: Stage
    var wrap: Wrap
    var flags: nat
    var held: nat
    var length: nat
    var cmf: nat
    var dictId: nat

    /** The caller's gz_header, if there is one; its buffers may be missing. */
    const hasHead: bool
    const extraMax: nat
    const nameMax: nat
    const commentMax: nat
    var text: bool
    var time: nat
    var xflags: nat
    var os: nat
    var extraLen: nat
    var done: int
    var extra: array?<byte>
    var name: array?<byte>
    var comment: array?<byte>
    /** What was put into each buffer. */
    ghost var gotExtra: Option<seq<byte>>
    ghost var gotName: Option<seq<byte>>
    ghost var gotComment: Option<seq<byte>>

    ghost predicate Holds(buffer: array?<byte>, got: Option<seq<byte>>)
      reads buffer
    {
      && (buffer == null <==> got.None?)
      && (buffer != null ==> |got.value| <= buffer.Length && buffer[..|got.value|] == got.value)
    }

    /** The buffers hold what was read. The size of the one for the extra field is an unsigned int. */
    ghost predicate Buffers()
      reads this, extra, name, comment
    {
      && Holds(extra, gotExtra) && Holds(name, gotName) && Holds(comment, gotComment)
      && (extra != null ==>
            hasHead && extra.Length == extraMax < 0x1_0000_0000 && extra != name && extra != comment)
      && (name != null ==> hasHead && name.Length == nameMax && name != comment)
      && (comment != null ==> hasHead && comment.Length == commentMax)
    }

    /** A stream with or without a record; the record may lack any of its buffers. */
    constructor (wrap: Wrap, hasHead: bool, extra: array?<byte>, name: array?<byte>, comment: array?<byte>)
      requires !hasHead ==> extra == null && name == null && comment == null
      requires extra != null ==> extra.Length < 0x1_0000_0000 && extra != name && extra != comment
      requires name != null ==> name != comment
      ensures Valid() && Buffers() && nextIn == [] && Now().stage == Start && Now().wrap == wrap && held == 0
      ensures flags == length == cmf == dictId == 0
      ensures this.extra == extra && this.name == name && this.comment == comment
      ensures Now().head == BlankHead(hasHead, extra, name, comment)
    {
      this.wrap, this.hasHead, this.extra, this.name, this.comment := wrap, hasHead, extra, name, comment;
      nextIn, stage, flags, held, length, cmf, dictId := [], Start, 0, 0, 0, 0, 0;
      extraMax := if extra == null then 0 else extra.Length;
      nameMax := if name == null then 0 else name.Length;
      commentMax := if comment == null then 0 else comment.Length;
      text, time, xflags, os, extraLen, done := false, 0, 0, 0, 0, 0;
      gotExtra := if extra == null then None else Some([]);
      gotName := if name == null then None else Some([]);
      gotComment := if comment == null then None else Some([]);
    }

    ghost predicate Valid()
      reads this
    {
      && Sound(Now())
      && (stage == Name ==> length == if hasHead && gotName.Some? then |gotName.value| else 0)
      && (stage == Comment ==> length == if hasHead && gotComment.Some? then |gotComment.value| else 0)
    }

    ghost function HeadNow(): Option<Head>
      reads this
    {
      if hasHead then
        Some(Head(text, time, xflags, os, extraLen, gotExtra, extraMax, gotName, nameMax, gotComment, commentMax, done))
      else None
    }

    /** The state of the machine. The count of a text field is its length so far. */
    ghost function Now(): Parser
      reads this
    {
      Parser(stage, wrap, flags, held, if (stage.Name? || stage.Comment?) then 0 else length, cmf, dictId, HeadNow())
    }

    /** The machine is on its way to end as it should. */
    ghost predicate Leads(result: Progress)
      reads this
    {
      Feed(Settle(Now()), nextIn) == result
    }

    /** No copy can start beyond the buffer in the rest of this call. */
    ghost predicate Safe()
      reads this
    {
      nextIn == [] || !Beyond(Now())
    }

    /** nx_inflate_get_byte */
    method GetByte() returns (ok: bool, c: byte)
      modifies this`nextIn
      ensures ok <==> old(nextIn) != []
      ensures if ok then old(nextIn) == [c] + nextIn else nextIn == []
    {
      if nextIn == [] {
        return false, 0;
      }
      ok, c := true, nextIn[0];
      nextIn := nextIn[1..];
    }

    // ---------- One byte ----------

    method Magic(c: byte)
      requires (stage.Id1? || stage.Id2? || stage.Cm?)
      modifies this`stage
      ensures Now() == MagicStep(old(Now()), c)
    {
      match stage {
        case Id1 => stage := if c == 0x1f then Id2 else DataError;
        case Id2 => stage := if c == 0x8b then Cm else DataError;
        case Cm => stage := if c == 8 then Flg else DataError;
      }
    }

    method FlagsByte(c: byte)
      requires stage == Flg
      modifies this`stage, this`flags, this`text, this`time, this`held, this`length
      ensures Now() == FlagsStep(old(Now()), c)
    {
      flags := c as nat;
      if flags >= 32 {
        stage := DataError;
      } else {
        if hasHead { text, time := flags % 2 == 1, 0; }
        held, length, stage := 0, 0, Mtime;
      }
    }

    method TimeByte(c: byte)
      requires stage == Mtime && held < 4
      modifies this`stage, this`time, this`held
      ensures Now() == TimeStep(old(Now()), c)
    {
      if hasHead { time := Shifted(c as nat, held) + time; }
      held := held + 1;
      if held == 4 {
        held := 0;
        stage := if hasHead && time >= 0x8000_0000 then Abort else Xfl;
      }
    }

    method XflByte(c: byte)
      requires stage == Xfl
      modifies this`stage, this`xflags
      ensures Now() == XflStep(old(Now()), c)
    {
      if hasHead { xflags := c as nat; }
      stage := Os;
    }

    method OsByte(c: byte)
      requires stage == Os
      modifies this`stage, this`os, this`held, this`length
      ensures Now() == OsStep(old(Now()), c)
    {
      if hasHead { os := c as nat; }
      held, length, stage := 0, 0, Xlen;
    }

    method LengthByte(c: byte)
      requires stage == Xlen && held < 2
      modifies this`stage, this`extraLen, this`held, this`length
      ensures Now() == LengthStep(old(Now()), c)
    {
      length := length + Shifted(c as nat, held);
      held := held + 1;
      if held == 2 {
        if hasHead { extraLen := length; }
        held, stage := 0, Extra;
      }
    }

    method EitherByte(c: byte)
      requires stage == Start
      modifies this`stage, this`wrap, this`cmf
      ensures Now() == EitherStep(old(Now()), c)
    {
      if c == 0x1f {
        stage, wrap := Id2, Gzip;
      } else if c as nat % 16 == 8 && c as nat / 16 < 8 {
        stage, cmf, wrap := ZlibFlg, c as nat, Zlib;
      } else {
        stage := DataError;
      }
    }

    method ZlibIdByte(c: byte)
      requires stage == ZlibId1
      modifies this`stage, this`cmf
      ensures Now() == ZlibIdStep(old(Now()), c)
    {
      if c as nat % 16 != 8 || c as nat / 16 >= 8 {
        stage := DataError;
      } else {
        stage, cmf := ZlibFlg, c as nat;
      }
    }

    method ZlibFlagByte(c: byte)
      requires stage == ZlibFlg
      modifies this`stage, this`dictId, this`held
      ensures Now() == ZlibFlagStep(old(Now()), c)
    {
      if !CheckBitsFit(cmf, c) {
        stage := DataError;
      } else if c as nat / 32 % 2 == 1 {
        stage, dictId, held := DictId, 0, 0;
      } else {
        stage, held := Inflate, 0;
      }
    }

    method DictByte(c: byte)
      requires stage == DictId && held < 4
      modifies this`stage, this`dictId, this`held
      ensures Now() == DictStep(old(Now()), c)
    {
      dictId := dictId * 256 + c as nat;
      held := held + 1;
      if held == 4 {
        stage, held := Dict, 0;
      }
    }

    // ---------- Many bytes ----------

    /** The bytes go behind those that are there, if they fit. */
    method AppendExtra(bytes: seq<byte>)
      requires Valid() && Buffers() && extra != null && stage == Extra && HasExtra(flags)
      requires extraLen - length + |bytes| <= extraMax
      modifies this`gotExtra, extra
      ensures Buffers() && gotExtra == Some(old(gotExtra).value + bytes)
    {
      ghost var got := gotExtra.value;
      Write(extra, extraLen - length, bytes);
      SpliceAt(old(extra[..]), extraLen - length, bytes);
      gotExtra := Some(got + bytes);
    }

    /** How much memcpy is told to copy, as an unsigned int. */
    function CopyLength(len: nat, copy: nat): nat
      requires extraMax < 0x1_0000_0000
    {
      if len + copy > extraMax then (extraMax - len) % 0x1_0000_0000 else copy
    }

    /** More than there is to copy exactly when the copy would start beyond the buffer. */
    lemma CopyLengthIs(len: nat, copy: nat)
      requires extraMax < 0x1_0000_0000 && len < 0x1_0000 && 0 < copy < 0x1_0000
      ensures CopyLength(len, copy) > copy <==> len > extraMax
      ensures len <= extraMax ==> CopyLength(len, copy) == Min(extraMax - len, copy)
    {
    }

    /** The part of the input that fits is kept; a copy that starts beyond the buffer runs over it. */
    method KeepExtra(copy: nat) returns (ok: bool)
      requires Valid() && Buffers() && stage == Extra && HasExtra(flags) && extra != null
      requires 0 < copy <= length && copy <= |nextIn|
      modifies this`gotExtra, extra
      ensures Buffers() && (ok <==> extraLen - length <= extraMax)
      ensures if ok then gotExtra == KeepAll(old(gotExtra), extraMax, nextIn[..copy]) else gotExtra == old(gotExtra)
    {
      var len := extraLen - length;
      var n := CopyLength(len, copy);
      CopyLengthIs(len, copy);
      if n > copy {
        return false;
      }
      KeepsPrefix(gotExtra.value, extraMax, nextIn[..copy]);
      assert nextIn[..copy][..n] == nextIn[..n];
      AppendExtra(nextIn[..n]);
      ok := true;
    }

    /** The parser has seen all that was to be seen, or will after the rest of the input. */
    ghost predicate Heads(result: Progress)
      reads this
    {
      if nextIn != [] && Beyond(Now()) then result == Progress(Now().(stage := Overrun), nextIn) else Leads(result)
    }

    /** The next bytes of the input go into the buffer, if there is one. */
    method PutExtra(copy: nat) returns (ok: bool)
      requires Valid() && Buffers() && stage == Extra && HasExtra(flags) && 0 < copy <= length && copy <= |nextIn|
      modifies this`gotExtra, extra
      ensures Buffers() && (ok <==> !Beyond(old(Now()))) && (!ok ==> Valid())
      ensures Now() == if ok then WithExtra(old(Now()), nextIn[..copy]) else old(Now())
    {
      hide Sound, SoundHead;
      ok := true;
      if extra != null {
        ok := KeepExtra(copy);
      } else {
        KeepNothing(extraMax, nextIn[..copy]);
      }
    }

    method SkipExtra(copy: nat, ghost before: Parser)
      requires stage == Extra && HasExtra(flags) && copy <= length && copy <= |nextIn| && Buffers()
      requires Now() == WithExtra(before, nextIn[..copy]) && Sound(before) && (copy == 0 || !Beyond(before))
      modifies this`nextIn, this`length
      ensures Valid() && Buffers() && nextIn == old(nextIn)[copy..]
      ensures Now() == WithExtra(before, old(nextIn)[..copy]).(length := before.length - copy)
    {
      hide Sound, SoundHead, Beyond, KeepAll;
      SoundExtra(before, nextIn[..copy]);
      nextIn := nextIn[copy..];
      length := length - copy;
    }

    method RunOver()
      requires Valid() && Buffers() && stage == Extra
      modifies this`stage
      ensures Valid() && Buffers() && Now() == old(Now()).(stage := Overrun)
    {
      hide Sound, SoundHead;
      SoundOverrun(Now());
      stage := Overrun;
    }

    /** The extra field is copied as far as the input goes. */
    method CopyExtra() returns (copy: nat)
      requires Valid() && Buffers() && stage == Extra && HasExtra(flags) && length > 0
      modifies this`nextIn, this`length, this`gotExtra, this`stage, extra
      ensures Valid() && Buffers()
      ensures old(nextIn != [] && Beyond(Now())) ==>
        Now() == old(Now()).(stage := Overrun) && nextIn == old(nextIn)
      ensures !old(nextIn != [] && Beyond(Now())) ==>
        && copy == Min(old(length), |old(nextIn)|) && nextIn == old(nextIn)[copy..]
        && Now() == WithExtra(old(Now()), old(nextIn)[..copy]).(length := old(length) - copy)
    {
      hide Sound, SoundHead, Beyond, WithExtra;
      ghost var before := Now();
      copy := Min(length, |nextIn|);
      var ok := true;
      if copy > 0 {
        ok := PutExtra(copy);
      } else {
        NoBytes(before, nextIn);
      }
      if ok { SkipExtra(copy, before); } else { RunOver(); }
    }

    method ExtraStage(ghost result: Progress) returns (ok: bool)
      requires Valid() && Buffers() && Heads(result) && stage == Extra && NeedsByte(Now())
      modifies this`nextIn, this`length, this`gotExtra, this`stage, extra
      ensures Valid() && Buffers() && Leads(result) && Safe()
      ensures ok ==> |nextIn| < |old(nextIn)| || (nextIn == old(nextIn) && Rank(stage) < Rank(old(stage)))
      ensures !ok ==> nextIn == [] && NeedsByte(Now())
    {
      hide Feed, Sound, SoundHead, Step, Pass;
      ghost var before, input := Now(), nextIn;
      var copy := CopyExtra();
      if stage == Extra {
        assert input == input[..copy] + input[copy..];
        ReadExtra(before, input[..copy], input[copy..]);
      } else {
        StaysPut(Now());
        AtEnd(Now(), nextIn);
      }
      ok := stage != Extra || length == 0;
    }

    // ---------- Text fields ----------

    method StoreName(c: byte)
      requires Valid() && Buffers() && stage == Name
      modifies this`length, this`gotName, name
      ensures Valid() && Buffers() && gotName == Keep(old(gotName), nameMax, c)
    {
      if name != null && length < nameMax {
        name[length] := c;
        length := length + 1;
        gotName := Some(gotName.value + [c]);
      }
    }

    method StoreComment(c: byte)
      requires Valid() && Buffers() && stage == Comment
      modifies this`length, this`gotComment, comment
      ensures Valid() && Buffers() && gotComment == Keep(old(gotComment), commentMax, c)
    {
      if comment != null && length < commentMax {
        comment[length] := c;
        length := length + 1;
        gotComment := Some(gotComment.value + [c]);
      }
    }

    /** The bytes of the text up to its NUL, or all there are. */
    method ReadName() returns (copy: nat, c: byte)
      requires Valid() && Buffers() && stage == Name && nextIn != []
      modifies this`length, this`gotName, name
      ensures TextEnds(nextIn, copy, c) && (c != 0 ==> copy == |nextIn|)
      ensures Valid() && Buffers() && gotName == KeepAll(old(gotName), nameMax, nextIn[..copy])
    {
      hide Sound, SoundHead, KeepAll, Reader.Buffers, Reader.Holds;
      ghost var before := gotName;
      copy, c := 1, nextIn[0];
      KeepFirst(before, nameMax, nextIn);
      StoreName(c);
      while c != 0 && copy < |nextIn|
        invariant TextEnds(nextIn, copy, c)
        invariant Valid() && Buffers() && gotName == KeepAll(before, nameMax, nextIn[..copy])
        decreases |nextIn| - copy
      {
        KeepNext(before, nameMax, nextIn, copy);
        c := nextIn[copy];
        copy := copy + 1;
        StoreName(c);
      }
    }

    method TakeName() returns (ghost copy: nat, c: byte)
      requires Valid() && Buffers() && stage == Name && nextIn != []
      modifies this`nextIn, this`length, this`gotName, name
      ensures TextEnds(old(nextIn), copy, c) && nextIn == old(nextIn)[copy..] && (c != 0 ==> nextIn == [])
      ensures Valid() && Buffers() && Now() == WithName(old(Now()), old(nextIn)[..copy])
    {
      hide Sound, SoundHead;
      var n;
      n, c := ReadName();
      nextIn := nextIn[n..];
      copy := n;
    }

    method EndName()
      requires Valid() && Buffers() && stage == Name
      modifies this`length, this`stage
      ensures Valid() && Buffers() && Now() == old(Now()).(stage := Comment)
    {
      hide Sound, SoundHead;
      SoundNext(Now());
      length, stage := 0, Comment;
    }

    method NameStage(ghost result: Progress) returns (ok: bool)
      requires Valid() && Buffers() && Leads(result) && stage == Name && HasName(flags)
      modifies this`nextIn, this`length, this`stage, this`gotName, name
      ensures Valid() && Buffers() && Leads(result) && !stage.Extra?
      ensures if ok then |nextIn| < |old(nextIn)| else nextIn == [] && NeedsByte(Now())
    {
      hide Feed, Settle, Sound, SoundHead;
      if nextIn == [] {
        return false;
      }
      ghost var before, input := Now(), nextIn;
      StaysPut(before);
      ghost var copy;
      var c;
      copy, c := TakeName();
      NameGoes(before, input, copy, c);
      if c != 0 {
        StaysPut(Now());
        return false;
      }
      EndName();
      ok := true;
    }

    /** The bytes of the text up to its NUL, or all there are. */
    method ReadComment() returns (copy: nat, c: byte)
      requires Valid() && Buffers() && stage == Comment && nextIn != []
      modifies this`length, this`gotComment, comment
      ensures TextEnds(nextIn, copy, c) && (c != 0 ==> copy == |nextIn|)
      ensures Valid() && Buffers() && gotComment == KeepAll(old(gotComment), commentMax, nextIn[..copy])
    {
      hide Sound, SoundHead, KeepAll, Reader.Buffers, Reader.Holds;
      ghost var before := gotComment;
      copy, c := 1, nextIn[0];
      KeepFirst(before, commentMax, nextIn);
      StoreComment(c);
      while c != 0 && copy < |nextIn|
        invariant TextEnds(nextIn, copy, c)
        invariant Valid() && Buffers() && gotComment == KeepAll(before, commentMax, nextIn[..copy])
        decreases |nextIn| - copy
      {
        KeepNext(before, commentMax, nextIn, copy);
        c := nextIn[copy];
        copy := copy + 1;
        StoreComment(c);
      }
    }

    method TakeComment() returns (ghost copy: nat, c: byte)
      requires Valid() && Buffers() && stage == Comment && nextIn != []
      modifies this`nextIn, this`length, this`gotComment, comment
      ensures TextEnds(old(nextIn), copy, c) && nextIn == old(nextIn)[copy..] && (c != 0 ==> nextIn == [])
      ensures Valid() && Buffers() && Now() == WithComment(old(Now()), old(nextIn)[..copy])
    {
      hide Sound, SoundHead;
      var n;
      n, c := ReadComment();
      nextIn := nextIn[n..];
      copy := n;
    }

    method EndComment()
      requires Valid() && Buffers() && stage == Comment
      modifies this`length, this`stage
      ensures Valid() && Buffers() && Now() == old(Now()).(stage := Hcrc)
    {
      hide Sound, SoundHead;
      SoundNext(Now());
      length, stage := 0, Hcrc;
    }

    method CommentStage(ghost result: Progress) returns (ok: bool)
      requires Valid() && Buffers() && Leads(result) && stage == Comment && HasComment(flags)
      modifies this`nextIn, this`length, this`stage, this`gotComment, comment
      ensures Valid() && Buffers() && Leads(result) && !stage.Extra?
      ensures if ok then |nextIn| < |old(nextIn)| else nextIn == [] && NeedsByte(Now())
    {
      hide Feed, Settle, Sound, SoundHead;
      if nextIn == [] {
        return false;
      }
      ghost var before, input := Now(), nextIn;
      StaysPut(before);
      ghost var copy;
      var c;
      copy, c := TakeComment();
      CommentGoes(before, input, copy, c);
      if c != 0 {
        StaysPut(Now());
        return false;
      }
      EndComment();
      ok := true;
    }

    // ---------- The stages that may need no byte ----------

    method PassStart()
      requires stage == Start && !NeedsByte(Now())
      modifies this`stage, this`done
      ensures Now() == Pass(old(Now())) && OneByteStage(stage)
    {
      if hasHead { done := if wrap == Gzip then 0 else -1; }
      stage := if wrap == Gzip then Id1 else ZlibId1;
    }

    method PassXlen()
      requires Buffers() && stage == Xlen && !NeedsByte(Now())
      modifies this`stage, this`held, this`extra, this`gotExtra
      ensures Buffers() && Now() == Pass(old(Now()))
      ensures extra == null
    {
      extra, gotExtra := null, None;
      held, stage := 0, Extra;
    }

    method PassExtra()
      requires stage == Extra && !NeedsByte(Now())
      modifies this`stage, this`length
      ensures Now() == Pass(old(Now())) && stage == Name && length == 0
    {
      length, stage := 0, Name;
    }

    method PassName()
      requires Buffers() && stage == Name && !NeedsByte(Now())
      modifies this`stage, this`length, this`name, this`gotName
      ensures Buffers() && Now() == Pass(old(Now()))
      ensures name == null && stage == Comment && length == 0
    {
      name, gotName := null, None;
      length, stage := 0, Comment;
    }

    method PassComment()
      requires Buffers() && stage == Comment && !NeedsByte(Now())
      modifies this`stage, this`length, this`held, this`comment, this`gotComment
      ensures Buffers() && Now() == Pass(old(Now()))
      ensures comment == null
    {
      comment, gotComment := null, None;
      length, held, stage := 0, 0, Hcrc;
    }

    method PassHcrc()
      requires stage == Hcrc && !NeedsByte(Now())
      modifies this`stage, this`held, this`done
      ensures Now() == Pass(old(Now()))
    {
      if hasHead { done := 1; }
      held, stage := 0, Inflate;
    }

    // ---------- The machine ----------

    method TakeByte(c: byte)
      requires Valid() && !Stopped(Now()) && NeedsByte(Now()) && OneByteStage(stage)
      modifies this`stage, this`wrap, this`flags, this`held, this`length, this`cmf, this`dictId
      modifies this`text, this`time, this`xflags, this`os, this`extraLen
      ensures Valid() && Now() == Step(old(Now()), c)
    {
      hide SoundHead;
      SoundStep(Now(), c);
      match stage {
        case Start => EitherByte(c);
        case Id1 => Magic(c);
        case Id2 => Magic(c);
        case Cm => Magic(c);
        case Flg => FlagsByte(c);
        case Mtime => TimeByte(c);
        case Xfl => XflByte(c);
        case Os => OsByte(c);
        case Xlen => LengthByte(c);
        case ZlibId1 => ZlibIdByte(c);
        case ZlibFlg => ZlibFlagByte(c);
        case DictId => DictByte(c);
      }
    }

    predicate Waits()
      reads this
      ensures Waits() <==> NeedsByte(Now())
    {
      match stage
      case Start => wrap == Either
      case Xlen => HasExtra(flags)
      case Extra => HasExtra(flags) && length > 0
      case Name => HasName(flags)
      case Comment => HasComment(flags)
      case Hcrc => HasHcrc(flags)
      case _ => true
    }

    /** A stage of one byte. */
    method ByteStage(ghost result: Progress) returns (ok: bool)
      requires Valid() && Leads(result) && !Stopped(Now()) && NeedsByte(Now()) && OneByteStage(stage)
      modifies this`nextIn, this`stage, this`wrap, this`flags, this`held, this`length, this`cmf, this`dictId
      modifies this`text, this`time, this`xflags, this`os, this`extraLen
      ensures Valid() && Leads(result) && Safe()
      ensures if ok then |nextIn| < |old(nextIn)| else nextIn == [] && NeedsByte(Now())
    {
      hide Feed, Settle, Sound, SoundHead, Step, Pass;
      var c;
      ghost var before := Now();
      StaysPut(before);
      ok, c := GetByte();
      assert Now() == before;
      if ok {
        OneByte(before, c, nextIn);
        TakeByte(c);
        StepSafe(before, c);
      }
    }

    method PassStage()
      requires Valid() && Buffers() && !NeedsByte(Now())
      modifies this`stage, this`held, this`length, this`extra, this`name, this`comment, this`done
      modifies this`gotExtra, this`gotName, this`gotComment
      ensures Valid() && Buffers() && Now() == Pass(old(Now())) && SameBuffers()
    {
      hide Sound, SoundHead;
      SoundPass(Now());
      match stage {
        case Start => PassStart();
        case Xlen => PassXlen();
        case Extra => PassExtra();
        case Name => PassName();
        case Comment => PassComment();
        case Hcrc => PassHcrc();
      }
    }

    /** The caller's buffers are in use or given up. */
    twostate predicate SameBuffers()
      reads this
    {
      && (extra == old(extra) || extra == null)
      && (name == old(name) || name == null)
      && (comment == old(comment) || comment == null)
    }

    /** One stage that reads; false when the input has run out. */
    method ReadStage(ghost result: Progress) returns (ok: bool)
      requires Valid() && Buffers() && Heads(result) && !Stopped(Now()) && NeedsByte(Now())
      modifies this, extra, name, comment
      ensures Valid() && Buffers() && Leads(result) && Safe() && SameBuffers()
      ensures ok ==> |nextIn| < |old(nextIn)| || (nextIn == old(nextIn) && Rank(stage) < Rank(old(stage)))
      ensures !ok ==> nextIn == [] && NeedsByte(Now())
    {
      hide Feed, Settle, Sound, SoundHead, Step, Pass;
      if stage == Extra {
        ok := ExtraStage(result);
      } else if stage == Name {
        ok := NameStage(result);
      } else if stage == Comment {
        ok := CommentStage(result);
      } else {
        ok := ByteStage(result);
      }
    }

    /** One stage; false when the input has run out. */
    method Turn(ghost result: Progress) returns (ok: bool)
      requires Valid() && Buffers() && Heads(result) && !Ended()
      modifies this, extra, name, comment
      ensures Valid() && Buffers() && Leads(result) && Safe() && SameBuffers()
      ensures ok ==> |nextIn| < |old(nextIn)| || (nextIn == old(nextIn) && Rank(stage) < Rank(old(stage)))
      ensures !ok ==> nextIn == [] && NeedsByte(Now())
    {
      hide Feed, Settle, Sound, SoundHead, Step, Pass;
      if Waits() {
        ok := ReadStage(result);
      } else {
        ghost var before := Now();
        PassStage();
        PassSafe(before);
        ok := true;
      }
    }

    predicate Ended()
      reads this
      ensures Ended() <==> Stopped(Now()) && NeedsByte(Now())
    {
      (stage.Dict? || stage.Inflate? || stage.DataError? || stage.Abort? || stage.Overrun?)
      || (stage == Hcrc && HasHcrc(flags))
    }

    /**
      The header states: all the input is read, or what follows the header is left,
      exactly as for the parser that reads a byte at a time.
      */
    method Parse()
      requires Valid() && Buffers()
      modifies this, extra, name, comment
      ensures Valid() && Buffers()
      ensures Progress(Now(), nextIn) == Feed(Enter(Settle(old(Now())), old(nextIn)), old(nextIn))
      ensures NeedsByte(Now()) && SameBuffers()
    {
      hide Feed, Settle, Sound, SoundHead, Step, Pass;
      ghost var result := Feed(Enter(Settle(Now()), nextIn), nextIn);
      CallBegins(Now(), nextIn);
      var ok := true;
      while ok && !Ended()
        invariant Valid() && Buffers() && Heads(result) && SameBuffers()
        invariant !ok ==> nextIn == [] && NeedsByte(Now())
        decreases ok, |nextIn|, Rank(stage)
      {
        ok := Turn(result);
      }
      StaysPut(Now());
      AtEnd(Now(), nextIn);
    }

    /** One call of nx_inflate, with another chunk of the input. */
    method ParseChunk(chunk: seq<byte>)
      requires Valid() && Buffers()
      modifies this, extra, name, comment
      ensures Valid() && Buffers() && SameBuffers() && NeedsByte(Now())
      ensures Progress(Now(), nextIn) == FeedChunk(Settle(old(Now())), old(nextIn), chunk)
    {
      hide Feed, Settle, Sound, SoundHead, Step, Pass;
      nextIn := nextIn + chunk;
      Parse();
    }

    /** A call for each chunk. */
    method ParseChunks(chunks: seq<seq<byte>>)
      requires Valid() && Buffers() && chunks != []
      modifies this, extra, name, comment
      ensures Valid() && Buffers() && SameBuffers()
      ensures Progress(Now(), nextIn) == FeedChunks(Settle(old(Now())), old(nextIn), chunks)
    {
      hide Feed, Settle, Sound, SoundHead, Step, Pass;
      ghost var p, left := Settle(Now()), nextIn;
      for i := 0 to |chunks|
        invariant Valid() && Buffers() && SameBuffers() && (i > 0 ==> NeedsByte(Now()))
        invariant FeedChunks(Settle(Now()), nextIn, chunks[i..]) == FeedChunks(p, left, chunks)
      {
        NextChunk(Settle(Now()), nextIn, chunks, i);
        ParseChunk(chunks[i]);
        StaysPut(Now());
      }
      StaysPut(Now());
    }
  }

  /** The parser after a call with another chunk. */
  function FeedChunk(p: Parser, left: seq<byte>, chunk: seq<byte>): Progress {
    Feed(Enter(p, left + chunk), left + chunk)
  }

  lemma NextChunk(p: Parser, left: seq<byte>, chunks: seq<seq<byte>>, i: nat)
    requires i < |chunks|
    ensures var g := FeedChunk(p, left, chunks[i]);
      FeedChunks(p, left, chunks[i..]) == FeedChunks(g.parser, g.rest, chunks[i + 1..])
  {
    assert chunks[i..][1..] == chunks[i + 1..];
  }

  /** The buffer holds the text t and its NUL, as far as it reaches. */
  ghost predicate HoldsText(buffer: array<byte>, t: seq<byte>)
    reads buffer
  {
    var n := Min(buffer.Length, |t| + 1);
    buffer[..n] == (t + [0])[..n]
  }

  /** The buffer holds the start of the extra field e, as far as it reaches. */
  ghost predicate HoldsExtra(buffer: array<byte>, e: seq<byte>)
    reads buffer
  {
    var n := Min(buffer.Length, |e|);
    buffer[..n] == e[..n]
  }

  /** Some call starts within the extra field, beyond the end of the buffer. */
  ghost predicate Overruns(extra: array?<byte>, h: Header, chunks: seq<seq<byte>>) {
    extra != null && h.extra.Some?
    && CallStartsIn(chunks, 0, BEFORE_EXTRA + extra.Length, BEFORE_EXTRA + |h.extra.value|)
  }

  /**
    The header of any writer is read back through any split of the input, into the
    caller's own buffers of any size, exactly when the reader's record, if it keeps one, can
    hold the time and no call starts within the extra field beyond the end of its buffer.
    */
  method ReadBack(wrap: Wrap, hasHead: bool, extra: array?<byte>, name: array?<byte>, comment: array?<byte>,
                  chunks: seq<seq<byte>>, ghost h: Header, ghost rest: seq<byte>)
    returns (r: Reader)
    requires wrap != Zlib && (!hasHead ==> extra == null && name == null && comment == null)
    requires extra != null ==> extra.Length < 0x1_0000_0000 && extra != name && extra != comment
    requires name != null ==> name != comment
    requires Writable(h) && Joined(chunks) == HeaderBytes(h) + rest
    modifies extra, name, comment
    ensures r.stage == Inflate <==> (!hasHead || TimeOf(h) < 0x8000_0000) && !Overruns(extra, h, chunks)
    ensures r.stage == Overrun <==> TimeOf(h) < 0x8000_0000 && Overruns(extra, h, chunks)
    ensures r.stage == Inflate ==> r.nextIn == rest && (hasHead ==> FixedFields(r, h))
    ensures r.stage == Inflate && extra != null ==>
      if h.extra.None? then r.extra == null
      else r.extraLen == |h.extra.value| && HoldsExtra(extra, h.extra.value)
    ensures r.stage == Inflate && name != null ==>
      if h.name.None? then r.name == null else HoldsText(name, h.name.value)
    ensures r.stage == Inflate && comment != null ==>
      if h.comment.None? then r.comment == null else HoldsText(comment, h.comment.value)
  {
    hide Feed, FeedChunks, Settle, Sound, SoundHead, Step, Pass, HeaderBytes, Joined, CallStartsIn, PastHeader;
    hide Recovered, RecoveredExtra, HoldsText, HoldsExtra, FixedFields, Reader.Buffers;
    r := new Reader(wrap, hasHead, extra, name, comment);
    ghost var p := r.Now();
    HasChunks(h, rest, chunks);
    HeaderRoundTrip(p, h, rest, chunks);
    r.ParseChunks(chunks);
    if PastHeader(Progress(r.Now(), r.nextIn), p, h, rest) { Outcome(Progress(r.Now(), r.nextIn), p, h, rest); }
    if r.stage == Inflate && hasHead {
      FieldsAreHeld(r, p, h, rest);
      BuffersAreHeld(r, p, h, extra, name, comment);
    }
  }

  lemma Outcome(g: Progress, p: Parser, h: Header, rest: seq<byte>)
    requires PastHeader(g, p, h, rest)
    ensures g.parser.stage == Inflate && g.rest == rest
  {
  }

  lemma BuffersAreHeld(r: Reader, p: Parser, h: Header, extra: array?<byte>, name: array?<byte>, comment: array?<byte>)
    requires r.Buffers() && p.head == BlankHead(true, extra, name, comment)
    requires r.gotExtra == RecoveredExtra(p.head.value.extra, p.head.value.extraMax, h.extra)
    requires r.gotName == Recovered(p.head.value.name, p.head.value.nameMax, h.name)
    requires r.gotComment == Recovered(p.head.value.comment, p.head.value.commentMax, h.comment)
    requires (r.extra == extra || r.extra == null) && (r.name == name || r.name == null)
    requires r.comment == comment || r.comment == null
    ensures extra != null ==> if h.extra.None? then r.extra == null else HoldsExtra(extra, h.extra.value)
    ensures name != null ==> if h.name.None? then r.name == null else HoldsText(name, h.name.value)
    ensures comment != null ==> if h.comment.None? then r.comment == null else HoldsText(comment, h.comment.value)
  {
    hide Recovered, RecoveredExtra, HoldsText, HoldsExtra;
    if extra != null { ExtraIsHeld(r, extra, h.extra); }
    if name != null { TextIsHeld(r, r.name, name, r.gotName, h.name); }
    if comment != null { TextIsHeld(r, r.comment, comment, r.gotComment, h.comment); }
  }

  /** From what was put into a buffer to the caller's buffer. */
  lemma ExtraIsHeld(r: Reader, buffer: array<byte>, e: Option<seq<byte>>)
    requires r.Holds(r.extra, r.gotExtra) && r.gotExtra == RecoveredExtra(Some([]), buffer.Length, e)
    requires r.extra == buffer || r.extra == null
    ensures if e.None? then r.extra == null else HoldsExtra(buffer, e.value)
  {
  }

  lemma TextIsHeld(r: Reader, now: array?<byte>, buffer: array<byte>, got: Option<seq<byte>>, t: Option<seq<byte>>)
    requires r.Holds(now, got) && got == Recovered(Some([]), buffer.Length, t)
    requires now == buffer || now == null
    ensures if t.None? then now == null else HoldsText(buffer, t.value)
  {
  }

  lemma HasChunks(h: Header, rest: seq<byte>, chunks: seq<seq<byte>>)
    requires Joined(chunks) == HeaderBytes(h) + rest
    ensures chunks != []
  {
  }

  ghost predicate FixedFields(r: Reader, h: Header)
    reads r
  {
    r.text == h.text && r.time == TimeOf(h) && r.os == h.os % 256 && r.xflags == 4 && r.done == 1
  }

  /** From the parser's record to the caller's. */
  lemma FieldsAreHeld(r: Reader, p: Parser, h: Header, rest: seq<byte>)
    requires r.hasHead && p.head.Some? && PastHeader(Progress(r.Now(), r.nextIn), p, h, rest)
    ensures FixedFields(r, h) && (h.extra.Some? ==> r.extraLen == |h.extra.value|)
    ensures r.gotExtra == RecoveredExtra(p.head.value.extra, p.head.value.extraMax, h.extra)
    ensures r.gotName == Recovered(p.head.value.name, p.head.value.nameMax, h.name)
    ensures r.gotComment == Recovered(p.head.value.comment, p.head.value.commentMax, h.comment)
  {
  }
}
