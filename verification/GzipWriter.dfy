/** nx_deflate_add_header of lib/nx_deflate.c: the header goes to the caller's buffer, then to fifo_out. */
module GzipWriter {
  import opened Sequences
  import opened Wrappers
  import opened Buffers
  import opened GzipHeader

  /** gzip_header_blank */
  const BLANK := Header(false, 0, 3, None, None, None)

  class Writer {
    var nextOut: array<byte>
    var outPos: nat
    var fifoOut: array<byte>
    var curOut: nat
    var usedOut: nat
    var headerLen: nat

    ghost predicate Valid()
      reads this, nextOut, fifoOut
    {
      && nextOut != fifoOut && outPos <= nextOut.Length && curOut + usedOut <= fifoOut.Length
      && (usedOut > 0 ==> outPos == nextOut.Length)
    }

    constructor (nextOut: array<byte>, fifoOut: array<byte>)
      requires nextOut != fifoOut
      ensures Valid() && Emitted() == [] && Room() == nextOut.Length + fifoOut.Length && headerLen == 0
    {
      this.nextOut, this.fifoOut := nextOut, fifoOut;
      outPos, curOut, usedOut, headerLen := 0, 0, 0, 0;
    }

    /** What was put so far, in order. */
    ghost function Emitted(): seq<byte>
      reads this, nextOut, fifoOut
      requires Valid()
    {
      nextOut[..outPos] + fifoOut[curOut..curOut + usedOut]
    }

    ghost function Room(): nat
      reads this, nextOut, fifoOut
      requires Valid()
    {
      nextOut.Length - outPos + (fifoOut.Length - curOut - usedOut)
    }

    /** nx_put_byte */
    method PutByte(b: byte)
      requires Valid() && Room() > 0
      modifies this`outPos, this`usedOut, nextOut, fifoOut
      ensures Valid() && Emitted() == old(Emitted()) + [b] && Room() == old(Room()) - 1
    {
      ghost var direct, held := nextOut[..outPos], fifoOut[curOut..curOut + usedOut];
      if nextOut.Length - outPos > 0 {
        nextOut[outPos] := b;
        outPos := outPos + 1;
        assert nextOut[..outPos] == direct + [b];
        assert held == [];
      } else {
        fifoOut[curOut + usedOut] := b;
        usedOut := usedOut + 1;
        assert fifoOut[curOut..curOut + usedOut] == held + [b];
        assert nextOut[..outPos] == direct;
        assert direct + (held + [b]) == (direct + held) + [b];
      }
    }

    method PutBytes(bs: seq<byte>)
      requires Valid() && Room() >= |bs|
      modifies this`outPos, this`usedOut, nextOut, fifoOut
      ensures Valid() && Emitted() == old(Emitted()) + bs && Room() == old(Room()) - |bs|
    {
      ghost var before := Emitted();
      assert before + bs[..0] == before;
      for j := 0 to |bs|
        invariant Valid() && Room() == old(Room()) - j && Emitted() == before + bs[..j]
      {
        PutByte(bs[j]);
        assert before + bs[..j + 1] == (before + bs[..j]) + [bs[j]];
      }
      assert bs[..|bs|] == bs;
    }

    /** A string of the caller, with the NUL that ends it. */
    method PutString(t: seq<byte>)
      requires Valid() && NoNul(Some(t)) && Room() >= |t| + 1
      modifies this`outPos, this`usedOut, this`headerLen, nextOut, fifoOut
      ensures Valid() && Emitted() == old(Emitted()) + (t + [0]) && Room() == old(Room()) - (|t| + 1)
      ensures headerLen == old(headerLen) + |t| + 1
    {
      ghost var before := Emitted();
      var str := t + [0];
      var j := 0;
      var val: byte := 1;
      assert before + str[..0] == before;
      while val != 0
        invariant 0 <= j <= |str| && Valid() && Room() == old(Room()) - j && Emitted() == before + str[..j]
        invariant headerLen == old(headerLen) + j
        invariant val == 0 <==> j == |str|
        decreases |str| - j
      {
        val := str[j];
        PutByte(val);
        assert before + str[..j + 1] == (before + str[..j]) + [str[j]];
        j := j + 1;
        headerLen := headerLen + 1;
      }
      assert str[..j] == str;
    }

    method PutFixed(h: Header)
      requires Valid() && Room() >= 10
      modifies this`outPos, this`usedOut, this`headerLen, nextOut, fifoOut
      ensures Valid() && Emitted() == old(Emitted()) + FixedPart(h) && Room() == old(Room()) - 10
      ensures headerLen == old(headerLen) + 10
    {
      FixedInThree(Emitted(), h);
      PutBytes([0x1f, 0x8b, 8, FlagByte(h) as byte]);
      PutBytes([ByteOf(h.time, 0), ByteOf(h.time, 1), ByteOf(h.time, 2), ByteOf(h.time, 3)]);
      PutBytes([4, ByteOf(h.os, 0)]);
      headerLen := headerLen + 10;
    }

    method PutExtra(e: Option<seq<byte>>)
      requires Valid() && (e.Some? ==> |e.value| < 0x1_0000) && Room() >= |ExtraPart(e)|
      modifies this`outPos, this`usedOut, this`headerLen, nextOut, fifoOut
      ensures Valid() && Emitted() == old(Emitted()) + ExtraPart(e) && Room() == old(Room()) - |ExtraPart(e)|
      ensures headerLen == old(headerLen) + |ExtraPart(e)|
    {
      hide ByteOf;
      if e.Some? {
        var n := |e.value|;
        Assoc(Emitted(), [ByteOf(n, 0), ByteOf(n, 1)], e.value);
        PutBytes([ByteOf(n, 0), ByteOf(n, 1)]);
        PutBytes(e.value);
        headerLen := headerLen + 2 + n;
      } else {
        assert Emitted() + [] == Emitted();
      }
    }

    method PutText(t: Option<seq<byte>>)
      requires Valid() && NoNul(t) && Room() >= |TextPart(t)|
      modifies this`outPos, this`usedOut, this`headerLen, nextOut, fifoOut
      ensures Valid() && Emitted() == old(Emitted()) + TextPart(t) && Room() == old(Room()) - |TextPart(t)|
      ensures headerLen == old(headerLen) + |TextPart(t)|
    {
      if t.Some? {
        PutString(t.value);
      } else {
        assert Emitted() + [] == Emitted();
      }
    }

    method PutOptional(h: Header)
      requires Valid() && Writable(h) && Room() >= |ExtraPart(h.extra)| + |TextPart(h.name)| + |TextPart(h.comment)|
      modifies this`outPos, this`usedOut, this`headerLen, nextOut, fifoOut
      ensures Valid() && Emitted() == old(Emitted()) + ExtraPart(h.extra) + TextPart(h.name) + TextPart(h.comment)
      ensures headerLen == old(headerLen) + |ExtraPart(h.extra)| + |TextPart(h.name)| + |TextPart(h.comment)|
    {
      PutExtra(h.extra);
      PutText(h.name);
      PutText(h.comment);
    }

    method AddBlank()
      requires Valid() && Room() >= |HeaderBytes(BLANK)|
      modifies this`outPos, this`usedOut, this`headerLen, nextOut, fifoOut
      ensures Valid() && Emitted() == old(Emitted()) + HeaderBytes(BLANK) && headerLen == |HeaderBytes(BLANK)|
    {
      hide Writer.Room, HeaderBytes;
      BlankBytes();
      PutBytes([0x1f, 0x8b, 8, 0, 0, 0, 0, 0, 4, 3]);
      headerLen := 10;
    }

    method AddGiven(h: Header)
      requires Valid() && Writable(h) && Room() >= |HeaderBytes(h)| && headerLen == 0
      modifies this`outPos, this`usedOut, this`headerLen, nextOut, fifoOut
      ensures Valid() && Emitted() == old(Emitted()) + HeaderBytes(h) && headerLen == |HeaderBytes(h)|
    {
      hide ExtraPart, TextPart, FlagByte, Writer.Emitted, Writer.Room, Writable;
      ghost var before := Emitted();
      PutFixed(h);
      PutOptional(h);
      Regroup(before, FixedPart(h), ExtraPart(h.extra), TextPart(h.name), TextPart(h.comment));
    }

    /** The gzip header of nx_deflate_add_header; without one from the caller, a blank one. */
    method AddHeader(gzhead: Option<Header>)
      requires Valid() && (gzhead.Some? ==> Writable(gzhead.value))
      requires Room() >= |HeaderBytes(if gzhead.Some? then gzhead.value else BLANK)|
      modifies this`outPos, this`usedOut, this`headerLen, nextOut, fifoOut
      ensures var h := if gzhead.Some? then gzhead.value else BLANK;
        Valid() && Emitted() == old(Emitted()) + HeaderBytes(h) && headerLen == |HeaderBytes(h)|
    {
      hide HeaderBytes, Writable;
      headerLen := 0;
      if gzhead.None? {
        AddBlank();
      } else {
        AddGiven(gzhead.value);
      }
    }
  }

  lemma FixedInThree(before: seq<byte>, h: Header)
    ensures var a := [0x1f, 0x8b, 8, FlagByte(h) as byte];
      var b := [ByteOf(h.time, 0), ByteOf(h.time, 1), ByteOf(h.time, 2), ByteOf(h.time, 3)];
      ((before + a) + b) + [4, ByteOf(h.os, 0)] == before + FixedPart(h)
  {
    var a: seq<byte> := [0x1f, 0x8b, 8, FlagByte(h) as byte];
    var b, c := [ByteOf(h.time, 0), ByteOf(h.time, 1), ByteOf(h.time, 2), ByteOf(h.time, 3)], [4, ByteOf(h.os, 0)];
    assert FixedPart(h) == (a + b) + c;
    Assoc(before, a, b);
    Assoc(before, a + b, c);
  }

  lemma BlankBytes()
    ensures HeaderBytes(BLANK) == [0x1f, 0x8b, 8, 0, 0, 0, 0, 0, 4, 3]
  {
  }

  lemma Regroup(a: seq<byte>, f: seq<byte>, e: seq<byte>, n: seq<byte>, c: seq<byte>)
    ensures a + f + e + n + c == a + (f + (e + (n + c)))
  {
    Assoc(a + f + e, n, c);
    Assoc(a + f, e, n + c);
    Assoc(a, f, e + (n + c));
  }
}
