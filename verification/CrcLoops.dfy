/**
  The loops of lib/nx_crc.c over a buffer: crc32_little, crc32_big and the plain
  byte loop of generic_crc32 all compute the bit-at-a-time CRC.
  */
module CrcLoops {
  import opened LinearRegister
  import opened Crc
  import opened CrcTables

  /** The register after the bytes bs. */
  function Fed(c: bv32, bs: seq<octet>): bv32 {
    Feed(R(), 8, c, Words(bs))
  }

  /** The byte at i, if there is one, has an aligned address. */
  predicate Aligned(buf: seq<octet>, addr: nat, i: nat) {
    i >= |buf| || (addr + i) % 4 == 0
  }

  /** From position i with c in the register, the rest of buf gives the result. */
  ghost predicate Rest(c: bv32, buf: seq<octet>, i: nat, result: bv32) {
    i <= |buf| && Fed(c, buf[i..]) == result
  }

  lemma Within(c: bv32, buf: seq<octet>, i: nat, result: bv32)
    requires Rest(c, buf, i, result)
    ensures i <= |buf|
  {
  }

  lemma FedFirst(c: bv32, buf: seq<octet>, i: nat)
    requires i < |buf|
    ensures Fed(c, buf[i..]) == Fed(Zeros(R(), 8, Add(c, buf[i] as bv32)), buf[i + 1..])
  {
    assert buf[i..][1..] == buf[i + 1..];
  }

  lemma WordsOfFour(b0: octet, b1: octet, b2: octet, b3: octet)
    ensures Words([b0, b1, b2, b3]) == [b0 as bv32, b1 as bv32, b2 as bv32, b3 as bv32]
  {
  }

  lemma FedBoth(c: bv32, a: seq<octet>, b: seq<octet>)
    ensures Fed(c, a + b) == Fed(Fed(c, a), b)
  {
    WordsConcat(a, b);
    FeedConcat(R(), 8, c, Words(a), Words(b));
  }

  function LoadAt(buf: seq<octet>, i: nat): bv32
    requires i + 4 <= |buf|
  {
    LoadLittle(buf[i], buf[i + 1], buf[i + 2], buf[i + 3])
  }

  lemma FedFour(c: bv32, buf: seq<octet>, i: nat)
    requires i + 4 <= |buf|
    ensures Fed(c, buf[i..]) == Fed(Zeros(R(), 32, Add(c, LoadAt(buf, i))), buf[i + 4..])
  {
    FedBoth(c, [buf[i], buf[i + 1], buf[i + 2], buf[i + 3]], buf[i + 4..]);
    assert buf[i..] == [buf[i], buf[i + 1], buf[i + 2], buf[i + 3]] + buf[i + 4..];
    WordsOfFour(buf[i], buf[i + 1], buf[i + 2], buf[i + 3]);
    FeedWord(c, buf[i], buf[i + 1], buf[i + 2], buf[i + 3]);
  }

  function Top(v: bv32): (i: nat)
    ensures i < 256 && i as bv32 == Byte3(v)
  {
    (v >> 24) as nat
  }

  lemma ByteBelow(c: bv32, b: bv32)
    requires b & 0xff == b
    ensures (c ^ b) >> 8 == c >> 8
  {
  }

  lemma ByteStepAfter(c: bv32, b: bv32)
    requires b & 0xff == b
    ensures Zeros(R(), 8, Add(c, b)) == Add(Zeros(R(), 8, (c ^ b) & 0xff), c >> 8)
  {
    ByteBelow(c, b);
    StepOf(c ^ b, c >> 8);
  }

  lemma StepOf(v: bv32, h: bv32)
    requires v >> 8 == h
    ensures Zeros(R(), 8, v) == Add(Zeros(R(), 8, v & 0xff), h)
  {
    ByteStep(v);
  }

  // ---------- Little-endian ----------

  method DoLit1(t: array2<bv32>, c: bv32, b: bv32) returns (d: bv32)
    requires Tables(t) && b & 0xff == b
    ensures d == Zeros(R(), 8, Add(c, b))
  {
    ByteStepAfter(c, b);
    var n := Index(c ^ b);
    var x := t[0, n];
    d := x ^ (c >> 8);
  }

  lemma FromLeft(a: bv32, b: bv32, c: bv32, d: bv32)
    ensures ((a ^ b) ^ c) ^ d == Add(a, Add(b, Add(c, d)))
  {
  }

  method DoLit4(t: array2<bv32>, c: bv32, w: bv32) returns (d: bv32)
    requires Tables(t)
    ensures d == Zeros(R(), 32, Add(c, w))
  {
    hide Zeros, Index, Top;
    var v := c ^ w;
    var x3, x2, x1, x0 := t[3, Index(v)], t[2, Index(v >> 8)], t[1, Index(v >> 16)], t[0, Top(v)];
    d := x3 ^ x2 ^ x1 ^ x0;
    FromLeft(x3, x2, x1, x0);
    WordStep(v);
  }

  method LittleByte(t: array2<bv32>, c: bv32, buf: seq<octet>, i: nat, ghost result: bv32) returns (d: bv32)
    requires Tables(t) && i < |buf| && Rest(c, buf, i, result)
    ensures Rest(d, buf, i + 1, result)
  {
    IsByte(buf[i]);
    d := DoLit1(t, c, buf[i] as bv32);
    FedFirst(c, buf, i);
  }

  /** A word is read at an aligned address. */
  method LittleWord(t: array2<bv32>, c: bv32, buf: seq<octet>, ghost addr: nat, i: nat, ghost result: bv32)
    returns (d: bv32)
    requires Tables(t) && i + 4 <= |buf| && (addr + i) % 4 == 0 && Rest(c, buf, i, result)
    ensures Rest(d, buf, i + 4, result)
  {
    d := DoLit4(t, c, LoadAt(buf, i));
    FedFour(c, buf, i);
  }

  /** A block of 32 bytes. */
  method LittleEight(t: array2<bv32>, c0: bv32, buf: seq<octet>, ghost addr: nat, i: nat, ghost result: bv32)
    returns (c: bv32)
    requires Tables(t) && i + 32 <= |buf| && Rest(c0, buf, i, result) && (addr + i) % 4 == 0
    ensures Rest(c, buf, i + 32, result)
  {
    hide Rest, Tables;
    c := c0;
    for k := 0 to 8
      invariant Rest(c, buf, i + 4 * k, result)
    {
      c := LittleWord(t, c, buf, addr, i + 4 * k, result);
    }
  }

  method LittleBlocks(t: array2<bv32>, c0: bv32, buf: seq<octet>, ghost addr: nat, i0: nat, ghost result: bv32)
    returns (c: bv32, i: nat)
    requires Tables(t) && Rest(c0, buf, i0, result) && Aligned(buf, addr, i0)
    ensures Rest(c, buf, i, result) && Aligned(buf, addr, i) && |buf| - i < 32
  {
    Within(c0, buf, i0, result);
    hide Rest, Tables;
    c, i := c0, i0;
    while |buf| - i >= 32
      invariant i <= |buf| && Rest(c, buf, i, result) && Aligned(buf, addr, i)
    {
      c := LittleEight(t, c, buf, addr, i, result);
      i := i + 32;
    }
  }

  lemma NotIsXor(c: bv32)
    ensures !c == c ^ ONES
  {
  }

  lemma Starts(crc: bv32, buf: seq<octet>)
    ensures Rest(!crc, buf, 0, Fed(!crc, buf))
  {
    assert buf[0..] == buf;
  }

  lemma CrcFromIs(crc: bv32, buf: seq<octet>)
    ensures CrcFrom(crc, buf) == Add(Fed(Add(crc, ONES), buf), ONES)
  {
  }

  lemma Ends(crc: bv32, c: bv32, buf: seq<octet>)
    requires Rest(c, buf, |buf|, Fed(!crc, buf))
    ensures !c == CrcFrom(crc, buf)
  {
    NotIsXor(crc);
    NotIsXor(c);
    CrcFromIs(crc, buf);
    FedNothing(c, buf, |buf|);
  }

  lemma FedNothing(c: bv32, buf: seq<octet>, i: nat)
    requires i == |buf|
    ensures Fed(c, buf[i..]) == c
  {
  }

  /** Bytes up to an aligned address. */
  method LittleAlign(t: array2<bv32>, c0: bv32, buf: seq<octet>, addr: nat, ghost result: bv32)
    returns (c: bv32, i: nat)
    requires Tables(t) && Rest(c0, buf, 0, result)
    ensures Rest(c, buf, i, result) && Aligned(buf, addr, i)
  {
    c, i := c0, 0;
    while i < |buf| && (addr + i) % 4 != 0
      invariant Rest(c, buf, i, result)
    {
      c := LittleByte(t, c, buf, i, result);
      i := i + 1;
    }
  }

  method LittleWords(t: array2<bv32>, c0: bv32, buf: seq<octet>, ghost addr: nat, i0: nat, ghost result: bv32)
    returns (c: bv32, i: nat)
    requires Tables(t) && Rest(c0, buf, i0, result) && Aligned(buf, addr, i0)
    ensures Rest(c, buf, i, result) && Aligned(buf, addr, i) && |buf| - i < 4
  {
    c, i := c0, i0;
    while |buf| - i >= 4
      invariant Rest(c, buf, i, result) && Aligned(buf, addr, i)
    {
      c := LittleWord(t, c, buf, addr, i, result);
      i := i + 4;
    }
  }

  method LittleBytes(t: array2<bv32>, c0: bv32, buf: seq<octet>, i0: nat, ghost result: bv32) returns (c: bv32)
    requires Tables(t) && Rest(c0, buf, i0, result)
    ensures Rest(c, buf, |buf|, result)
  {
    c := c0;
    for i := i0 to |buf|
      invariant Rest(c, buf, i, result)
    {
      c := LittleByte(t, c, buf, i, result);
    }
  }

  /** addr is the address of buf: the words must be aligned. */
  method Crc32Little(t: array2<bv32>, crc: bv32, buf: seq<octet>, addr: nat) returns (r: bv32)
    requires Tables(t)
    ensures r == CrcFrom(crc, buf)
  {
    var c, i := !crc, 0;
    ghost var result := Fed(c, buf);
    Starts(crc, buf);
    c, i := LittleAlign(t, c, buf, addr, result);
    c, i := LittleBlocks(t, c, buf, addr, i, result);
    c, i := LittleWords(t, c, buf, addr, i, result);
    c := LittleBytes(t, c, buf, i, result);
    Ends(crc, c, buf);
    r := !c;
  }

  // ---------- Big-endian: the register is swapped ----------

  lemma SwapXor(a: bv32, b: bv32)
    ensures Swap(a) ^ Swap(b) == Swap(a ^ b)
  {
  }

  lemma SwapSwap(a: bv32)
    ensures Swap(Swap(a)) == a
  {
  }

  lemma SwapNot(a: bv32)
    ensures !Swap(a) == Swap(!a)
  {
  }

  lemma SwapBytes(a: bv32)
    ensures Swap(a) >> 24 == a & 0xff && (Swap(a) >> 16) & 0xff == Byte1(a)
    ensures (Swap(a) >> 8) & 0xff == Byte2(a) && Swap(a) & 0xff == Byte3(a)
  {
  }

  lemma LoadBigIsSwapped(b0: octet, b1: octet, b2: octet, b3: octet)
    ensures LoadBig(b0, b1, b2, b3) == Swap(LoadLittle(b0, b1, b2, b3))
  {
  }

  lemma LowOfXor(c: bv32, b: bv32)
    requires b & 0xff == b
    ensures (c ^ b) & 0xff == (c & 0xff) ^ b
    ensures ((c & 0xff) ^ b) & 0xff == (c & 0xff) ^ b
  {
  }

  method BigIndex(s: bv32, b: bv32, ghost c: bv32) returns (n: nat)
    requires s == Swap(c) && b & 0xff == b
    ensures n < 256 && n as bv32 == (c ^ b) & 0xff
  {
    n := Index((s >> 24) ^ b);
    SwapBytes(c);
    LowOfXor(c, b);
  }

  method DoBig1(t: array2<bv32>, s: bv32, b: bv32, ghost c: bv32) returns (d: bv32)
    requires Tables(t) && s == Swap(c) && b & 0xff == b
    ensures d == Swap(Zeros(R(), 8, Add(c, b)))
  {
    var n := BigIndex(s, b, c);
    var y := t[4, n];
    BigEntry(t, n);
    ghost var m := n as bv32;
    BigByteStep(c, b, m, s, y);
    d := y ^ (s << 8);
  }

  lemma BigByteStep(c: bv32, b: bv32, n: bv32, s: bv32, y: bv32)
    requires b & 0xff == b && n == (c ^ b) & 0xff && s == Swap(c) && y == Swap(Zeros(R(), 8, n))
    ensures y ^ (s << 8) == Swap(Zeros(R(), 8, Add(c, b)))
  {
    var x := Zeros(R(), 8, n);
    StepAt(c, b, n);
    SwapOfStep(x, c);
  }

  lemma SwapOfStep(x: bv32, c: bv32)
    ensures Swap(x) ^ (Swap(c) << 8) == Swap(x ^ (c >> 8))
  {
  }

  lemma StepAt(c: bv32, b: bv32, n: bv32)
    requires b & 0xff == b && n == (c ^ b) & 0xff
    ensures Zeros(R(), 8, Add(c, b)) == Add(Zeros(R(), 8, n), c >> 8)
  {
    ByteStepAfter(c, b);
  }

  lemma BigEntry(t: array2<bv32>, n: nat)
    requires Tables(t) && n < 256
    ensures t[4, n] == Swap(Zeros(R(), 8, n as bv32))
  {
    assert t[0 + 4, n] == Swap(t[0, n]);
  }

  lemma SwapFour(a: bv32, b: bv32, c: bv32, d: bv32)
    ensures ((Swap(a) ^ Swap(b)) ^ Swap(c)) ^ Swap(d) == Swap(((a ^ b) ^ c) ^ d)
  {
    SwapXor(a, b);
    SwapXor(a ^ b, c);
    SwapXor((a ^ b) ^ c, d);
  }

  method DoBig4(t: array2<bv32>, s: bv32, w: bv32, ghost c: bv32, ghost x: bv32) returns (d: bv32)
    requires Tables(t) && s == Swap(c) && w == Swap(x)
    ensures d == Swap(Zeros(R(), 32, Add(c, x)))
  {
    var u := s ^ w;
    ghost var v := c ^ x;
    SwapXor(c, x);
    SwapBytes(v);
    var n0, n1, n2, n3 := Index(u), Index(u >> 8), Index(u >> 16), Top(u);
    var y0, y1, y2, y3 := t[4, n0], t[5, n1], t[6, n2], t[7, n3];
    d := y0 ^ y1 ^ y2 ^ y3;
    BigEntries(t, v, n0, n1, n2, n3);
    BigSum(v, y0, y1, y2, y3);
  }

  /** The swapped tables, in the order of the bytes of the swapped word. */
  lemma BigEntries(t: array2<bv32>, v: bv32, n0: nat, n1: nat, n2: nat, n3: nat)
    requires Tables(t) && n0 < 256 && n1 < 256 && n2 < 256 && n3 < 256
    requires n0 as bv32 == Byte3(v) && n1 as bv32 == Byte2(v) && n2 as bv32 == Byte1(v) && n3 as bv32 == v & 0xff
    ensures t[4, n0] == Swap(Zeros(R(), 8, Byte3(v))) && t[5, n1] == Swap(Zeros(R(), 16, Byte2(v)))
    ensures t[6, n2] == Swap(Zeros(R(), 24, Byte1(v))) && t[7, n3] == Swap(Zeros(R(), 32, v & 0xff))
  {
    assert t[0 + 4, n0] == Swap(t[0, n0]) && t[1 + 4, n1] == Swap(t[1, n1]);
    assert t[2 + 4, n2] == Swap(t[2, n2]) && t[3 + 4, n3] == Swap(t[3, n3]);
  }

  lemma Reordered(a: bv32, b: bv32, c: bv32, d: bv32)
    ensures ((a ^ b) ^ c) ^ d == Add(d, Add(c, Add(b, a)))
  {
  }

  lemma BigSumFour(a: bv32, b: bv32, c: bv32, d: bv32, y0: bv32, y1: bv32, y2: bv32, y3: bv32, r: bv32)
    requires y0 == Swap(a) && y1 == Swap(b) && y2 == Swap(c) && y3 == Swap(d)
    requires r == Add(d, Add(c, Add(b, a)))
    ensures ((y0 ^ y1) ^ y2) ^ y3 == Swap(r)
  {
    SwapFour(a, b, c, d);
    Reordered(a, b, c, d);
  }

  lemma BigSum(v: bv32, y0: bv32, y1: bv32, y2: bv32, y3: bv32)
    requires y0 == Swap(Zeros(R(), 8, Byte3(v))) && y1 == Swap(Zeros(R(), 16, Byte2(v)))
    requires y2 == Swap(Zeros(R(), 24, Byte1(v))) && y3 == Swap(Zeros(R(), 32, v & 0xff))
    ensures ((y0 ^ y1) ^ y2) ^ y3 == Swap(Zeros(R(), 32, v))
  {
    WordStep(v);
    BigSumFour(Zeros(R(), 8, Byte3(v)), Zeros(R(), 16, Byte2(v)), Zeros(R(), 24, Byte1(v)), Zeros(R(), 32, v & 0xff),
               y0, y1, y2, y3, Zeros(R(), 32, v));
  }

  method BigByte(t: array2<bv32>, s: bv32, buf: seq<octet>, i: nat, ghost result: bv32) returns (d: bv32)
    requires Tables(t) && i < |buf| && Rest(Swap(s), buf, i, result)
    ensures Rest(Swap(d), buf, i + 1, result)
  {
    ghost var c := Swap(s);
    SwapSwap(s);
    IsByte(buf[i]);
    d := DoBig1(t, s, buf[i] as bv32, c);
    SwapSwap(Zeros(R(), 8, Add(c, buf[i] as bv32)));
    FedFirst(c, buf, i);
  }

  /** A word is read at an aligned address. */
  method BigWord(t: array2<bv32>, s: bv32, buf: seq<octet>, ghost addr: nat, i: nat, ghost result: bv32)
    returns (d: bv32)
    requires Tables(t) && i + 4 <= |buf| && (addr + i) % 4 == 0 && Rest(Swap(s), buf, i, result)
    ensures Rest(Swap(d), buf, i + 4, result)
  {
    ghost var c, x := Swap(s), LoadLittle(buf[i], buf[i + 1], buf[i + 2], buf[i + 3]);
    SwapSwap(s);
    LoadBigIsSwapped(buf[i], buf[i + 1], buf[i + 2], buf[i + 3]);
    d := DoBig4(t, s, LoadBig(buf[i], buf[i + 1], buf[i + 2], buf[i + 3]), c, x);
    SwapSwap(Zeros(R(), 32, Add(c, x)));
    FedFour(c, buf, i);
  }

  method BigEight(t: array2<bv32>, c0: bv32, buf: seq<octet>, ghost addr: nat, i: nat, ghost result: bv32)
    returns (c: bv32)
    requires Tables(t) && i + 32 <= |buf| && Rest(Swap(c0), buf, i, result) && (addr + i) % 4 == 0
    ensures Rest(Swap(c), buf, i + 32, result)
  {
    hide Swap, Rest, Tables;
    c := c0;
    for k := 0 to 8
      invariant Rest(Swap(c), buf, i + 4 * k, result)
    {
      c := BigWord(t, c, buf, addr, i + 4 * k, result);
    }
  }

  method BigBlocks(t: array2<bv32>, c0: bv32, buf: seq<octet>, ghost addr: nat, i0: nat, ghost result: bv32)
    returns (c: bv32, i: nat)
    requires Tables(t) && Rest(Swap(c0), buf, i0, result) && Aligned(buf, addr, i0)
    ensures Rest(Swap(c), buf, i, result) && Aligned(buf, addr, i) && |buf| - i < 32
  {
    Within(Swap(c0), buf, i0, result);
    hide Swap, Rest, Tables;
    c, i := c0, i0;
    while |buf| - i >= 32
      invariant i <= |buf| && Rest(Swap(c), buf, i, result) && Aligned(buf, addr, i)
    {
      c := BigEight(t, c, buf, addr, i, result);
      i := i + 32;
    }
  }

  lemma BigStarts(crc: bv32, buf: seq<octet>)
    ensures Rest(Swap(!Swap(crc)), buf, 0, Fed(!crc, buf))
  {
    SwapNot(crc);
    SwapSwap(!crc);
    Starts(crc, buf);
  }

  lemma BigEnds(crc: bv32, c: bv32, buf: seq<octet>)
    requires Rest(Swap(c), buf, |buf|, Fed(!crc, buf))
    ensures Swap(!c) == CrcFrom(crc, buf)
  {
    Ends(crc, Swap(c), buf);
    SwapNot(c);
  }

  /** Bytes up to an aligned address. */
  method BigAlign(t: array2<bv32>, c0: bv32, buf: seq<octet>, addr: nat, ghost result: bv32) returns (c: bv32, i: nat)
    requires Tables(t) && Rest(Swap(c0), buf, 0, result)
    ensures Rest(Swap(c), buf, i, result) && Aligned(buf, addr, i)
  {
    c, i := c0, 0;
    while i < |buf| && (addr + i) % 4 != 0
      invariant Rest(Swap(c), buf, i, result)
    {
      c := BigByte(t, c, buf, i, result);
      i := i + 1;
    }
  }

  method BigWords(t: array2<bv32>, c0: bv32, buf: seq<octet>, ghost addr: nat, i0: nat, ghost result: bv32)
    returns (c: bv32, i: nat)
    requires Tables(t) && Rest(Swap(c0), buf, i0, result) && Aligned(buf, addr, i0)
    ensures Rest(Swap(c), buf, i, result) && Aligned(buf, addr, i) && |buf| - i < 4
  {
    c, i := c0, i0;
    while |buf| - i >= 4
      invariant Rest(Swap(c), buf, i, result) && Aligned(buf, addr, i)
    {
      c := BigWord(t, c, buf, addr, i, result);
      i := i + 4;
    }
  }

  method BigBytes(t: array2<bv32>, c0: bv32, buf: seq<octet>, i0: nat, ghost result: bv32) returns (c: bv32)
    requires Tables(t) && Rest(Swap(c0), buf, i0, result)
    ensures Rest(Swap(c), buf, |buf|, result)
  {
    c := c0;
    for i := i0 to |buf|
      invariant Rest(Swap(c), buf, i, result)
    {
      c := BigByte(t, c, buf, i, result);
    }
  }

  method Crc32Big(t: array2<bv32>, crc: bv32, buf: seq<octet>, addr: nat) returns (r: bv32)
    requires Tables(t)
    ensures r == CrcFrom(crc, buf)
  {
    var c, i := !Swap(crc), 0;
    ghost var result := Fed(!crc, buf);
    BigStarts(crc, buf);
    c, i := BigAlign(t, c, buf, addr, result);
    c, i := BigBlocks(t, c, buf, addr, i, result);
    c, i := BigWords(t, c, buf, addr, i, result);
    c := BigBytes(t, c, buf, i, result);
    BigEnds(crc, c, buf);
    r := Swap(!c);
  }

  // ---------- The byte loop, and the choice ----------

  /** Eight bytes a turn. */
  method EightBytes(t: array2<bv32>, c0: bv32, buf: seq<octet>, ghost result: bv32) returns (c: bv32, i: nat)
    requires Tables(t) && Rest(c0, buf, 0, result)
    ensures Rest(c, buf, i, result)
  {
    c, i := c0, 0;
    while |buf| - i >= 8
      invariant Rest(c, buf, i, result)
    {
      ghost var start := i;
      for k := 0 to 8
        invariant i == start + k && Rest(c, buf, i, result)
      {
        c := LittleByte(t, c, buf, i, result);
        i := i + 1;
      }
    }
  }

  method ByteLoop(t: array2<bv32>, crc: bv32, buf: seq<octet>) returns (r: bv32)
    requires Tables(t)
    ensures r == CrcFrom(crc, buf)
  {
    NotIsXor(crc);
    ghost var result := Fed(!crc, buf);
    Starts(crc, buf);
    var c, i := EightBytes(t, crc ^ ONES, buf, result);
    c := LittleBytes(t, c, buf, i, result);
    Ends(crc, c, buf);
    NotIsXor(c);
    r := c ^ ONES;
  }

  datatype Buffer = Null | Bytes(data: seq<octet>)

  datatype Build = Plain | LittleEndian | BigEndian

  /** generic_crc32: whatever the machine and the alignment, the CRC of the bytes. */
  method GenericCrc32(build: Build, t: array2<bv32>, crc: bv32, buf: Buffer, addr: nat) returns (r: bv32)
    requires Tables(t)
    ensures r == match buf case Null => 0 case Bytes(data) => CrcFrom(crc, data)
  {
    match buf {
      case Null =>
        r := 0;
      case Bytes(data) =>
        match build {
          case Plain => r := ByteLoop(t, crc, data);
          case LittleEndian => r := Crc32Little(t, crc, data, addr);
          case BigEndian => r := Crc32Big(t, crc, data, addr);
        }
    }
  }
}
