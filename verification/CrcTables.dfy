/**
  The table-driven forms of CRC-32 in lib/nx_crc.c: a byte at a time, and a
  word of four bytes at a time on little-endian and big-endian machines.
  */
module CrcTables {
  import opened LinearRegister
  import opened Crc

  /** ZSWAP32 */
  function Swap(v: bv32): bv32 {
    (v >> 24) ^ ((v >> 8) & 0xff00) ^ ((v & 0xff00) << 8) ^ (v << 24)
  }

  /** Tables 0 to 3 pass a byte through 8, 16, 24 and 32 zero bits; 4 to 7 are their byte swaps. */
  ghost predicate Tables(t: array2<bv32>)
    reads t
  {
    && t.Length0 == 8 && t.Length1 == 256
    && (forall k, n :: 0 <= k < 4 && 0 <= n < 256 ==> t[k, n] == Zeros(R(), 8 * (k + 1), n as bv32))
    && (forall k, n :: 0 <= k < 4 && 0 <= n < 256 ==> t[k + 4, n] == Swap(t[k, n]))
  }

  // ---------- A byte through eight zero bits ----------

  lemma Down1(y: bv32)
    requires y & 1 == 0
    ensures Step1(y) == y >> 1
  {
  }

  lemma Even2(y: bv32)
    requires y & 3 == 0
    ensures y & 1 == 0 && (y >> 1) & 1 == 0
  {
  }

  lemma Even4(y: bv32)
    requires y & 0xf == 0
    ensures y & 3 == 0 && (y >> 2) & 3 == 0
  {
  }

  lemma Even8(y: bv32)
    requires y & 0xff == 0
    ensures y & 0xf == 0 && (y >> 4) & 0xf == 0
  {
  }

  lemma Down2(y: bv32, k: nat)
    requires y & 3 == 0 && k == 2
    ensures Zeros(R(), k, y) == y >> 2
  {
    Even2(y);
    Down1(y);
    Down1(y >> 1);
    OutOf(y);
    assert Zeros(R(), k, y) == Zeros(R(), k - 1, Step1(y)) == Zeros(R(), k - 2, Step1(y >> 1));
  }

  lemma Down4(y: bv32, k: nat)
    requires y & 0xf == 0 && k == 4
    ensures Zeros(R(), k, y) == y >> 4
  {
    Even4(y);
    Down2(y, k - 2);
    Down2(y >> 2, k - 2);
    OutOf4(y);
    ZerosAdd(R(), k - 2, k - 2, y);
  }

  /** With its low byte clear, the register only shifts. */
  lemma Down8(y: bv32, k: nat)
    requires y & 0xff == 0 && k == 8
    ensures Zeros(R(), k, y) == y >> 8
  {
    Even8(y);
    Down4(y, k - 4);
    Down4(y >> 4, k - 4);
    OutOf8(y);
    ZerosAdd(R(), k - 4, k - 4, y);
  }

  function High(v: bv32): bv32 { v & 0xffff_ff00 }

  lemma LowByteAndHigh(v: bv32)
    ensures Add(v & 0xff, High(v)) == v && High(v) & 0xff == 0 && High(v) >> 8 == v >> 8
  {
  }

  /** One table look-up takes the register through eight zero bits. */
  lemma ByteStep(v: bv32)
    ensures Zeros(R(), 8, v) == Add(Zeros(R(), 8, v & 0xff), v >> 8)
  {
    hide Zeros, Add, High;
    LowByteAndHigh(v);
    StepOfParts(v, v & 0xff, High(v), v >> 8);
  }

  lemma StepOfParts(v: bv32, low: bv32, high: bv32, h: bv32)
    requires Add(low, high) == v && high & 0xff == 0 && high >> 8 == h
    ensures Zeros(R(), 8, v) == Add(Zeros(R(), 8, low), h)
  {
    hide Zeros;
    RIsLinear();
    ZerosLinear(R(), 8, low, high);
    Down8(high, 8);
  }

  function Index(v: bv32): (i: nat)
    ensures i < 256 && i as bv32 == v & 0xff
  {
    (v & 0xff) as nat
  }

  // ---------- The tables ----------

  ghost predicate Entry(t: array2<bv32>, k: nat, n: nat)
    requires t.Length0 == 8 && t.Length1 == 256 && k < 4 && n < 256
    reads t
  {
    t[k, n] == Zeros(R(), 8 * (k + 1), n as bv32) && t[k + 4, n] == Swap(t[k, n])
  }

  ghost predicate FirstTable(t: array2<bv32>, n: nat)
    requires t.Length0 == 8 && t.Length1 == 256 && n <= 256
    reads t
  {
    forall i :: 0 <= i < n ==> t[0, i] == Zeros(R(), 8, i as bv32)
  }

  /** The terms of the polynomial but for the highest. */
  const EXPONENTS: seq<nat> := [0, 1, 2, 4, 5, 7, 8, 10, 11, 12, 16, 22, 23, 26]

  function WithTerm(poly: bv32, e: nat): bv32
    requires e < 32
  {
    poly | ((1 as bv32) << (31 - e))
  }

  /** The terms before the n-th, as far as the loop has come. */
  function PatternBefore(n: nat): bv32
    requires n <= |EXPONENTS|
  {
    if n == 0 then 0 else WithTerm(PatternBefore(n - 1), EXPONENTS[n - 1])
  }

  lemma FirstTerms()
    ensures PatternBefore(5) == 0xec00_0000
  {
    assert PatternBefore(1) == 0x8000_0000;
    assert PatternBefore(2) == 0xc000_0000;
    assert PatternBefore(3) == 0xe000_0000;
    assert PatternBefore(4) == 0xe800_0000;
  }

  lemma MoreTerms()
    ensures PatternBefore(10) == 0xedb8_0000
  {
    FirstTerms();
    assert PatternBefore(6) == 0xed00_0000;
    assert PatternBefore(7) == 0xed80_0000;
    assert PatternBefore(8) == 0xeda0_0000;
    assert PatternBefore(9) == 0xedb0_0000;
  }

  lemma Pattern()
    ensures PatternBefore(14) == POLY
  {
    MoreTerms();
    assert PatternBefore(11) == 0xedb8_8000;
    assert PatternBefore(12) == 0xedb8_8200;
    assert PatternBefore(13) == 0xedb8_8300;
  }

  /** The exclusive-or pattern of the polynomial, term by term. */
  method MakePattern() returns (poly: bv32)
    ensures poly == POLY
  {
    hide WithTerm;
    poly := 0;
    for n := 0 to |EXPONENTS|
      invariant poly == PatternBefore(n)
    {
      poly := WithTerm(poly, EXPONENTS[n]);
    }
    Pattern();
  }

  method OneEntry(n: bv32, poly: bv32) returns (c: bv32)
    requires poly == POLY
    ensures c == Zeros(R(), 8, n)
  {
    c := n;
    for k := 0 to 8
      invariant Zeros(R(), 8 - k, c) == Zeros(R(), 8, n)
    {
      c := if c & 1 == 1 then poly ^ (c >> 1) else c >> 1;
    }
  }

  ghost predicate Entries(t: array2<bv32>, k: nat, n: nat)
    requires t.Length0 == 8 && t.Length1 == 256 && k <= 4 && n < 256
    reads t
  {
    forall j: nat :: j < k ==> Entry(t, j, n)
  }

  twostate predicate OnlyColumn(t: array2<bv32>, n: nat)
    requires t.Length0 == 8 && t.Length1 == 256
    reads t
  {
    forall k, i :: 0 <= k < 8 && 0 <= i < 256 && i != n ==> t[k, i] == old(t[k, i])
  }

  method SetEntry(t: array2<bv32>, k: nat, n: nat, c: bv32)
    requires t.Length0 == 8 && t.Length1 == 256 && k < 4 && n < 256
    requires Entries(t, k, n) && c == Zeros(R(), 8 * (k + 1), n as bv32)
    modifies t
    ensures Entries(t, k + 1, n) && OnlyColumn(t, n)
    ensures t[0, n] == if k == 0 then c else old(t[0, n])
  {
    t[k, n] := c;
    t[k + 4, n] := Swap(c);
    forall j: nat | j < k ensures Entry(t, j, n) {
      assert old(Entry(t, j, n));
    }
  }

  /** A byte step by the first table. */
  method LookUp(t: array2<bv32>, c: bv32) returns (d: bv32)
    requires t.Length0 == 8 && t.Length1 == 256 && FirstTable(t, 256)
    ensures d == Zeros(R(), 8, c)
  {
    hide Zeros, Index;
    var x := t[0, Index(c)];
    ByteStep(c);
    d := x ^ (c >> 8);
  }

  /** The entries of tables k and k + 4 from those for one byte less. */
  method NextEntry(t: array2<bv32>, k: nat, n: nat, c: bv32) returns (d: bv32)
    requires t.Length0 == 8 && t.Length1 == 256 && 0 < k < 4 && n < 256 && FirstTable(t, 256)
    requires Entries(t, k, n) && c == Zeros(R(), 8 * k, n as bv32)
    modifies t
    ensures Entries(t, k + 1, n) && OnlyColumn(t, n) && t[0, n] == old(t[0, n])
    ensures d == Zeros(R(), 8 * (k + 1), n as bv32)
  {
    d := LookUp(t, c);
    ZerosAdd(R(), 8 * k, 8, n as bv32);
    SetEntry(t, k, n, d);
  }

  /** The other tables for one byte. */
  method Column(t: array2<bv32>, n: nat)
    requires t.Length0 == 8 && t.Length1 == 256 && n < 256 && FirstTable(t, 256)
    modifies t
    ensures FirstTable(t, 256) && Entries(t, 4, n) && OnlyColumn(t, n)
  {
    var c := t[0, n];
    SetEntry(t, 0, n, c);
    for k := 1 to 4
      invariant FirstTable(t, 256) && c == Zeros(R(), 8 * k, n as bv32)
      invariant Entries(t, k, n) && OnlyColumn(t, n)
    {
      c := NextEntry(t, k, n, c);
    }
  }

  method MakeCrcTable(t: array2<bv32>)
    requires t.Length0 == 8 && t.Length1 == 256
    modifies t
    ensures Tables(t)
  {
    hide Zeros, Swap;
    var poly := MakePattern();
    for n := 0 to 256
      invariant FirstTable(t, n)
    {
      t[0, n] := OneEntry(n as bv32, poly);
    }
    for n := 0 to 256
      invariant FirstTable(t, 256)
      invariant forall i: nat :: i < n ==> Entries(t, 4, i)
    {
      label before:
      Column(t, n);
      forall i: nat | i < n ensures Entries(t, 4, i) {
        forall k: nat | k < 4 ensures Entry(t, k, i) {
          assert old@before(Entries(t, 4, i)) && old@before(Entry(t, k, i));
        }
      }
    }
    forall k, n | 0 <= k < 4 && 0 <= n < 256
      ensures t[k, n] == Zeros(R(), 8 * (k + 1), n as bv32) && t[k + 4, n] == Swap(t[k, n])
    {
      assert Entries(t, 4, n) && Entry(t, k, n);
    }
  }

  // ---------- A word is four bytes ----------

  function LoadLittle(b0: octet, b1: octet, b2: octet, b3: octet): bv32 {
    (b0 as bv32) | ((b1 as bv32) << 8) | ((b2 as bv32) << 16) | ((b3 as bv32) << 24)
  }

  function LoadBig(b0: octet, b1: octet, b2: octet, b3: octet): bv32 {
    LoadLittle(b3, b2, b1, b0)
  }

  lemma LoadIsSum(b0: octet, b1: octet, b2: octet, b3: octet)
    ensures LoadLittle(b0, b1, b2, b3)
         == Add(b0 as bv32, Add((b1 as bv32) << 8, Add((b2 as bv32) << 16, (b3 as bv32) << 24)))
  {
  }

  lemma UpDown(b: bv32)
    requires b & 0xff == b
    ensures (b << 8) & 0xff == 0 && (b << 8) >> 8 == b
    ensures (b << 16) & 0xff == 0 && (b << 16) >> 8 == b << 8
    ensures (b << 24) & 0xff == 0 && (b << 24) >> 8 == b << 16
  {
  }

  lemma Through8(b: bv32)
    requires b & 0xff == b
    ensures Zeros(R(), 8, b << 8) == b
  {
    UpDown(b);
    Down8(b << 8, 8);
  }

  lemma Through16(b: bv32)
    requires b & 0xff == b
    ensures Zeros(R(), 16, b << 16) == b
  {
    UpDown(b);
    Down8(b << 16, 8);
    Through8(b);
    ZerosAdd(R(), 8, 8, b << 16);
  }

  lemma Through24(b: bv32)
    requires b & 0xff == b
    ensures Zeros(R(), 24, b << 24) == b
  {
    UpDown(b);
    Down8(b << 24, 8);
    Through16(b);
    ZerosAdd(R(), 8, 16, b << 24);
  }

  lemma IsByte(b: octet)
    ensures (b as bv32) & 0xff == b as bv32
  {
  }

  /** Four bytes into the register are one word and 32 zero bits. */
  lemma FeedWord(c: bv32, b0: octet, b1: octet, b2: octet, b3: octet)
    ensures Feed(R(), 8, c, [b0 as bv32, b1 as bv32, b2 as bv32, b3 as bv32])
         == Zeros(R(), 32, Add(c, LoadLittle(b0, b1, b2, b3)))
  {
    IsByte(b1);
    IsByte(b2);
    IsByte(b3);
    Through8(b1 as bv32);
    Through16(b2 as bv32);
    Through24(b3 as bv32);
    RIsLinear();
    LoadIsSum(b0, b1, b2, b3);
    FeedFour(R(), 8, c, b0 as bv32, b1 as bv32, b2 as bv32, b3 as bv32,
             (b1 as bv32) << 8, (b2 as bv32) << 16, (b3 as bv32) << 24);
  }

  function Byte1(v: bv32): bv32 { (v >> 8) & 0xff }

  function Byte2(v: bv32): bv32 { (v >> 16) & 0xff }

  function Byte3(v: bv32): bv32 { v >> 24 }

  function Up1(v: bv32): bv32 { v & 0xff00 }

  function Up2(v: bv32): bv32 { v & 0xff_0000 }

  function Up3(v: bv32): bv32 { v & 0xff00_0000 }

  lemma WordIsBytes(v: bv32)
    ensures Add(v & 0xff, Add(Up1(v), Add(Up2(v), Up3(v)))) == v
  {
  }

  lemma Part1(v: bv32)
    ensures Zeros(R(), 8, Up1(v)) == Byte1(v)
  {
    assert Byte1(v) & 0xff == Byte1(v) && Byte1(v) << 8 == Up1(v);
    Through8(Byte1(v));
  }

  lemma Part2(v: bv32)
    ensures Zeros(R(), 16, Up2(v)) == Byte2(v)
  {
    assert Byte2(v) & 0xff == Byte2(v) && Byte2(v) << 16 == Up2(v);
    Through16(Byte2(v));
  }

  lemma Part3(v: bv32)
    ensures Zeros(R(), 24, Up3(v)) == Byte3(v)
  {
    assert Byte3(v) & 0xff == Byte3(v) && Byte3(v) << 24 == Up3(v);
    Through24(Byte3(v));
  }

  lemma StepOfBytes(v: bv32, x0: bv32, x1: bv32, x2: bv32, x3: bv32, s1: bv32, s2: bv32, s3: bv32)
    requires Zeros(R(), 8, s1) == x1 && Zeros(R(), 16, s2) == x2 && Zeros(R(), 24, s3) == x3
    requires Add(x0, Add(s1, Add(s2, s3))) == v
    ensures Zeros(R(), 32, v)
         == Add(Zeros(R(), 32, x0), Add(Zeros(R(), 24, x1), Add(Zeros(R(), 16, x2), Zeros(R(), 8, x3))))
  {
    RIsLinear();
    SplitFour(R(), 8, x0, s1, s2, s3, x1, x2, x3);
  }

  /** Four look-ups take a word through 32 zero bits. */
  lemma WordStep(v: bv32)
    ensures Zeros(R(), 32, v)
         == Add(Zeros(R(), 32, v & 0xff),
                Add(Zeros(R(), 24, Byte1(v)), Add(Zeros(R(), 16, Byte2(v)), Zeros(R(), 8, Byte3(v)))))
  {
    Part1(v);
    Part2(v);
    Part3(v);
    WordIsBytes(v);
    StepOfBytes(v, v & 0xff, Byte1(v), Byte2(v), Byte3(v), Up1(v), Up2(v), Up3(v));
  }
}
