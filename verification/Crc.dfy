/**
  CRC-32 of lib/nx_crc.c: the bit-at-a-time shift register, the byte and word
  tables, and the concatenation of checksums by matrices over GF(2).

  Registers are 32-bit vectors. The C type `unsigned long` is wider on 64-bit
  systems, but every value kept in one fits in 32 bits.
  */
module Crc {
  import opened LinearRegister

  /** A byte, as the shift register takes it: eight bits and not a number. */
  type octet = bv8

  const POLY: bv32 := 0xedb88320
  const ONES: bv32 := 0xffff_ffff

  /** The register after one more zero bit. */
  function Step1(c: bv32): bv32 {
    if c & 1 == 1 then POLY ^ (c >> 1) else c >> 1
  }

  function Add(a: bv32, b: bv32): bv32 {
    a ^ b
  }

  /** The CRC register. */
  function R(): Register<bv32> {
    Register(0, Add, Step1)
  }

  /** Bytes as the registers that they are added to. */
  function Words(bs: seq<octet>): (ws: seq<bv32>)
    ensures |ws| == |bs|
    ensures forall i :: 0 <= i < |bs| ==> ws[i] == bs[i] as bv32
  {
    if bs == [] then [] else [bs[0] as bv32] + Words(bs[1..])
  }

  /** The CRC-32 that continues one of value crc, a bit at a time. */
  function CrcFrom(crc: bv32, bs: seq<octet>): bv32 {
    Checksum(R(), 8, ONES, crc, Words(bs))
  }

  function Crc32(bs: seq<octet>): bv32 {
    CrcFrom(0, bs)
  }

  // ---------- Bit-vector facts, one at a time ----------

  lemma XorShift(a: bv32, b: bv32)
    ensures (a ^ b) >> 1 == (a >> 1) ^ (b >> 1)
  {
  }

  lemma XorLow(a: bv32, b: bv32)
    ensures (a ^ b) & 1 == (a & 1) ^ (b & 1)
  {
  }

  lemma LowBit(a: bv32)
    ensures a & 1 == 0 || a & 1 == 1
  {
  }

  lemma Cancel(p: bv32, a: bv32, b: bv32)
    ensures (p ^ a) ^ (p ^ b) == a ^ b
  {
  }

  lemma XorAssoc(a: bv32, b: bv32, c: bv32)
    ensures (a ^ b) ^ c == a ^ (b ^ c)
  {
  }

  lemma XorComm(a: bv32, b: bv32)
    ensures a ^ b == b ^ a
  {
  }

  lemma XorSelf(a: bv32)
    ensures a ^ a == 0 && a ^ 0 == a
  {
  }

  lemma SameStep(a: bv32, b: bv32, s: bv32)
    requires a & 1 == b & 1 && s & 1 == 0 && s >> 1 == (a >> 1) ^ (b >> 1)
    ensures Step1(s) == Add(Step1(a), Step1(b))
  {
    if a & 1 == 1 { Cancel(POLY, a >> 1, b >> 1); }
  }

  lemma OtherStep(a: bv32, b: bv32, s: bv32)
    requires a & 1 == 1 && b & 1 == 0 && s & 1 == 1 && s >> 1 == (a >> 1) ^ (b >> 1)
    ensures Step1(s) == Add(Step1(a), Step1(b))
  {
    XorAssoc(POLY, a >> 1, b >> 1);
  }

  lemma AddStep(a: bv32, b: bv32)
    ensures Step1(Add(a, b)) == Add(Step1(a), Step1(b))
  {
    XorShift(a, b);
    XorLow(a, b);
    LowBit(a);
    LowBit(b);
    var s := Add(a, b);
    if a & 1 == b & 1 {
      SameStep(a, b, s);
    } else if a & 1 == 1 {
      OtherStep(a, b, s);
    } else {
      XorComm(a >> 1, b >> 1);
      OtherStep(b, a, s);
      AddComm(Step1(a), Step1(b));
    }
  }

  lemma AddAssoc(a: bv32, b: bv32, c: bv32)
    ensures Add(Add(a, b), c) == Add(a, Add(b, c))
  {
  }

  lemma AddComm(a: bv32, b: bv32)
    ensures Add(a, b) == Add(b, a)
  {
  }

  lemma LawAssoc(a: bv32, b: bv32, c: bv32)
    ensures R().xor(R().xor(a, b), c) == R().xor(a, R().xor(b, c))
  {
    AddAssoc(a, b, c);
  }

  lemma LawComm(a: bv32, b: bv32)
    ensures R().xor(a, b) == R().xor(b, a)
  {
    AddComm(a, b);
  }

  lemma LawSelf(a: bv32)
    ensures R().xor(a, a) == R().zero && R().xor(a, R().zero) == a
  {
    XorSelf(a);
  }

  lemma LawStep(a: bv32, b: bv32)
    ensures R().step(R().xor(a, b)) == R().xor(R().step(a), R().step(b))
  {
    AddStep(a, b);
  }

  lemma RegisterLaws(a: bv32, b: bv32, c: bv32)
    ensures Laws(R(), a, b, c)
  {
    LawAssoc(a, b, c);
    LawComm(a, b);
    LawSelf(a);
    LawStep(a, b);
  }

  /** The CRC register is linear over GF(2). */
  lemma RIsLinear()
    ensures Linear(R())
  {
    forall a: bv32, b: bv32, c: bv32 ensures Laws(R(), a, b, c) { RegisterLaws(a, b, c); }
  }

  lemma {:induction false} WordsConcat(a: seq<octet>, b: seq<octet>)
    ensures Words(a + b) == Words(a) + Words(b)
    decreases |a|
  {
    if a == [] {
      assert a + b == b;
    } else {
      assert (a + b)[1..] == a[1..] + b;
      WordsConcat(a[1..], b);
    }
  }

  /** The CRC of a concatenation: the first CRC through the zero bits of b, plus the second. */
  lemma CrcOfConcat(a: seq<octet>, b: seq<octet>)
    ensures Crc32(a + b) == R().xor(Zeros(R(), 8 * |b|, Crc32(a)), Crc32(b))
  {
    RIsLinear();
    WordsConcat(a, b);
    ChecksumOfConcat(R(), 8, ONES, Words(a), Words(b));
  }

  // ---------- Matrices ----------

  const GF2_DIM := 32

  predicate Odd(v: bv32) { v & 1 == 1 }

  function Half(v: bv32): bv32 { v >> 1 }

  function Twice(v: bv32): bv32 { v << 1 }

  function X(): Bitwise<bv32> {
    Bitwise(1, Odd, Half, Twice)
  }

  lemma DoubleXor(a: bv32, b: bv32)
    ensures (a ^ b) << 1 == (a << 1) ^ (b << 1)
  {
  }

  lemma LowAndRest(v: bv32)
    ensures (v & 1) ^ ((v >> 1) << 1) == v
  {
  }

  lemma {:induction false} ShiftAdd(v: bv32, m: nat, n: nat)
    ensures ShiftLeft(X(), v, m + n) == ShiftLeft(X(), ShiftLeft(X(), v, m), n)
    decreases m
  {
    if m > 0 { ShiftAdd(X().twice(v), m - 1, n); }
  }

  lemma ShiftTwice(v: bv32, k: nat, w: bv32, z: bv32)
    requires ShiftLeft(X(), v, k) == w && ShiftLeft(X(), w, k) == z
    ensures ShiftLeft(X(), v, k + k) == z
  {
    ShiftAdd(v, k, k);
  }

  lemma Shift2(v: bv32, k: nat)
    requires k == 2
    ensures ShiftLeft(X(), v, k) == v << 2
  {
    var y := Twice(v);
    assert ShiftLeft(X(), v, k) == ShiftLeft(X(), y, k - 1) == ShiftLeft(X(), Twice(y), k - 2);
    Into2(v);
  }

  lemma Shift4(v: bv32, k: nat)
    requires k == 4
    ensures ShiftLeft(X(), v, k) == v << 4
  {
    Shift2(v, k - 2);
    Shift2(v << 2, k - 2);
    Into4(v);
    ShiftTwice(v, k - 2, v << 2, v << 4);
  }

  lemma Shift8(v: bv32, k: nat)
    requires k == 8
    ensures ShiftLeft(X(), v, k) == v << 8
  {
    Shift4(v, k - 4);
    Shift4(v << 4, k - 4);
    Into8(v);
    ShiftTwice(v, k - 4, v << 4, v << 8);
  }

  lemma Shift16(v: bv32, k: nat)
    requires k == 16
    ensures ShiftLeft(X(), v, k) == v << 16
  {
    Shift8(v, k - 8);
    Shift8(v << 8, k - 8);
    Into16(v);
    ShiftTwice(v, k - 8, v << 8, v << 16);
  }

  /** Every register is shifted out after 32 bits. */
  lemma ShiftsOut(v: bv32)
    ensures ShiftLeft(X(), v, 32) == 0
  {
    Shift16(v, 16);
    Shift16(v << 16, 16);
    Into32(v);
    ShiftTwice(v, 16, v << 16, 0);
  }

  lemma Into2(v: bv32)
    ensures (v << 1) << 1 == v << 2
  {
  }

  lemma Into4(v: bv32)
    ensures (v << 2) << 2 == v << 4
  {
  }

  lemma Into8(v: bv32)
    ensures (v << 4) << 4 == v << 8
  {
  }

  lemma Into16(v: bv32)
    ensures (v << 8) << 8 == v << 16
  {
  }

  lemma Into32(v: bv32)
    ensures (v << 16) << 16 == 0
  {
  }

  lemma TwiceAdditive()
    ensures Additive(R(), X().twice)
  {
    forall a: bv32, b: bv32
      ensures R().xor(a, b) == a ^ b && X().twice(R().xor(a, b)) == R().xor(X().twice(a), X().twice(b))
    {
      DoubleXor(a, b);
    }
  }

  lemma BitAndRest(v: bv32)
    ensures R().xor(if X().odd(v) then X().one else R().zero, X().twice(X().half(v))) == v
  {
    LowAndRest(v);
    LowBit(v);
  }

  lemma SplitsR()
    ensures Splits(R(), X(), GF2_DIM)
  {
    TwiceAdditive();
    forall v: bv32 ensures R().xor(if X().odd(v) then X().one else R().zero, X().twice(X().half(v))) == v {
      BitAndRest(v);
    }
    forall v: bv32 ensures ShiftLeft(X(), v, GF2_DIM) == R().zero { ShiftsOut(v); }
  }

  /** The matrix of n zero bits. */
  ghost predicate Matrix(mat: seq<bv32>, n: nat) {
    |mat| == GF2_DIM && IsZeros(R(), X(), mat, n)
  }

  /** The register shifted right n times. */
  function ShiftRight(v: bv32, n: nat): bv32
    decreases n, v
  {
    if n == 0 then v else ShiftRight(Half(v), n - 1)
  }

  lemma {:induction false} RightAdd(v: bv32, m: nat, n: nat)
    ensures ShiftRight(v, m + n) == ShiftRight(ShiftRight(v, m), n)
    decreases m
  {
    if m > 0 { RightAdd(Half(v), m - 1, n); }
  }

  lemma RightTwice(v: bv32, k: nat, w: bv32, z: bv32)
    requires ShiftRight(v, k) == w && ShiftRight(w, k) == z
    ensures ShiftRight(v, k + k) == z
  {
    RightAdd(v, k, k);
  }

  lemma Right2(v: bv32, k: nat)
    requires k == 2
    ensures ShiftRight(v, k) == v >> 2
  {
    OutOf(v);
    var y := Half(v);
    assert ShiftRight(v, k) == ShiftRight(y, k - 1) == ShiftRight(Half(y), k - 2);
  }

  lemma Right4(v: bv32, k: nat)
    requires k == 4
    ensures ShiftRight(v, k) == v >> 4
  {
    Right2(v, k - 2);
    Right2(v >> 2, k - 2);
    OutOf4(v);
    RightTwice(v, k - 2, v >> 2, v >> 4);
  }

  lemma Right8(v: bv32, k: nat)
    requires k == 8
    ensures ShiftRight(v, k) == v >> 8
  {
    Right4(v, k - 4);
    Right4(v >> 4, k - 4);
    OutOf8(v);
    RightTwice(v, k - 4, v >> 4, v >> 8);
  }

  lemma Right16(v: bv32, k: nat)
    requires k == 16
    ensures ShiftRight(v, k) == v >> 16
  {
    Right8(v, k - 8);
    Right8(v >> 8, k - 8);
    OutOf16(v);
    RightTwice(v, k - 8, v >> 8, v >> 16);
  }

  lemma RightsOut(v: bv32)
    ensures ShiftRight(v, 32) == 0
  {
    Right16(v, 16);
    Right16(v >> 16, 16);
    OutOf32(v);
    RightTwice(v, 16, v >> 16, 0);
  }

  lemma OutOf(v: bv32)
    ensures (v >> 1) >> 1 == v >> 2
  {
  }

  lemma OutOf4(v: bv32)
    ensures (v >> 2) >> 2 == v >> 4
  {
  }

  lemma OutOf8(v: bv32)
    ensures (v >> 4) >> 4 == v >> 8
  {
  }

  lemma OutOf16(v: bv32)
    ensures (v >> 8) >> 8 == v >> 16
  {
  }

  lemma OutOf32(v: bv32)
    ensures (v >> 16) >> 16 == 0
  {
  }

  lemma {:induction false} TimesNothing(mat: seq<bv32>)
    ensures Times(R(), X(), mat, 0) == 0
    decreases |mat|
  {
    if mat != [] {
      TimesNothing(mat[1..]);
      XorSelf(0);
      assert !X().odd(0) && X().half(0) == 0;
    }
  }

  lemma TimesStep(mat: seq<bv32>, i: nat, v: bv32, sum: bv32)
    requires i < |mat|
    ensures Add(sum, Times(R(), X(), mat[i..], v))
         == Add(if Odd(v) then Add(sum, mat[i]) else sum, Times(R(), X(), mat[i + 1..], Half(v)))
  {
    assert mat[i..][1..] == mat[i + 1..];
    var t := Times(R(), X(), mat[i + 1..], Half(v));
    RegisterLaws(sum, mat[i], t);
    RegisterLaws(0, t, t);
    RegisterLaws(t, 0, 0);
  }

  /** Rows are added while bits are left in vec. */
  method Gf2MatrixTimes(mat: array<bv32>, vec: bv32) returns (sum: bv32)
    requires mat.Length == GF2_DIM
    ensures sum == Times(R(), X(), mat[..], vec)
  {
    var v := vec;
    var i: nat := 0;
    sum := 0;
    RegisterLaws(0, Times(R(), X(), mat[..], vec), 0);
    RegisterLaws(Times(R(), X(), mat[..], vec), 0, 0);
    assert mat[0..] == mat[..];
    RightsOut(vec);
    while v != 0
      invariant i <= GF2_DIM && ShiftRight(v, GF2_DIM - i) == 0
      invariant Add(sum, Times(R(), X(), mat[i..], v)) == Times(R(), X(), mat[..], vec)
      decreases GF2_DIM - i
    {
      TimesStep(mat[..], i, v, sum);
      assert mat[..][i..] == mat[i..] && mat[..][i + 1..] == mat[i + 1..];
      if v & 1 == 1 {
        sum := sum ^ mat[i];
      }
      v := v >> 1;
      i := i + 1;
    }
    TimesNothing(mat[i..]);
    RegisterLaws(sum, 0, 0);
  }

  /** square holds the operator mat applied twice. */
  method Gf2MatrixSquare(square: array<bv32>, mat: array<bv32>)
    requires square.Length == mat.Length == GF2_DIM && square != mat
    modifies square
    ensures forall n: nat :: Matrix(old(mat[..]), n) ==> Matrix(square[..], 2 * n)
    ensures mat[..] == old(mat[..])
  {
    for n := 0 to GF2_DIM
      invariant mat[..] == old(mat[..])
      invariant forall i :: 0 <= i < n ==> square[i] == Times(R(), X(), mat[..], mat[i])
    {
      square[n] := Gf2MatrixTimes(mat, mat[n]);
    }
    forall n: nat | Matrix(mat[..], n) ensures Matrix(square[..], 2 * n) {
      RIsLinear();
      SplitsR();
      SquareDoubles(R(), X(), mat[..], n, square[..]);
    }
  }

  /** The top bit stays clear for n shifts to the left. */
  predicate TopClear(v: bv32, n: nat)
    decreases n, v
  {
    n == 0 || (v & 0x8000_0000 == 0 && TopClear(Twice(v), n - 1))
  }

  lemma OneHasRoom()
    ensures TopClear(1, 31)
  {
    assert TopClear(0x1000_0000, 3);
    assert TopClear(0x0100_0000, 7);
    assert TopClear(0x0010_0000, 11);
    assert TopClear(0x0001_0000, 15);
    assert TopClear(0x0000_1000, 19);
    assert TopClear(0x0000_0100, 23);
    assert TopClear(0x0000_0010, 27);
  }

  lemma StepUndoesTwice(v: bv32)
    requires v & 0x8000_0000 == 0
    ensures Step1(v << 1) == v
  {
  }

  lemma ShiftNext(n: nat)
    ensures ShiftLeft(X(), 1, n + 1) == Twice(ShiftLeft(X(), 1, n))
  {
    ShiftAdd(1, n, 1);
  }

  /** The operator for one zero bit. */
  method OneZeroBit(odd: array<bv32>)
    requires odd.Length == GF2_DIM
    modifies odd
    ensures Matrix(odd[..], 1)
  {
    odd[0] := POLY;
    var row: bv32 := 1;
    OneHasRoom();
    assert Step1(1) == POLY;
    for n := 1 to GF2_DIM
      invariant row == ShiftLeft(X(), 1, n - 1) && TopClear(row, GF2_DIM - n)
      invariant forall i :: 0 <= i < n ==> odd[i] == Step1(ShiftLeft(X(), 1, i))
    {
      StepUndoesTwice(row);
      ShiftNext(n - 1);
      odd[n] := row;
      row := row << 1;
    }
    forall i | 0 <= i < GF2_DIM ensures odd[..][i] == Zeros(R(), 1, ShiftLeft(X(), X().one, i)) {
      assert Zeros(R(), 1, ShiftLeft(X(), X().one, i)) == Zeros(R(), 0, Step1(ShiftLeft(X(), X().one, i)));
    }
  }

  lemma OddBit(len: nat, z: nat, crc: bv32, c: bv32)
    requires len % 2 == 1 && c == Zeros(R(), z, crc)
    ensures Zeros(R(), 2 * z * (len / 2), c) == Zeros(R(), z * len, crc)
  {
    var h := len / 2;
    ZerosAdd(R(), z, 2 * z * h, crc);
    assert z * len == z * (2 * h + 1) == z + 2 * z * h;
  }

  lemma EvenBit(len: nat, z: nat)
    requires len % 2 == 0
    ensures 2 * z * (len / 2) == z * len
  {
  }

  /** One bit of the length: the operator of z zero bits, if the bit is set. */
  method ApplyBit(mat: array<bv32>, crc: bv32, len: nat, ghost z: nat) returns (c: bv32)
    requires Matrix(mat[..], z)
    ensures Zeros(R(), 2 * z * (len / 2), c) == Zeros(R(), z * len, crc)
  {
    if len % 2 == 1 {
      c := Gf2MatrixTimes(mat, crc);
      MatrixIs(mat[..], z, crc);
      OddBit(len, z, crc, c);
    } else {
      c := crc;
      EvenBit(len, z);
    }
  }

  lemma MatrixIs(mat: seq<bv32>, n: nat, v: bv32)
    requires Matrix(mat, n)
    ensures Times(R(), X(), mat, v) == Zeros(R(), n, v)
  {
    RIsLinear();
    SplitsR();
    TimesIsZeros(R(), X(), mat, n, v);
  }

  method FourZeroBits(even: array<bv32>, odd: array<bv32>)
    requires even.Length == odd.Length == GF2_DIM && even != odd
    modifies even, odd
    ensures Matrix(odd[..], 4)
  {
    OneZeroBit(odd);
    assert Matrix(odd[..], 1);
    Gf2MatrixSquare(even, odd);
    assert Matrix(even[..], 2);
    Gf2MatrixSquare(odd, even);
  }

  /** One more bit of the length, with the next squared operator. */
  method NextBit(to: array<bv32>, from: array<bv32>, crc: bv32, len: nat, ghost z: nat) returns (c: bv32)
    requires to.Length == from.Length == GF2_DIM && to != from && Matrix(from[..], z)
    modifies to
    ensures Matrix(to[..], 2 * z)
    ensures Zeros(R(), 2 * (2 * z) * (len / 2), c) == Zeros(R(), 2 * z * len, crc)
  {
    Gf2MatrixSquare(to, from);
    c := ApplyBit(to, crc, len, 2 * z);
  }

  lemma NoBitsLeft(n: nat, c: bv32)
    ensures Zeros(R(), n * 0, c) == c
  {
  }

  /** The CRC of two strings from theirs, in as many steps as the length has bits. */
  method Crc32Combine(crc1: bv32, crc2: bv32, len2: int) returns (crc: bv32)
    ensures crc == if len2 <= 0 then crc1 else Add(Zeros(R(), 8 * len2, crc1), crc2)
  {
    if len2 <= 0 {
      return crc1;
    }
    var even, odd := new bv32[GF2_DIM], new bv32[GF2_DIM];
    FourZeroBits(even, odd);
    crc := crc1;
    var len: nat := len2;
    ghost var z: nat := 4;
    while true
      invariant len > 0 && Matrix(odd[..], z)
      invariant Zeros(R(), 2 * z * len, crc) == Zeros(R(), 8 * len2, crc1)
      decreases len
    {
      crc := NextBit(even, odd, crc, len, z);
      len, z := len / 2, 2 * z;
      if len == 0 {
        break;
      }
      crc := NextBit(odd, even, crc, len, z);
      len, z := len / 2, 2 * z;
      if len == 0 {
        break;
      }
    }
    NoBitsLeft(2 * z, crc);
    crc := crc ^ crc2;
  }

  /** Combining the CRCs of any two strings gives the CRC of their concatenation. */
  method NxCrc32Combine(crc1: bv32, crc2: bv32, len2: int) returns (crc: bv32)
    ensures forall a: seq<octet>, b: seq<octet> ::
      crc1 == Crc32(a) && crc2 == Crc32(b) && len2 == |b| ==> crc == Crc32(a + b)
  {
    crc := Crc32Combine(crc1, crc2, len2);
    forall a: seq<octet>, b: seq<octet> | crc1 == Crc32(a) && crc2 == Crc32(b) && len2 == |b|
      ensures crc == Crc32(a + b)
    {
      CrcOfConcat(a, b);
      if b == [] { assert a + b == a; }
    }
  }
}
