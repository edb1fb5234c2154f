/**
  Which CRC it is: the register of lib/nx_crc.c holds the remainder of a division of polynomials
  over GF(2), as ISO 3309 and section 8 of RFC 1952 define the checksum.
  */
module CrcPolynomial {
  import opened LinearRegister
  import opened Crc
  import opened CrcLoops

  // ---------- Polynomials ----------

  /** The exponents of the terms. */
  type Poly = set<nat>

  function Plus(p: Poly, q: Poly): Poly {
    (p - q) + (q - p)
  }

  /** p times x to the n. */
  function Shifted(p: Poly, n: nat): Poly {
    set e | e in p :: e + n
  }

  lemma ShiftedHas(p: Poly, n: nat, e: nat)
    ensures e in Shifted(p, n) <==> e >= n && e - n in p
  {
    if e >= n && e - n in p { assert (e - n) + n in Shifted(p, n); }
  }

  lemma ShiftedPlus(p: Poly, q: Poly, n: nat)
    ensures Shifted(Plus(p, q), n) == Plus(Shifted(p, n), Shifted(q, n))
  {
    forall e: nat
      ensures e in Shifted(Plus(p, q), n) <==> e in Plus(Shifted(p, n), Shifted(q, n))
    {
      ShiftedHas(Plus(p, q), n, e);
      ShiftedHas(p, n, e);
      ShiftedHas(q, n, e);
    }
  }

  lemma ShiftedTwice(p: Poly, m: nat, n: nat)
    ensures Shifted(Shifted(p, m), n) == Shifted(p, m + n)
  {
    forall e: nat ensures e in Shifted(Shifted(p, m), n) <==> e in Shifted(p, m + n) {
      ShiftedHas(Shifted(p, m), n, e);
      ShiftedHas(p, m + n, e);
      if e >= n { ShiftedHas(p, m, e - n); }
    }
  }

  lemma ShiftedNone(p: Poly)
    ensures Shifted(p, 0) == p
  {
    forall e: nat ensures e in Shifted(p, 0) <==> e in p { ShiftedHas(p, 0, e); }
  }

  /** The polynomial of the checksum. */
  const GENERATOR: Poly := {32, 26, 23, 22, 16, 12, 11, 10, 8, 7, 5, 4, 2, 1, 0}

  /** A polynomial times the generator; q has the coefficients of the first one, the highest power first. */
  function Multiple(q: seq<bool>): Poly {
    if q == [] then {}
    else
      var n := |q| - 1;
      Plus(Shifted(Multiple(q[..n]), 1), if q[n] then GENERATOR else {})
  }

  lemma MultipleSnoc(q: seq<bool>, b: bool)
    ensures Multiple(q + [b]) == Plus(Shifted(Multiple(q), 1), if b then GENERATOR else {})
  {
    assert (q + [b])[..|q|] == q;
  }

  lemma MultipleNone(p: Poly)
    ensures Multiple([]) == {} && Plus(p, {}) == p
  {
  }

  lemma {:induction false} MultipleConcat(a: seq<bool>, b: seq<bool>)
    ensures Multiple(a + b) == Plus(Shifted(Multiple(a), |b|), Multiple(b))
    decreases |b|
  {
    hide Plus, Shifted, Multiple;
    if b == [] {
      assert a + b == a;
      ShiftedNone(Multiple(a));
      MultipleNone(Multiple(a));
    } else {
      var n := |b| - 1;
      var front, last := b[..n], if b[n] then GENERATOR else {};
      assert a + b == (a + front) + [b[n]] && b == front + [b[n]];
      MultipleConcat(a, front);
      MultipleSnoc(a + front, b[n]);
      MultipleSnoc(front, b[n]);
      ShiftedPlus(Shifted(Multiple(a), n), Multiple(front), 1);
      ShiftedTwice(Multiple(a), n, 1);
      PlusAssoc(Shifted(Multiple(a), |b|), Shifted(Multiple(front), 1), last);
    }
  }

  lemma PlusAssoc(p: Poly, q: Poly, r: Poly)
    ensures Plus(Plus(p, q), r) == Plus(p, Plus(q, r))
  {
  }

  // ---------- The register ----------

  predicate Bit(v: bv32, i: nat) {
    Odd(ShiftRight(v, i))
  }

  lemma OddXor(a: bv32, b: bv32)
    ensures Odd(Add(a, b)) <==> Odd(a) != Odd(b)
  {
    XorLow(a, b);
    LowBit(a);
    LowBit(b);
  }

  lemma HalfXor(a: bv32, b: bv32)
    ensures Half(Add(a, b)) == Add(Half(a), Half(b))
  {
    XorShift(a, b);
  }

  lemma {:induction false} BitOfXor(a: bv32, b: bv32, i: nat)
    ensures Bit(Add(a, b), i) <==> Bit(a, i) != Bit(b, i)
    decreases i
  {
    hide Add, Odd, Half;
    if i == 0 {
      OddXor(a, b);
    } else {
      HalfXor(a, b);
      BitOfXor(Half(a), Half(b), i - 1);
    }
  }

  lemma {:induction false} NothingRight(i: nat)
    ensures ShiftRight(0, i) == 0
    decreases i
  {
    if i > 0 { NothingRight(i - 1); }
  }

  lemma NoHighBits(v: bv32)
    ensures !Bit(v, 32)
  {
    RightsOut(v);
  }

  predicate Term(c: bv32, e: nat) {
    e < 32 && Bit(c, 31 - e)
  }

  /** A register as a polynomial: its lowest bit is the highest power. */
  function Held(c: bv32): Poly {
    set e: nat | 0 <= e < 32 && Term(c, e)
  }

  lemma HeldXor(a: bv32, b: bv32)
    ensures Held(Add(a, b)) == Plus(Held(a), Held(b))
  {
    forall e: nat | e < 32 ensures Term(Add(a, b), e) <==> Term(a, e) != Term(b, e) {
      BitOfXor(a, b, 31 - e);
    }
  }

  /** Four bits of v, when what is shifted to the right by k is w. */
  lemma Nibble(v: bv32, k: nat, w: bv32)
    requires ShiftRight(v, k) == w
    ensures ShiftRight(v, k + 4) == w >> 4
    ensures (Bit(v, k) <==> w & 1 == 1) && (Bit(v, k + 1) <==> w & 2 == 2)
    ensures (Bit(v, k + 2) <==> w & 4 == 4) && (Bit(v, k + 3) <==> w & 8 == 8)
  {
    RightAdd(v, k, 1);
    RightAdd(v, k, 2);
    RightAdd(v, k, 3);
    RightAdd(v, k, 4);
    NibbleOf(w, 1);
  }

  lemma NibbleOf(w: bv32, n: nat)
    requires n == 1
    ensures ShiftRight(w, n) == w >> 1 && ShiftRight(w, n + 1) == w >> 2
    ensures ShiftRight(w, n + 2) == w >> 3 && ShiftRight(w, n + 3) == w >> 4
    ensures (Odd(w >> 1) <==> w & 2 == 2) && (Odd(w >> 2) <==> w & 4 == 4) && (Odd(w >> 3) <==> w & 8 == 8)
  {
    assert ShiftRight(w, n) == ShiftRight(Half(w), n - 1);
    Right2(w, 2);
    Right4(w, 4);
    assert ShiftRight(w, n + 2) == ShiftRight(Half(w), n + 1);
    Right2(Half(w), 2);
    assert (w >> 1) >> 2 == w >> 3;
    OddAt(w);
  }

  lemma OddAt(w: bv32)
    ensures (Odd(w >> 1) <==> w & 2 == 2) && (Odd(w >> 2) <==> w & 4 == 4) && (Odd(w >> 3) <==> w & 8 == 8)
  {
  }

  /** A register and the generator agree on the terms from `from` to n. */
  predicate SameTerms(v: bv32, from: nat, n: nat)
    decreases n
  {
    n <= from || (SameTerms(v, from, n - 1) && (Term(v, n - 1) <==> n - 1 in GENERATOR))
  }

  lemma {:induction false} SameTerm(v: bv32, from: nat, n: nat, e: nat)
    requires SameTerms(v, from, n) && from <= e < n
    ensures Term(v, e) <==> e in GENERATOR
    decreases n
  {
    if e < n - 1 { SameTerm(v, from, n - 1, e); }
  }

  lemma TopBits(v: bv32)
    requires v == POLY
    ensures ShiftRight(v, 8) == 0xed_b883
    ensures !Bit(v, 0) && !Bit(v, 1) && !Bit(v, 2) && !Bit(v, 3)
    ensures !Bit(v, 4) && Bit(v, 5) && !Bit(v, 6) && !Bit(v, 7)
  {
    hide Bit, ShiftRight;
    assert ShiftRight(v, 0) == v by { NoShift(v); }
    Nibble(v, 0, v);
    Nibble(v, 4, 0x0edb_8832);
  }

  lemma NoShift(v: bv32)
    ensures ShiftRight(v, 0) == v
  {
  }

  lemma TopTerms(v: bv32)
    requires !Bit(v, 0) && !Bit(v, 1) && !Bit(v, 2) && !Bit(v, 3)
    requires !Bit(v, 4) && Bit(v, 5) && !Bit(v, 6) && !Bit(v, 7)
    ensures SameTerms(v, 24, 32)
  {
    hide Bit;
    assert SameTerms(v, 24, 28);
  }

  lemma HighTerms(v: bv32)
    requires ShiftRight(v, 8) == 0xed_b883
    ensures ShiftRight(v, 16) == 0xedb8
    ensures SameTerms(v, 16, 24)
  {
    Nibble(v, 8, 0x00ed_b883);
    Nibble(v, 12, 0x000e_db88);
    assert SameTerms(v, 16, 20);
  }

  lemma MiddleTerms(v: bv32)
    requires ShiftRight(v, 16) == 0xedb8
    ensures ShiftRight(v, 24) == 0xed
    ensures SameTerms(v, 8, 16)
  {
    Nibble(v, 16, 0xedb8);
    Nibble(v, 20, 0x0edb);
    assert SameTerms(v, 8, 12);
  }

  lemma LowTerms(v: bv32)
    requires ShiftRight(v, 24) == 0xed
    ensures SameTerms(v, 0, 8)
  {
    Nibble(v, 24, 0xed);
    Nibble(v, 28, 0xe);
    assert SameTerms(v, 0, 4);
  }

  /** The pattern has the terms of the generator but for the highest. */
  lemma PolyIsGenerator()
    ensures Held(POLY) == GENERATOR - {32}
  {
    var v := POLY;
    TopBits(v);
    TopTerms(v);
    HighTerms(v);
    MiddleTerms(v);
    LowTerms(v);
    forall e: nat | e < 32 ensures Term(v, e) <==> e in GENERATOR {
      if e < 8 {
        SameTerm(v, 0, 8, e);
      } else if e < 16 {
        SameTerm(v, 8, 16, e);
      } else if e < 24 {
        SameTerm(v, 16, 24, e);
      } else {
        SameTerm(v, 24, 32, e);
      }
    }
  }

  // ---------- Zero bits and bytes ----------

  lemma StepIs(c: bv32)
    ensures Step1(c) == if Odd(c) then Add(POLY, Half(c)) else Half(c)
  {
  }

  lemma HeldStep(c: bv32, e: nat)
    requires e < 32
    ensures Term(Step1(c), e) <==> (e > 0 && Term(c, e - 1)) != (Odd(c) && Term(POLY, e))
  {
    NoHighBits(c);
    StepIs(c);
    hide Step1, Odd, Half;
    if Odd(c) {
      BitOfXor(POLY, Half(c), 31 - e);
    }
    assert Bit(Half(c), 31 - e) == Bit(c, 32 - e);
  }

  /** One zero bit is a multiplication by x, modulo the generator. */
  lemma StepIsTimesX(c: bv32)
    ensures Held(Step1(c)) == Plus(Shifted(Held(c), 1), if Odd(c) then GENERATOR else {})
  {
    PolyIsGenerator();
    var h, g := Held(c), if Odd(c) then GENERATOR else {};
    forall e: nat ensures e in Held(Step1(c)) <==> e in Plus(Shifted(h, 1), g) {
      ShiftedHas(h, 1, e);
      if e < 32 {
        HeldStep(c, e);
        assert Term(POLY, e) <==> e in Held(POLY);
        assert e > 0 ==> (Term(c, e - 1) <==> e - 1 in h);
      } else {
        assert 31 in h <==> Term(c, 31);
      }
    }
  }

  lemma MultipleOne(b: bool)
    ensures Multiple([b]) == if b then GENERATOR else {}
  {
    assert [b][..0] == [];
    assert Shifted({}, 1) == {};
  }

  /** n zero bits multiply by x to the n; q is the quotient. */
  lemma {:induction false} ZerosIsTimes(n: nat, c: bv32) returns (q: seq<bool>)
    ensures |q| == n && Held(Zeros(R(), n, c)) == Plus(Shifted(Held(c), n), Multiple(q))
    decreases n
  {
    if n == 0 {
      q := [];
      ShiftedNone(Held(c));
    } else {
      var rest := ZerosIsTimes(n - 1, Step1(c));
      q := [Odd(c)] + rest;
      var g := Multiple([Odd(c)]);
      StepIsTimesX(c);
      MultipleOne(Odd(c));
      MultipleConcat([Odd(c)], rest);
      ShiftedPlus(Shifted(Held(c), 1), g, n - 1);
      ShiftedTwice(Held(c), 1, n - 1);
      PlusAssoc(Shifted(Held(c), n), Shifted(g, n - 1), Multiple(rest));
    }
  }

  predicate ByteTerm(b: octet, e: nat) {
    e < 8 && Bit(b as bv32, 7 - e)
  }

  /** A byte as a polynomial: its lowest bit comes first and is the highest power. */
  function ByteOf(b: octet): Poly {
    set e: nat | 0 <= e < 8 && ByteTerm(b, e)
  }

  lemma HeldByte(b: octet)
    ensures Held(b as bv32) == Shifted(ByteOf(b), 24)
  {
    var v := b as bv32;
    forall e: nat | e < 32 ensures Term(v, e) <==> e >= 24 && ByteTerm(b, e - 24) {
      if e < 24 {
        Right8(v, 8);
        assert v >> 8 == 0;
        RightAdd(v, 8, 23 - e);
        NothingRight(23 - e);
      }
    }
    forall e: nat ensures e in Held(v) <==> e in Shifted(ByteOf(b), 24) { ShiftedHas(ByteOf(b), 24, e); }
  }

  /** A string as a polynomial, the first byte in the highest powers. */
  function Message(bs: seq<octet>): Poly {
    if bs == [] then {}
    else
      var n := |bs| - 1;
      Plus(Shifted(Message(bs[..n]), 8), ByteOf(bs[n]))
  }

  /** What is divided: the string and what was in the register before, moved up by the bits that follow. */
  function Dividend(c: bv32, bs: seq<octet>): Poly {
    Plus(Shifted(Message(bs), 32), Shifted(Held(c), 8 * |bs|))
  }

  lemma DividendSnoc(c: bv32, bs: seq<octet>)
    requires bs != []
    ensures var n := |bs| - 1;
      Dividend(c, bs) == Plus(Shifted(Dividend(c, bs[..n]), 8), Shifted(ByteOf(bs[n]), 32))
  {
    var n := |bs| - 1;
    var m, h := Message(bs[..n]), Held(c);
    ShiftedPlus(Shifted(m, 8), ByteOf(bs[n]), 32);
    ShiftedTwice(m, 8, 32);
    ShiftedPlus(Shifted(m, 32), Shifted(h, 8 * n), 8);
    ShiftedTwice(m, 32, 8);
    ShiftedTwice(h, 8 * n, 8);
    Regroup(Shifted(m, 40), Shifted(ByteOf(bs[n]), 32), Shifted(h, 8 * |bs|));
  }

  lemma Regroup(a: Poly, b: Poly, c: Poly)
    ensures Plus(Plus(a, b), c) == Plus(Plus(a, c), b)
  {
  }

  lemma FedSnoc(c: bv32, bs: seq<octet>)
    requires bs != []
    ensures var n := |bs| - 1;
      Feed(R(), 8, c, Words(bs)) == Zeros(R(), 8, Add(Feed(R(), 8, c, Words(bs[..n])), bs[n] as bv32))
  {
    var n := |bs| - 1;
    assert bs == bs[..n] + [bs[n]];
    WordsConcat(bs[..n], [bs[n]]);
    LinearRegister.FeedConcat(R(), 8, c, Words(bs[..n]), Words([bs[n]]));
    assert Words([bs[n]]) == [bs[n] as bv32];
    FeedFirst(R(), 8, Feed(R(), 8, c, Words(bs[..n])), bs[n] as bv32, []);
    assert [bs[n] as bv32] + [] == [bs[n] as bv32];
  }

  /** A string into the register leaves the dividend less a multiple of the generator. */
  lemma {:induction false} FedIsDivided(c: bv32, bs: seq<octet>) returns (q: seq<bool>)
    ensures |q| == 8 * |bs|
    ensures Held(Feed(R(), 8, c, Words(bs))) == Plus(Dividend(c, bs), Multiple(q))
    decreases |bs|
  {
    if bs == [] {
      q := [];
      ShiftedNone(Held(c));
      assert Shifted({}, 32) == {};
    } else {
      var n := |bs| - 1;
      var f, b := Feed(R(), 8, c, Words(bs[..n])), bs[n];
      var q1 := FedIsDivided(c, bs[..n]);
      var q2 := ZerosIsTimes(8, Add(f, b as bv32));
      q := q1 + q2;
      FedSnoc(c, bs);
      ByteMore(f, b, Dividend(c, bs[..n]), q1, q2);
      DividendSnoc(c, bs);
    }
  }

  lemma ByteMore(f: bv32, b: octet, d: Poly, q1: seq<bool>, q2: seq<bool>)
    requires Held(f) == Plus(d, Multiple(q1)) && |q2| == 8
    ensures Plus(Shifted(Held(Add(f, b as bv32)), 8), Multiple(q2))
         == Plus(Plus(Shifted(d, 8), Shifted(ByteOf(b), 32)), Multiple(q1 + q2))
  {
    HeldXor(f, b as bv32);
    HeldByte(b);
    ShiftedPlus(Held(f), Held(b as bv32), 8);
    ShiftedTwice(ByteOf(b), 24, 8);
    ShiftedPlus(d, Multiple(q1), 8);
    MultipleConcat(q1, q2);
    FourTerms(Shifted(d, 8), Shifted(Multiple(q1), 8), Shifted(ByteOf(b), 32), Multiple(q2));
  }

  lemma FourTerms(a: Poly, b: Poly, c: Poly, d: Poly)
    ensures Plus(Plus(Plus(a, b), c), d) == Plus(Plus(a, c), Plus(b, d))
  {
  }

  // ---------- The remainder ----------

  /** r is what is left of p, and of a lower degree than the generator. */
  ghost predicate IsRemainder(r: Poly, p: Poly) {
    Low(r) && exists q :: r == Plus(p, Multiple(q))
  }

  predicate Low(r: Poly) {
    forall e :: e in r ==> e < 32
  }

  /** The degree of a multiple. */
  lemma {:induction false} MultipleDegree(q: seq<bool>)
    ensures forall e :: e in Multiple(q) ==> e < 32 + |q|
    ensures q != [] && q[0] ==> 31 + |q| in Multiple(q)
    decreases |q|
  {
    if q != [] {
      var n := |q| - 1;
      MultipleDegree(q[..n]);
      forall e: nat ensures e in Shifted(Multiple(q[..n]), 1) <==> e > 0 && e - 1 in Multiple(q[..n]) {
        ShiftedHas(Multiple(q[..n]), 1, e);
      }
    }
  }

  /** Only zero is a multiple of a lower degree than the generator. */
  lemma {:induction false} LowMultiple(q: seq<bool>)
    requires Low(Multiple(q))
    ensures Multiple(q) == {}
    decreases |q|
  {
    if q != [] {
      MultipleDegree(q);
      MultipleConcat([q[0]], q[1..]);
      assert [q[0]] + q[1..] == q;
      MultipleOne(q[0]);
      assert Shifted({}, |q| - 1) == {};
      LowMultiple(q[1..]);
    }
  }

  lemma {:induction false} MultipleOfFalse(k: nat, q: seq<bool>)
    ensures Multiple(seq(k, i => false) + q) == Multiple(q)
    decreases k
  {
    if k == 0 {
      assert seq(k, i => false) + q == q;
    } else {
      MultipleOfFalse(k - 1, q);
      var rest := seq(k - 1, i => false) + q;
      assert seq(k, i => false) + q == [false] + rest;
      MultipleConcat([false], rest);
      MultipleOne(false);
      assert Shifted({}, |rest|) == {};
    }
  }

  lemma {:induction false} MultiplesAdd(a: seq<bool>, b: seq<bool>) returns (c: seq<bool>)
    requires |a| == |b|
    ensures |c| == |a| && Multiple(c) == Plus(Multiple(a), Multiple(b))
    decreases |a|
  {
    c := [];
    if a != [] {
      var n := |a| - 1;
      var front := MultiplesAdd(a[..n], b[..n]);
      c := front + [a[n] != b[n]];
      assert c[..n] == front;
      ShiftedPlus(Multiple(a[..n]), Multiple(b[..n]), 1);
    }
  }

  /** There is one remainder only. */
  lemma OneRemainder(r: Poly, s: Poly, p: Poly)
    requires IsRemainder(r, p) && IsRemainder(s, p)
    ensures r == s
  {
    var a :| r == Plus(p, Multiple(a));
    var b :| s == Plus(p, Multiple(b));
    MultipleOfFalse(|b|, a);
    MultipleOfFalse(|a|, b);
    var c := MultiplesAdd(seq(|b|, i => false) + a, seq(|a|, i => false) + b);
    hide Multiple;
    SameLess(r, s, p, Multiple(a), Multiple(b));
    LowMultiple(c);
  }

  lemma SameLess(r: Poly, s: Poly, p: Poly, a: Poly, b: Poly)
    requires r == Plus(p, a) && s == Plus(p, b)
    ensures Plus(a, b) == Plus(r, s) && (Plus(r, s) == {} ==> r == s)
    ensures Low(r) && Low(s) ==> Low(Plus(r, s))
  {
  }

  /**
    The CRC that continues one of value crc is the complement of a remainder: that of the string,
    moved up by 32 bits, and of the complement of crc in front of it.
    */
  lemma CrcIsRemainder(crc: bv32, bs: seq<octet>, r: Poly)
    ensures IsRemainder(r, Dividend(Add(crc, ONES), bs)) <==> r == Held(Add(CrcFrom(crc, bs), ONES))
  {
    var c := Add(crc, ONES);
    var f := Feed(R(), 8, c, Words(bs));
    var q := FedIsDivided(c, bs);
    assert Add(Add(f, ONES), ONES) == f by { TwiceOnes(f); }
    assert IsRemainder(Held(f), Dividend(c, bs));
    if IsRemainder(r, Dividend(c, bs)) { OneRemainder(r, Held(f), Dividend(c, bs)); }
  }

  lemma TwiceOnes(f: bv32)
    ensures Add(Add(f, ONES), ONES) == f
  {
  }

  predicate AllOnes(v: bv32, n: nat)
    decreases n, v
  {
    n == 0 || (Odd(v) && AllOnes(Half(v), n - 1))
  }

  lemma {:induction false} OneOfOnes(v: bv32, n: nat, i: nat)
    requires AllOnes(v, n) && i < n
    ensures Bit(v, i)
    decreases n
  {
    if i > 0 { OneOfOnes(Half(v), n - 1, i - 1); }
  }

  /** The complement of zero in front of a string: 32 bits, all set. */
  lemma HeldOnes()
    ensures forall e: nat :: e in Held(ONES) <==> e < 32
  {
    assert AllOnes(0xf, 4);
    assert AllOnes(0xff, 8);
    assert AllOnes(0xfff, 12);
    assert AllOnes(0xffff, 16);
    assert AllOnes(0xf_ffff, 20);
    assert AllOnes(0xff_ffff, 24);
    assert AllOnes(0xfff_ffff, 28);
    assert AllOnes(ONES, 32);
    forall e: nat | e < 32 ensures Term(ONES, e) { OneOfOnes(ONES, 32, 31 - e); }
  }

  // ---------- The check value ----------

  /** Eight zero bits. */
  function Eight(c: bv32): bv32 {
    Step1(Step1(Step1(Step1(Step1(Step1(Step1(Step1(c))))))))
  }

  lemma EightIs(c: bv32, n: nat)
    requires n == 8
    ensures Zeros(R(), n, c) == Eight(c)
  {
    var c1 := Step1(c);
    var c2 := Step1(c1);
    var c3 := Step1(c2);
    var c4 := Step1(c3);
    var c5 := Step1(c4);
    var c6 := Step1(c5);
    var c7 := Step1(c6);
    assert Zeros(R(), n, c) == Zeros(R(), n - 1, c1) == Zeros(R(), n - 2, c2);
    assert Zeros(R(), n - 2, c2) == Zeros(R(), n - 3, c3) == Zeros(R(), n - 4, c4);
    assert Zeros(R(), n - 4, c4) == Zeros(R(), n - 5, c5) == Zeros(R(), n - 6, c6);
    assert Zeros(R(), n - 6, c6) == Zeros(R(), n - 7, c7) == Zeros(R(), n - 8, Step1(c7));
  }
  lemma NextByte(c: bv32, bs: seq<octet>, i: nat, d: bv32)
    requires i < |bs| && Eight(Add(c, bs[i] as bv32)) == d
    ensures Fed(c, bs[i..]) == Fed(d, bs[i + 1..])
  {
    hide Eight, Fed, Add;
    EightIs(Add(c, bs[i] as bv32), 8);
    FedFirst(c, bs, i);
  }

  lemma ThreeBytes(bs: seq<octet>)
    requires |bs| == 9 && bs[0] == 0x31 && bs[1] == 0x32 && bs[2] == 0x33
    ensures Fed(0xffff_ffff, bs) == Fed(0x77b7_9c2d, bs[3..])
  {
    hide Fed;
    assert bs[0..] == bs;
    NextByte(0xffff_ffff, bs, 0, 0x7c23_1048);
    NextByte(0x7c23_1048, bs, 1, 0xb0ac_bb32);
    NextByte(0xb0ac_bb32, bs, 2, 0x77b7_9c2d);
  }

  lemma SixBytes(bs: seq<octet>)
    requires |bs| == 9 && bs[3] == 0x34 && bs[4] == 0x35 && bs[5] == 0x36
    ensures Fed(0x77b7_9c2d, bs[3..]) == Fed(0xf68d_2c9e, bs[6..])
  {
    hide Fed;
    NextByte(0x77b7_9c2d, bs, 3, 0x641c_1f5c);
    NextByte(0x641c_1f5c, bs, 4, 0x340a_c5e3);
    NextByte(0x340a_c5e3, bs, 5, 0xf68d_2c9e);
  }

  lemma LastBytes(bs: seq<octet>)
    requires |bs| == 9 && bs[6] == 0x37 && bs[7] == 0x38 && bs[8] == 0x39
    ensures Fed(0xf68d_2c9e, bs[6..]) == 0x340b_c6d9
  {
    hide Fed;
    NextByte(0xf68d_2c9e, bs, 6, 0xaffc_9660);
    NextByte(0xaffc_9660, bs, 7, 0x651f_2550);
    NextByte(0x651f_2550, bs, 8, 0x340b_c6d9);
    FedNothing(0x340b_c6d9, bs, 9);
  }

  /** The CRC of the digits 1 to 9 in ASCII. */
  lemma CheckValue(bs: seq<octet>)
    requires bs == [0x31, 0x32, 0x33, 0x34, 0x35, 0x36, 0x37, 0x38, 0x39]
    ensures Crc32(bs) == 0xcbf4_3926
  {
    hide Fed;
    ThreeBytes(bs);
    SixBytes(bs);
    LastBytes(bs);
    CrcFromIs(0, bs);
    Complements();
  }

  lemma Complements()
    ensures Add(0, ONES) == 0xffff_ffff && Add(0x340b_c6d9, ONES) == 0xcbf4_3926
  {
  }
}
