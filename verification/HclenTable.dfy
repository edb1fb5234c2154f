/** An entry of the code length code table, hclen_t of lib/nx_dhtgen.c. */
module HclenType {
  datatype Hclen = Hclen(nbits: nat, code: nat)
}

/**
  The hard-coded code length code of encode_hclen in lib/nx_dhtgen.c, and the
  proof that it is the canonical code of its own lengths.
  */
module HclenTable {
  import opened Bits
  import opened Canonical
  import opened DhtFormat
  import opened HclenType

  /** The hard-coded code length code: bit count and bit-reversed code of each symbol. */
  const TAB: seq<Hclen> := [
    Hclen(5, 0x3), Hclen(7, 0x3f), Hclen(6, 0xf), Hclen(5, 0x13), Hclen(5, 0xb),
    Hclen(4, 0x1), Hclen(4, 0x9), Hclen(3, 0x0), Hclen(3, 0x4), Hclen(3, 0x2),
    Hclen(3, 0x6), Hclen(4, 0x5), Hclen(5, 0x1b), Hclen(5, 0x7), Hclen(4, 0xd),
    Hclen(7, 0x7f), Hclen(6, 0x2f), Hclen(5, 0x17), Hclen(6, 0x1f)]

  /** The code lengths of TAB. */
  const CL: seq<nat> := [5, 7, 6, 5, 5, 4, 4, 3, 3, 3, 3, 4, 5, 5, 4, 7, 6, 5, 6]

  lemma Hard3()
    ensures Count(CL, 3) == 4
    ensures Rank(CL, 7) == 0 && Rank(CL, 8) == 1 && Rank(CL, 9) == 2 && Rank(CL, 10) == 3
  {
    CountGap(CL, 0, 7, 3);
    CountStep(CL, 7, 3);
    CountStep(CL, 8, 3);
    CountStep(CL, 9, 3);
    CountStep(CL, 10, 3);
    CountGap(CL, 11, 19, 3);
    assert CL[..19] == CL;
  }

  lemma Hard4()
    ensures Count(CL, 4) == 4
    ensures Rank(CL, 5) == 0 && Rank(CL, 6) == 1 && Rank(CL, 11) == 2 && Rank(CL, 14) == 3
  {
    CountGap(CL, 0, 5, 4);
    CountStep(CL, 5, 4);
    CountStep(CL, 6, 4);
    CountGap(CL, 7, 11, 4);
    CountStep(CL, 11, 4);
    CountGap(CL, 12, 14, 4);
    CountStep(CL, 14, 4);
    CountGap(CL, 15, 19, 4);
    assert CL[..19] == CL;
  }

  lemma Hard5()
    ensures Count(CL, 5) == 6
    ensures Rank(CL, 0) == 0 && Rank(CL, 3) == 1 && Rank(CL, 4) == 2 && Rank(CL, 12) == 3 && Rank(CL, 13) == 4
    ensures Rank(CL, 17) == 5
  {
    CountStep(CL, 0, 5);
    CountGap(CL, 1, 3, 5);
    CountStep(CL, 3, 5);
    CountStep(CL, 4, 5);
    CountGap(CL, 5, 12, 5);
    CountStep(CL, 12, 5);
    CountStep(CL, 13, 5);
    CountGap(CL, 14, 17, 5);
    CountStep(CL, 17, 5);
    CountGap(CL, 18, 19, 5);
    assert CL[..19] == CL;
  }

  lemma Hard6()
    ensures Count(CL, 6) == 3
    ensures Rank(CL, 2) == 0 && Rank(CL, 16) == 1 && Rank(CL, 18) == 2
  {
    CountGap(CL, 0, 2, 6);
    CountStep(CL, 2, 6);
    CountGap(CL, 3, 16, 6);
    CountStep(CL, 16, 6);
    CountGap(CL, 17, 18, 6);
    CountStep(CL, 18, 6);
    assert CL[..19] == CL;
  }

  lemma Hard7()
    ensures Count(CL, 7) == 2
    ensures Rank(CL, 1) == 0 && Rank(CL, 15) == 1
  {
    CountGap(CL, 0, 1, 7);
    CountStep(CL, 1, 7);
    CountGap(CL, 2, 15, 7);
    CountStep(CL, 15, 7);
    CountGap(CL, 16, 19, 7);
    assert CL[..19] == CL;
  }

  lemma HardBases()
    ensures Base(CL, 3) == 0 && Base(CL, 4) == 8 && Base(CL, 5) == 24
    ensures Base(CL, 6) == 60 && Base(CL, 7) == 126
  {
    assert CL[..19] == CL;
    CountGap(CL, 0, 19, 1);
    CountGap(CL, 0, 19, 2);
    Hard3();
    Hard4();
    Hard5();
    Hard6();
    assert Base(CL, 0) == 0 && Base(CL, 1) == 0 && Base(CL, 2) == 0;
    assert Base(CL, 3) == 0 && Base(CL, 4) == 8;
    assert Base(CL, 5) == 24 && Base(CL, 6) == 60;
  }

  /** The canonical codes of the lengths CL, most significant bit first. */
  const CODE: seq<nat> := [24, 126, 60, 25, 26, 8, 9, 0, 1, 2, 3, 10, 27, 28, 11, 127, 61, 29, 62]

  lemma HardCodes(i: nat)
    requires i < CODES
    ensures Code(CL, i) == CODE[i]
  {
    HardBases();
    Hard3();
    Hard4();
    Hard5();
    Hard6();
    Hard7();
  }

  lemma Reverse3(b0: nat, b1: nat, b2: nat, n: nat, r: nat)
    requires b0 < 2 && b1 < 2 && b2 < 2
    ensures Reversal(b0 + 2 * b1 + 4 * b2, n + 3, r) == Reversal(0, n, 8 * r + 4 * b0 + 2 * b1 + b2)
  {
    ReversalStep(b1 + 2 * b2, b0, n + 2, r);
    ReversalStep(b2, b1, n + 1, 2 * r + b0);
    ReversalStep(0, b2, n, 4 * r + 2 * b0 + b1);
  }

  lemma Reverse4(b0: nat, b1: nat, b2: nat, b3: nat, n: nat, r: nat)
    requires b0 < 2 && b1 < 2 && b2 < 2 && b3 < 2
    ensures Reversal(b0 + 2 * b1 + 4 * b2 + 8 * b3, n + 4, r)
         == Reversal(0, n, 16 * r + 8 * b0 + 4 * b1 + 2 * b2 + b3)
  {
    ReversalStep(b1 + 2 * b2 + 4 * b3, b0, n + 3, r);
    Reverse3(b1, b2, b3, n, 2 * r + b0);
  }

  lemma Reverse5(b0: nat, b1: nat, b2: nat, b3: nat, b4: nat, n: nat, r: nat)
    requires b0 < 2 && b1 < 2 && b2 < 2 && b3 < 2 && b4 < 2
    ensures Reversal(b0 + 2 * b1 + 4 * b2 + 8 * b3 + 16 * b4, n + 5, r)
         == Reversal(0, n, 32 * r + 16 * b0 + 8 * b1 + 4 * b2 + 2 * b3 + b4)
  {
    ReversalStep(b1 + 2 * b2 + 4 * b3 + 8 * b4, b0, n + 4, r);
    Reverse4(b1, b2, b3, b4, n, 2 * r + b0);
  }

  lemma Reverse6(b0: nat, b1: nat, b2: nat, b3: nat, b4: nat, b5: nat, n: nat, r: nat)
    requires b0 < 2 && b1 < 2 && b2 < 2 && b3 < 2 && b4 < 2 && b5 < 2
    ensures Reversal(b0 + 2 * b1 + 4 * b2 + 8 * b3 + 16 * b4 + 32 * b5, n + 6, r)
         == Reversal(0, n, 64 * r + 32 * b0 + 16 * b1 + 8 * b2 + 4 * b3 + 2 * b4 + b5)
  {
    ReversalStep(b1 + 2 * b2 + 4 * b3 + 8 * b4 + 16 * b5, b0, n + 5, r);
    Reverse5(b1, b2, b3, b4, b5, n, 2 * r + b0);
  }

  lemma Reverse7(b0: nat, b1: nat, b2: nat, b3: nat, b4: nat, b5: nat, b6: nat, n: nat, r: nat)
    requires b0 < 2 && b1 < 2 && b2 < 2 && b3 < 2 && b4 < 2 && b5 < 2 && b6 < 2
    ensures Reversal(b0 + 2 * b1 + 4 * b2 + 8 * b3 + 16 * b4 + 32 * b5 + 64 * b6, n + 7, r)
         == Reversal(0, n, 128 * r + 64 * b0 + 32 * b1 + 16 * b2 + 8 * b3 + 4 * b4 + 2 * b5 + b6)
  {
    ReversalStep(b1 + 2 * b2 + 4 * b3 + 8 * b4 + 16 * b5 + 32 * b6, b0, n + 6, r);
    Reverse6(b1, b2, b3, b4, b5, b6, n, 2 * r + b0);
  }

  lemma HardReversals0(i: nat, z: nat)
    requires 0 <= i < 5 && z == 0
    ensures Reversal(CODE[i], CL[i], 0) == TAB[i].code
  {
    match i {
      case 0 => Reverse5(0, 0, 0, 1, 1, z, 0);
      case 1 => Reverse7(0, 1, 1, 1, 1, 1, 1, z, 0);
      case 2 => Reverse6(0, 0, 1, 1, 1, 1, z, 0);
      case 3 => Reverse5(1, 0, 0, 1, 1, z, 0);
      case _ => Reverse5(0, 1, 0, 1, 1, z, 0);
    }
  }

  lemma HardReversals5(i: nat, z: nat)
    requires 5 <= i < 9 && z == 0
    ensures Reversal(CODE[i], CL[i], 0) == TAB[i].code
  {
    match i {
      case 5 => Reverse4(0, 0, 0, 1, z, 0);
      case 6 => Reverse4(1, 0, 0, 1, z, 0);
      case 7 => Reverse3(0, 0, 0, z, 0);
      case _ => Reverse3(1, 0, 0, z, 0);
    }
  }

  lemma HardReversals9(i: nat, z: nat)
    requires 9 <= i < 13 && z == 0
    ensures Reversal(CODE[i], CL[i], 0) == TAB[i].code
  {
    match i {
      case 9 => Reverse3(0, 1, 0, z, 0);
      case 10 => Reverse3(1, 1, 0, z, 0);
      case 11 => Reverse4(0, 1, 0, 1, z, 0);
      case _ => Reverse5(1, 1, 0, 1, 1, z, 0);
    }
  }

  lemma HardReversals13(i: nat, z: nat)
    requires 13 <= i < 16 && z == 0
    ensures Reversal(CODE[i], CL[i], 0) == TAB[i].code
  {
    match i {
      case 13 => Reverse5(0, 0, 1, 1, 1, z, 0);
      case 14 => Reverse4(1, 1, 0, 1, z, 0);
      case _ => Reverse7(1, 1, 1, 1, 1, 1, 1, z, 0);
    }
  }

  lemma HardReversals16(i: nat, z: nat)
    requires 16 <= i < 19 && z == 0
    ensures Reversal(CODE[i], CL[i], 0) == TAB[i].code
  {
    match i {
      case 16 => Reverse6(1, 0, 1, 1, 1, 1, z, 0);
      case 17 => Reverse5(1, 0, 1, 1, 1, z, 0);
      case _ => Reverse6(0, 1, 1, 1, 1, 1, z, 0);
    }
  }

  lemma HardReversals(i: nat)
    requires i < CODES
    ensures Reversal(CODE[i], CL[i], 0) == TAB[i].code
  {
    if
    case i < 5 => HardReversals0(i, 0);
    case 5 <= i < 9 => HardReversals5(i, 0);
    case 9 <= i < 13 => HardReversals9(i, 0);
    case 13 <= i < 16 => HardReversals13(i, 0);
    case 16 <= i => HardReversals16(i, 0);
  }

  /** The hard-coded table is the canonical code of its own lengths. */
  lemma TabIsCanonical(i: nat)
    requires i < CODES
    ensures TAB[i].nbits == CL[i]
    ensures FromBits(CodeBits(CL, i)) == TAB[i].code
    ensures ToBits(TAB[i].code, TAB[i].nbits) == CodeBits(CL, i)
  {
    HardCodes(i);
    HardReversals(i);
    ReversalOfMsb(CODE[i], CL[i], []);
    assert CodeBits(CL, i) + [] == CodeBits(CL, i);
    ToFromBits(CodeBits(CL, i));
  }

  /** The hard-coded code is complete. */
  lemma TabIsComplete()
    ensures AtMost(CL, 7) && KraftSum(CL, 7) == Pow2(7)
  {
    HardBases();
    Hard7();
    assert forall i :: 0 <= i < CODES ==> CL[i] <= 7;
    BaseIsKraft(CL, 7);
    KraftSums(CL, 7);
    assert Pow2(7) == 128;
  }
}
