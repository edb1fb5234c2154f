/** Adler-32 of lib/nx_adler32.c: deferred reduction, and the checksum of a concatenation. */
module Adler {
  import Bits
  import opened Buffers

  /** The largest prime below 65536. */
  const BASE := 65521

  const NMAX := 5552

  datatype Sums = Sums(s1: nat, s2: nat)

  /** Section 8.2 of RFC 1950: both sums are reduced at every byte. */
  function Update(s: Sums, bs: seq<byte>): Sums
    decreases |bs|
  {
    if bs == [] then s
    else
      var s1 := (s.s1 + bs[0] as nat) % BASE;
      Update(Sums(s1, (s.s2 + s1) % BASE), bs[1..])
  }

  predicate Reduced(s: Sums) {
    s.s1 < BASE && s.s2 < BASE
  }

  function Pack(s: Sums): nat {
    s.s1 + s.s2 * 0x1_0000
  }

  function Unpack(adler: nat): (s: Sums)
  {
    Sums(adler % 0x1_0000, adler / 0x1_0000 % 0x1_0000)
  }

  lemma Unpacks(s: Sums)
    requires Reduced(s)
    ensures Unpack(Pack(s)) == s
  {
  }

  /** The checksum that continues one of value adler. */
  function AdlerFrom(adler: nat, bs: seq<byte>): nat {
    Pack(Update(Unpack(adler), bs))
  }

  function Adler32(bs: seq<byte>): nat {
    AdlerFrom(1, bs)
  }

  // ---------- The sums without reduction ----------

  function Raw(s: Sums, bs: seq<byte>): Sums
    decreases |bs|
  {
    if bs == [] then s else Raw(Sums(s.s1 + bs[0] as nat, s.s2 + s.s1 + bs[0] as nat), bs[1..])
  }

  function Mod(s: Sums): (r: Sums)
    ensures Reduced(r)
  {
    Sums(s.s1 % BASE, s.s2 % BASE)
  }

  lemma ModIs(a: int, b: int, k: int)
    requires a == b + k * BASE
    ensures a % BASE == b % BASE
  {
  }

  lemma ModOfSum(a: nat, b: nat)
    ensures (a % BASE + b) % BASE == (a + b) % BASE && (a + b % BASE) % BASE == (a + b) % BASE
  {
    ModIs(a + b, a % BASE + b, a / BASE);
    ModIs(a + b, a + b % BASE, b / BASE);
  }

  /** Reducing at the end gives what reducing at every byte gives. */
  lemma {:induction false} ReduceOnce(s: Sums, bs: seq<byte>)
    ensures Update(Mod(s), bs) == Mod(Raw(s, bs))
    decreases |bs|
  {
    if bs != [] {
      var b := bs[0] as nat;
      ModOfSum(s.s1, b);
      ModOfSum(s.s2, (s.s1 + b) % BASE);
      ModOfSum(s.s2, s.s1 + b);
      ReduceOnce(Sums(s.s1 + b, s.s2 + s.s1 + b), bs[1..]);
    }
  }

  lemma ReducedIsMod(s: Sums)
    requires Reduced(s)
    ensures Mod(s) == s
  {
  }

  // ---------- Blocks ----------

  lemma {:induction false} RawConcat(s: Sums, a: seq<byte>, b: seq<byte>)
    ensures Raw(s, a + b) == Raw(Raw(s, a), b)
    decreases |a|
  {
    if a == [] {
      assert a + b == b;
    } else {
      assert (a + b)[1..] == a[1..] + b;
      RawConcat(Sums(s.s1 + a[0] as nat, s.s2 + s.s1 + a[0] as nat), a[1..], b);
    }
  }

  lemma {:induction false} UpdateConcat(s: Sums, a: seq<byte>, b: seq<byte>)
    ensures Update(s, a + b) == Update(Update(s, a), b)
    decreases |a|
  {
    if a == [] {
      assert a + b == b;
    } else {
      assert (a + b)[1..] == a[1..] + b;
      var s1 := (s.s1 + a[0] as nat) % BASE;
      UpdateConcat(Sums(s1, (s.s2 + s1) % BASE), a[1..], b);
    }
  }

  /** The sums after n bytes of the largest value. */
  function Largest(s: Sums, n: nat): Sums
    decreases n, s.s1
  {
    if n == 0 then s else Largest(Sums(s.s1 + 255, s.s2 + s.s1 + 255), n - 1)
  }

  predicate AtMost(s: Sums, t: Sums) {
    s.s1 <= t.s1 && s.s2 <= t.s2
  }

  lemma {:induction false} RawAtMost(s: Sums, t: Sums, bs: seq<byte>)
    requires AtMost(s, t)
    ensures AtMost(Raw(s, bs), Largest(t, |bs|))
    decreases |bs|
  {
    if bs != [] {
      RawAtMost(Sums(s.s1 + bs[0] as nat, s.s2 + s.s1 + bs[0] as nat), Sums(t.s1 + 255, t.s2 + t.s1 + 255), bs[1..]);
    }
  }

  lemma {:induction false} LargestGrows(t: Sums, m: nat, n: nat)
    requires m <= n
    ensures AtMost(Largest(t, m), Largest(t, n))
    decreases n
  {
    if m > 0 {
      LargestGrows(Sums(t.s1 + 255, t.s2 + t.s1 + 255), m - 1, n - 1);
    } else if n > 0 {
      LargestGrows(Sums(t.s1 + 255, t.s2 + t.s1 + 255), 0, n - 1);
    }
  }

  /** The sum of the numbers up to n. */
  function Triangle(n: nat): nat {
    if n == 0 then 0 else n + Triangle(n - 1)
  }

  lemma {:induction false} TriangleIs(n: nat)
    ensures 2 * Triangle(n) == n * (n + 1)
  {
    if n > 0 {
      TriangleIs(n - 1);
      assert n * (n + 1) == (n - 1) * n + 2 * n;
    }
  }

  lemma {:induction false} LargestIs(t: Sums, n: nat)
    ensures Largest(t, n) == Sums(t.s1 + 255 * n, t.s2 + n * t.s1 + 255 * Triangle(n))
    decreases n
  {
    if n > 0 {
      LargestIs(Sums(t.s1 + 255, t.s2 + t.s1 + 255), n - 1);
      Distribute(n - 1, t.s1);
    } else {
      assert n * t.s1 == 0;
    }
  }

  lemma Distribute(n: nat, a: nat)
    ensures n * (a + 255) == n * a + 255 * n && (n + 1) * a == n * a + a
  {
  }

  /** NMAX bytes at most: neither sum leaves 32 bits. */
  lemma FitsWord(s: Sums, bs: seq<byte>)
    requires Reduced(s) && |bs| <= NMAX
    ensures Words(Raw(s, bs))
  {
    var t := Sums(BASE - 1, BASE - 1);
    RawAtMost(s, t, bs);
    LargestGrows(t, |bs|, NMAX);
    LargestIs(t, NMAX);
    TriangleIs(NMAX);
  }

  /** n bytes of the largest value. */
  function AllLargest(n: nat): (bs: seq<byte>)
    ensures |bs| == n
  {
    if n == 0 then [] else [255] + AllLargest(n - 1)
  }

  lemma {:induction false} RawIsLargest(s: Sums, n: nat)
    ensures Raw(s, AllLargest(n)) == Largest(s, n)
    decreases n
  {
    if n > 0 {
      assert AllLargest(n)[1..] == AllLargest(n - 1);
      RawIsLargest(Sums(s.s1 + 255, s.s2 + s.s1 + 255), n - 1);
    }
  }

  /** One more than NMAX of them are too many, from the largest reduced sums. */
  lemma OneMore(t: Sums, n: nat)
    requires t == Sums(BASE - 1, BASE - 1) && n == NMAX + 1
    ensures Largest(t, n).s2 > 0xffff_ffff
  {
    LargestIs(t, n);
    TriangleIs(n);
  }

  /** Every n bytes may be added without reduction exactly when n is at most NMAX. */
  lemma NMaxIsLargest(n: nat)
    ensures (forall s, bs :: Reduced(s) && |bs| == n ==> Words(Raw(s, bs))) <==> n <= NMAX
  {
    if n <= NMAX {
      forall s, bs | Reduced(s) && |bs| == n ensures Words(Raw(s, bs)) {
        FitsWord(s, bs);
      }
    } else {
      var t := Sums(BASE - 1, BASE - 1);
      OneMore(t, NMAX + 1);
      LargestGrows(t, NMAX + 1, n);
      RawIsLargest(t, n);
      assert !Words(Raw(t, AllLargest(n)));
    }
  }

  /** The sums as 32-bit words hold them. */
  predicate Words(s: Sums) {
    s.s1 <= 0xffff_ffff && s.s2 <= 0xffff_ffff
  }

  /** n bytes added, unreduced: at most NMAX since the last reduction. */
  method AddBytes(s: Sums, buf: seq<byte>, from: nat, n: nat, ghost start: Sums, ghost since: nat) returns (r: Sums)
    requires Reduced(start) && since <= from && from + n <= |buf| && from + n - since <= NMAX
    requires s == Raw(start, buf[since..from])
    ensures r == Raw(start, buf[since..from + n]) && Words(r)
  {
    r := s;
    for i := 0 to n
      invariant r == Raw(start, buf[since..from + i])
    {
      var s1 := r.s1 + buf[from + i] as nat;
      var next := Sums(s1, r.s2 + s1);
      assert next == Raw(r, [buf[from + i]]) by { OneByte(r, buf[from + i]); }
      RawConcat(start, buf[since..from + i], [buf[from + i]]);
      assert buf[since..from + i] + [buf[from + i]] == buf[since..from + i + 1];
      FitsWord(start, buf[since..from + i + 1]);
      r := next;
    }
    FitsWord(start, buf[since..from + n]);
  }

  lemma OneByte(s: Sums, b: byte)
    ensures Raw(s, [b]) == Sums(s.s1 + b as nat, s.s2 + (s.s1 + b as nat))
  {
    var bs := [b];
    assert bs[1..] == [];
  }

  /** One block of NMAX bytes, by sixteens, and one reduction. */
  method Block(s: Sums, buf: seq<byte>, from: nat) returns (r: Sums)
    requires Reduced(s) && from + NMAX <= |buf|
    ensures r == Update(s, buf[from..from + NMAX]) && Reduced(r)
  {
    r := s;
    assert Raw(s, buf[from..from]) == s;
    for n := 0 to NMAX / 16
      invariant r == Raw(s, buf[from..from + 16 * n])
    {
      r := AddBytes(r, buf, from + 16 * n, 16, s, from);
    }
    ReduceOnce(s, buf[from..from + NMAX]);
    ReducedIsMod(s);
    r := Sums(r.s1 % BASE, r.s2 % BASE);
  }

  /** The bytes left over, fewer than NMAX. */
  method Remainder(s: Sums, buf: seq<byte>, from: nat) returns (r: Sums)
    requires Reduced(s) && from <= |buf| < from + NMAX
    ensures r == Update(s, buf[from..])
  {
    r := s;
    var i := from;
    assert Raw(s, buf[from..from]) == s;
    while |buf| - i >= 16
      invariant from <= i <= |buf| && r == Raw(s, buf[from..i])
    {
      r := AddBytes(r, buf, i, 16, s, from);
      i := i + 16;
    }
    r := AddBytes(r, buf, i, |buf| - i, s, from);
    assert buf[from..|buf|] == buf[from..];
    ReduceOnce(s, buf[from..]);
    ReducedIsMod(s);
    r := Sums(r.s1 % BASE, r.s2 % BASE);
  }

  /** A buffer of any length. */
  method Blocks(s: Sums, buf: seq<byte>) returns (r: Sums)
    requires Reduced(s)
    ensures r == Update(s, buf)
  {
    r := s;
    var i := 0;
    while |buf| - i >= NMAX
      invariant 0 <= i <= |buf| && Reduced(r) && r == Update(s, buf[..i])
    {
      r := Block(r, buf, i);
      UpdateConcat(s, buf[..i], buf[i..i + NMAX]);
      assert buf[..i] + buf[i..i + NMAX] == buf[..i + NMAX];
      i := i + NMAX;
    }
    UpdateConcat(s, buf[..i], buf[i..]);
    assert buf[..i] + buf[i..] == buf;
    if i < |buf| {
      r := Remainder(r, buf, i);
    }
  }

  datatype Buffer = Null | Bytes(data: seq<byte>)

  /** A single byte, with one subtraction for each sum. */
  method Single(s: Sums, b: byte) returns (r: Sums)
    requires Reduced(s)
    ensures r == Update(s, [b])
  {
    var s1 := s.s1 + b as nat;
    if s1 >= BASE { s1 := s1 - BASE; }
    var s2 := s.s2 + s1;
    if s2 >= BASE { s2 := s2 - BASE; }
    r := Sums(s1, s2);
    var bs := [b];
    assert bs[1..] == [];
    assert Update(s, bs) == Update(r, []);
  }

  /** Fewer than 16 bytes: the first sum is below twice BASE. */
  method Short(s: Sums, buf: seq<byte>) returns (r: Sums)
    requires Reduced(s) && |buf| < 16
    ensures r == Update(s, buf)
  {
    r := AddBytes(s, buf, 0, |buf|, s, 0);
    assert buf[0..|buf|] == buf;
    ShortSum(s, buf);
    ReduceOnce(s, buf);
    ReducedIsMod(s);
    r := Sums(if r.s1 >= BASE then r.s1 - BASE else r.s1, r.s2 % BASE);
  }

  lemma ShortSum(s: Sums, buf: seq<byte>)
    requires Reduced(s) && |buf| < 16
    ensures Raw(s, buf).s1 < 2 * BASE
  {
    RawAtMost(s, Sums(BASE - 1, BASE - 1), buf);
    LargestIs(Sums(BASE - 1, BASE - 1), |buf|);
  }

  /** nx_adler32 continues any valid checksum by the definition. */
  method NxAdler32(adler: nat, buf: Buffer, len: nat) returns (r: nat)
    requires Reduced(Unpack(adler)) && (buf.Bytes? ==> len == |buf.data|) && (buf.Null? ==> len != 1)
    ensures r == if buf.Null? then 1 else AdlerFrom(adler, buf.data)
  {
    var s := Unpack(adler);
    if len == 1 {
      s := Single(s, buf.data[0]);
      assert buf.data == [buf.data[0]];
      return Pack(s);
    }
    if buf.Null? {
      return 1;
    }
    if len < 16 {
      s := Short(s, buf.data);
    } else {
      s := Blocks(s, buf.data);
    }
    r := Pack(s);
  }

  // ---------- Concatenation ----------

  /** n times d, by additions. */
  function Times(n: nat, d: nat): nat
    decreases n, d
  {
    if n == 0 then 0 else d + Times(n - 1, d)
  }

  lemma {:induction false} TimesIs(n: nat, d: nat)
    ensures Times(n, d) == n * d
    decreases n
  {
    if n > 0 { TimesIs(n - 1, d); }
  }

  /** Other starting values only shift the sums. */
  lemma {:induction false} RawShift(s: Sums, d: nat, e: nat, bs: seq<byte>)
    ensures Raw(Sums(s.s1 + d, s.s2 + e), bs) == Sums(Raw(s, bs).s1 + d, Raw(s, bs).s2 + e + Times(|bs|, d))
    decreases |bs|
  {
    if bs != [] {
      var b := bs[0] as nat;
      RawShift(Sums(s.s1 + b, s.s2 + s.s1 + b), d, e + d, bs[1..]);
    }
  }

  lemma FirstOfTwo(x1: nat, s: nat)
    ensures (x1 + (s + 1) % BASE + BASE - 1) % BASE == (s + x1) % BASE
  {
    ModIs(s + x1, x1 + (s + 1) % BASE + BASE - 1, (s + 1) / BASE - 1);
  }

  lemma MulMod(n: nat, x: nat)
    ensures (n * x) % BASE == (n % BASE * x) % BASE
  {
    var k, r := n / BASE, n % BASE;
    Spread(n, r, k, x);
    ModIs(n * x, r * x, k * x);
  }

  lemma Spread(n: nat, rem: nat, k: nat, x: nat)
    requires n == rem + k * BASE
    ensures n * x == rem * x + k * x * BASE
  {
    assert n * x == rem * x + k * BASE * x;
    assert k * BASE * x == k * x * BASE;
  }

  lemma SecondOfTwo(x2: nat, w: nat, n: nat, p: nat, q: nat)
    requires p % BASE == q % BASE
    ensures (x2 + (w + n) % BASE + q % BASE + BASE - n % BASE) % BASE == (w + x2 + p) % BASE
  {
    ModIs(w + x2 + p, x2 + (w + n) % BASE + q % BASE + BASE - n % BASE, (w + n) / BASE + p / BASE - n / BASE - 1);
  }

  /** The sums of b alone, started at 1 and 0. */
  lemma PartSums(b: seq<byte>)
    ensures var r := Raw(Sums(0, 0), b); Update(Sums(1, 0), b) == Sums((r.s1 + 1) % BASE, (r.s2 + |b|) % BASE)
  {
    RawShift(Sums(0, 0), 1, 0, b);
    ReduceOnce(Sums(1, 0), b);
    ReducedIsMod(Sums(1, 0));
    TimesIs(|b|, 1);
  }

  lemma RawFrom(x: Sums, b: seq<byte>)
    ensures var r := Raw(Sums(0, 0), b); Raw(x, b) == Sums(r.s1 + x.s1, r.s2 + x.s2 + Times(|b|, x.s1))
  {
    RawShift(Sums(0, 0), x.s1, x.s2, b);
    assert x == Sums(0 + x.s1, 0 + x.s2);
  }

  lemma ContinuedSums(x: Sums, b: seq<byte>)
    requires Reduced(x)
    ensures var r := Raw(Sums(0, 0), b);
      Update(x, b) == Sums((r.s1 + x.s1) % BASE, (r.s2 + x.s2 + Times(|b|, x.s1)) % BASE)
  {
    hide Raw, Update, Times, Reduced;
    RawFrom(x, b);
    ReduceOnce(x, b);
    ReducedIsMod(x);
  }

  /** The sums that stand for a string behind another, from those of both and a length. */
  function CombineSums(x: Sums, y: Sums, n: nat): (z: Sums)
    ensures Reduced(z)
  {
    Sums((x.s1 + y.s1 + BASE - 1) % BASE, (x.s2 + y.s2 + n % BASE * x.s1 % BASE + BASE - n % BASE) % BASE)
  }

  function AdlerSums(bs: seq<byte>): Sums {
    Update(Sums(1, 0), bs)
  }

  lemma SumsAreReduced(bs: seq<byte>)
    ensures Reduced(AdlerSums(bs))
  {
    ReduceOnce(Sums(1, 0), bs);
    ReducedIsMod(Sums(1, 0));
  }

  lemma CombineIs(x: Sums, s: nat, w: nat, n: nat, p: nat)
    requires p % BASE == (n % BASE * x.s1) % BASE
    ensures CombineSums(x, Sums((s + 1) % BASE, (w + n) % BASE), n) == Sums((s + x.s1) % BASE, (w + x.s2 + p) % BASE)
  {
    FirstOfTwo(x.s1, s);
    SecondOfTwo(x.s2, w, n, p, n % BASE * x.s1);
  }

  lemma TimesMod(n: nat, x: nat)
    ensures Times(n, x) % BASE == (n % BASE * x) % BASE
  {
    TimesIs(n, x);
    MulMod(n, x);
  }

  lemma CombinedContinues(x: Sums, b: seq<byte>)
    requires Reduced(x)
    ensures CombineSums(x, AdlerSums(b), |b|) == Update(x, b)
  {
    hide Raw, Update;
    var r := Raw(Sums(0, 0), b);
    PartSums(b);
    ContinuedSums(x, b);
    TimesMod(|b|, x.s1);
    CombineIs(x, r.s1, r.s2, |b|, Times(|b|, x.s1));
  }

  /** The sums of a concatenation from those of its parts. */
  lemma Combined(a: seq<byte>, b: seq<byte>)
    ensures CombineSums(AdlerSums(a), AdlerSums(b), |b|) == AdlerSums(a + b)
  {
    SumsAreReduced(a);
    CombinedContinues(AdlerSums(a), b);
    UpdateConcat(Sums(1, 0), a, b);
  }

  lemma AdlerIs(bs: seq<byte>)
    ensures Adler32(bs) == Pack(AdlerSums(bs)) && Unpack(Adler32(bs)) == AdlerSums(bs)
  {
    SumsAreReduced(bs);
    Unpacks(AdlerSums(bs));
    Unpacks(Sums(1, 0));
  }

  lemma CombinedValue(a: seq<byte>, b: seq<byte>)
    ensures Pack(CombineSums(Unpack(Adler32(a)), Unpack(Adler32(b)), |b|)) == Adler32(a + b)
  {
    AdlerIs(a);
    AdlerIs(b);
    AdlerIs(a + b);
    Combined(a, b);
  }

  /** nx_adler32_combine: conditional subtractions stand for the last reduction. */
  method NxAdler32Combine(adler1: nat, adler2: nat, len2: int) returns (r: nat)
    ensures len2 < 0 ==> r == 0xffff_ffff
    ensures len2 >= 0 && Reduced(Unpack(adler1)) && Reduced(Unpack(adler2)) ==>
      r == Pack(CombineSums(Unpack(adler1), Unpack(adler2), len2))
    ensures forall a: seq<byte>, b: seq<byte> ::
      adler1 == Adler32(a) && adler2 == Adler32(b) && len2 == |b| ==> r == Adler32(a + b)
  {
    if len2 < 0 {
      return 0xffff_ffff;
    }
    r := CombineWords(Unpack(adler1), Unpack(adler2), len2 % BASE, len2);
    forall a: seq<byte>, b: seq<byte> | adler1 == Adler32(a) && adler2 == Adler32(b) && len2 == |b|
      ensures r == Adler32(a + b)
    {
      AdlerIs(a);
      AdlerIs(b);
      SumsAreReduced(a);
      SumsAreReduced(b);
      CombinedValue(a, b);
    }
  }

  method CombineWords(x: Sums, y: Sums, rem: nat, ghost n: nat) returns (r: nat)
    requires rem == n % BASE
    ensures Reduced(x) && Reduced(y) ==> r == Pack(CombineSums(x, y, n))
  {
    var sum2 := rem * x.s1 % BASE;
    var z1 := ReduceFirst(x.s1 + (y.s1 + BASE - 1));
    var z2 := ReduceSecond(sum2 + (x.s2 + y.s2 + BASE - rem));
    r := Pack(Sums(z1, z2));
  }

  /** At most three times BASE. */
  method ReduceFirst(sum: nat) returns (r: nat)
    ensures sum < 3 * BASE ==> r == sum % BASE
  {
    r := sum;
    if r >= BASE { r := r - BASE; }
    if r >= BASE { r := r - BASE; }
  }

  /** At most four times BASE. */
  method ReduceSecond(sum: nat) returns (r: nat)
    ensures sum < 4 * BASE ==> r == sum % BASE
  {
    r := sum;
    if r >= 2 * BASE { r := r - 2 * BASE; }
    if r >= BASE { r := r - BASE; }
  }

  // ---------- The base ----------

  /** No number from 2 to n divides the base. */
  predicate NoDivisor(n: nat) {
    n <= 2 || (BASE % (n - 1) != 0 && NoDivisor(n - 1))
  }

  lemma {:induction false} DoesNotDivide(n: nat, d: nat)
    requires 2 <= d < n && NoDivisor(n)
    ensures BASE % d != 0
    decreases n
  {
    if d < n - 1 { DoesNotDivide(n - 1, d); }
  }

  lemma NoneBelow98()
    ensures NoDivisor(98)
  {
    assert NoDivisor(18);
    assert NoDivisor(34);
    assert NoDivisor(50);
    assert NoDivisor(66);
    assert NoDivisor(82);
  }

  lemma NoneBelow178()
    requires NoDivisor(98)
    ensures NoDivisor(178)
  {
    assert NoDivisor(114);
    assert NoDivisor(130);
    assert NoDivisor(146);
    assert NoDivisor(162);
  }

  lemma NoneBelow256()
    requires NoDivisor(178)
    ensures NoDivisor(256)
  {
    assert NoDivisor(194);
    assert NoDivisor(210);
    assert NoDivisor(226);
    assert NoDivisor(242);
  }

  lemma NoSmallDivisor()
    ensures NoDivisor(256)
  {
    NoneBelow98();
    NoneBelow178();
    NoneBelow256();
  }

  ghost predicate Composite(n: nat) {
    exists a: nat, b: nat :: a > 1 && b > 1 && a * b == n
  }

  lemma Factors(a: nat, b: nat)
    requires a > 1 && b > 1
    ensures Composite(a * b)
  {
  }

  lemma MulMono(a: nat, b: nat, k: nat)
    requires a >= k && b >= k
    ensures a * b >= k * k
  {
    assert a * b >= k * b;
  }

  lemma NotAProduct(a: nat, b: nat)
    requires 1 < a < 256
    ensures a * b != BASE
  {
    NoSmallDivisor();
    DoesNotDivide(256, a);
    if a * b == BASE { Bits.DivModUnique(BASE, a, b, 0); }
  }

  /** Section 8.2 of RFC 1950: the base is the largest prime below 65536. */
  lemma BaseIsLargestPrime(n: nat)
    requires 65521 <= n < 65536
    ensures Composite(n) <==> n != BASE
  {
    if n == BASE {
      forall a: nat, b: nat | a > 1 && b > 1 ensures a * b != n {
        assert b * a == a * b;
        if a < 256 {
          NotAProduct(a, b);
        } else if b < 256 {
          NotAProduct(b, a);
        } else {
          MulMono(a, b, 256);
        }
      }
    } else if n % 2 == 0 {
      Factors(2, n / 2);
    } else if n % 3 == 0 {
      Factors(3, n / 3);
    } else {
      Factors(5, 13105);
      Factors(7, 9361);
      Factors(19, 3449);
      Factors(13, 5041);
    }
  }

  // ---------- The check value ----------

  lemma NextSums(s: Sums, bs: seq<byte>, i: nat, t: Sums)
    requires i < |bs| && t == Sums((s.s1 + bs[i] as nat) % 65521, (s.s2 + (s.s1 + bs[i] as nat) % 65521) % 65521)
    ensures Update(s, bs[i..]) == Update(t, bs[i + 1..])
  {
    assert bs[i..][1..] == bs[i + 1..];
  }

  /** The Adler-32 of the nine letters of Wikipedia in ASCII. */
  lemma CheckValue(bs: seq<byte>)
    requires bs == [87, 105, 107, 105, 112, 101, 100, 105, 97]
    ensures Adler32(bs) == 0x11e6_0398
  {
    hide Update;
    assert Unpack(1) == Sums(1, 0) && bs[0..] == bs;
    NextSums(Sums(1, 0), bs, 0, Sums(88, 88));
    NextSums(Sums(88, 88), bs, 1, Sums(193, 281));
    NextSums(Sums(193, 281), bs, 2, Sums(300, 581));
    NextSums(Sums(300, 581), bs, 3, Sums(405, 986));
    NextSums(Sums(405, 986), bs, 4, Sums(517, 1503));
    NextSums(Sums(517, 1503), bs, 5, Sums(618, 2121));
    NextSums(Sums(618, 2121), bs, 6, Sums(718, 2839));
    NextSums(Sums(718, 2839), bs, 7, Sums(823, 3662));
    NextSums(Sums(823, 3662), bs, 8, Sums(920, 4582));
    NoneLeft(Sums(920, 4582), bs[9..]);
  }

  lemma NoneLeft(s: Sums, bs: seq<byte>)
    requires bs == []
    ensures Update(s, bs) == s
  {
  }
}
