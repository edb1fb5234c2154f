/**
  Linear shift registers over GF(2), for any representation of the register.

  The checksums of lib/nx_crc.c concatenate because the register is linear: what
  is in it before a string only passes through zero bits. The matrices of
  crc32_combine_ work because a linear map is known from its values on a basis.
  */
module LinearRegister {

  /** A vector space over GF(2) and the step that feeds one zero bit. */
  datatype Register<!T> = Register(zero: T, xor: (T, T) -> T, step: T -> T)

  ghost predicate Additive<T(!new)>(r: Register<T>, f: T -> T) {
    forall a, b :: f(r.xor(a, b)) == r.xor(f(a), f(b))
  }

  ghost predicate Laws<T>(r: Register<T>, a: T, b: T, c: T) {
    && r.xor(r.xor(a, b), c) == r.xor(a, r.xor(b, c))
    && r.xor(a, b) == r.xor(b, a)
    && r.xor(a, a) == r.zero
    && r.xor(a, r.zero) == a
    && r.step(r.xor(a, b)) == r.xor(r.step(a), r.step(b))
  }

  ghost predicate Linear<T(!new)>(r: Register<T>) {
    forall a, b, c :: Laws(r, a, b, c)
  }

  /** The register after n zero bits. */
  function Zeros<T>(r: Register<T>, n: nat, c: T): T
    decreases n, c
  {
    if n == 0 then c else Zeros(r, n - 1, r.step(c))
  }

  lemma {:induction false} ZerosLinear<T(!new)>(r: Register<T>, n: nat, a: T, b: T)
    requires Linear(r)
    ensures Zeros(r, n, r.xor(a, b)) == r.xor(Zeros(r, n, a), Zeros(r, n, b))
    decreases n
  {
    if n > 0 {
      assert Laws(r, a, b, b);
      ZerosLinear(r, n - 1, r.step(a), r.step(b));
    }
  }

  lemma {:induction false} ZerosAdd<T>(r: Register<T>, m: nat, n: nat, c: T)
    ensures Zeros(r, m + n, c) == Zeros(r, n, Zeros(r, m, c))
    decreases m
  {
    if m > 0 { ZerosAdd(r, m - 1, n, r.step(c)); }
  }

  lemma ZerosOfZero<T(!new)>(r: Register<T>, n: nat)
    requires Linear(r)
    ensures Zeros(r, n, r.zero) == r.zero
  {
    ZerosLinear(r, n, r.zero, r.zero);
    assert Laws(r, r.zero, r.zero, r.zero);
    var z := Zeros(r, n, r.zero);
    assert Laws(r, z, z, z);
  }

  /** A string into the register: each symbol is added, then w zero bits. */
  function Feed<T>(r: Register<T>, w: nat, c: T, bs: seq<T>): T
    decreases |bs|
  {
    if bs == [] then c else Feed(r, w, Zeros(r, w, r.xor(c, bs[0])), bs[1..])
  }

  lemma {:induction false} FeedConcat<T>(r: Register<T>, w: nat, c: T, a: seq<T>, b: seq<T>)
    ensures Feed(r, w, c, a + b) == Feed(r, w, Feed(r, w, c, a), b)
    decreases |a|
  {
    if a == [] {
      assert a + b == b;
    } else {
      assert (a + b)[1..] == a[1..] + b;
      FeedConcat(r, w, Zeros(r, w, r.xor(c, a[0])), a[1..], b);
    }
  }

  /** What is in the register only passes through zero bits. */
  lemma {:induction false} FeedLinear<T(!new)>(r: Register<T>, w: nat, c: T, d: T, bs: seq<T>)
    requires Linear(r)
    ensures Feed(r, w, r.xor(c, d), bs) == r.xor(Zeros(r, w * |bs|, c), Feed(r, w, d, bs))
    decreases |bs|
  {
    if bs != [] {
      var rest := bs[1..];
      assert Laws(r, c, d, bs[0]);
      ZerosLinear(r, w, c, r.xor(d, bs[0]));
      FeedLinear(r, w, Zeros(r, w, c), Zeros(r, w, r.xor(d, bs[0])), rest);
      ZerosAdd(r, w, w * |rest|, c);
      assert w * |bs| == w + w * |rest|;
      assert Laws(r, Zeros(r, w, c), Zeros(r, w, r.xor(d, bs[0])), c);
    } else {
      assert w * |bs| == 0;
    }
  }

  /** A checksum that starts from and ends with the mask m. */
  function Checksum<T>(r: Register<T>, w: nat, m: T, c: T, bs: seq<T>): T {
    r.xor(Feed(r, w, r.xor(c, m), bs), m)
  }

  /** Continuing a checksum gives the checksum of the concatenation. */
  lemma ChecksumContinues<T(!new)>(r: Register<T>, w: nat, m: T, a: seq<T>, b: seq<T>)
    requires Linear(r)
    ensures Checksum(r, w, m, Checksum(r, w, m, r.zero, a), b) == Checksum(r, w, m, r.zero, a + b)
  {
    var s := r.xor(r.zero, m);
    var f := Feed(r, w, s, a);
    FeedConcat(r, w, s, a, b);
    assert Laws(r, f, m, m);
    assert Laws(r, m, m, m);
  }

  /** The checksum of a concatenation from the checksums of its parts. */
  lemma ChecksumOfConcat<T(!new)>(r: Register<T>, w: nat, m: T, a: seq<T>, b: seq<T>)
    requires Linear(r)
    ensures Checksum(r, w, m, r.zero, a + b)
         == r.xor(Zeros(r, w * |b|, Checksum(r, w, m, r.zero, a)), Checksum(r, w, m, r.zero, b))
  {
    var c := Checksum(r, w, m, r.zero, a);
    var z, f := Zeros(r, w * |b|, c), Feed(r, w, m, b);
    ChecksumContinues(r, w, m, a, b);
    FeedLinear(r, w, c, m, b);
    assert Laws(r, r.zero, m, m) && Laws(r, m, r.zero, m);
    assert Laws(r, z, f, m);
  }

  // ---------- Four symbols at a time ----------

  /** Feeding four symbols is one long step, when each can be added in advance. */
  lemma FeedFour<T(!new)>(r: Register<T>, w: nat, c: T, b0: T, b1: T, b2: T, b3: T, s1: T, s2: T, s3: T)
    requires Linear(r)
    requires Zeros(r, w, s1) == b1 && Zeros(r, w + w, s2) == b2 && Zeros(r, w + w + w, s3) == b3
    ensures Feed(r, w, c, [b0, b1, b2, b3])
         == Zeros(r, w + w + w + w, r.xor(c, r.xor(b0, r.xor(s1, r.xor(s2, s3)))))
  {
    var c0 := r.xor(c, b0);
    var c1 := r.xor(c0, s1);
    var c2 := r.xor(c1, s2);
    var c3 := r.xor(c2, s3);
    AddLater(r, w, w, c0, s1, b1);
    AddLater(r, w + w, w, c1, s2, b2);
    AddLater(r, w + w + w, w, c2, s3, b3);
    FourSteps(r, w, c, b0, b1, b2, b3);
    assert Laws(r, c1, s2, s3);
    assert Laws(r, c0, s1, r.xor(s2, s3));
    assert Laws(r, c, b0, r.xor(s1, r.xor(s2, s3)));
  }

  lemma FeedFirst<T>(r: Register<T>, w: nat, c: T, b: T, bs: seq<T>)
    ensures Feed(r, w, c, [b] + bs) == Feed(r, w, Zeros(r, w, r.xor(c, b)), bs)
  {
    assert ([b] + bs)[1..] == bs;
  }

  lemma FourSteps<T>(r: Register<T>, w: nat, c: T, b0: T, b1: T, b2: T, b3: T)
    ensures Feed(r, w, c, [b0, b1, b2, b3])
         == Zeros(r, w, r.xor(Zeros(r, w, r.xor(Zeros(r, w, r.xor(Zeros(r, w, r.xor(c, b0)), b1)), b2)), b3))
  {
    FeedFirst(r, w, c, b0, [b1, b2, b3]);
    var c1 := Zeros(r, w, r.xor(c, b0));
    FeedFirst(r, w, c1, b1, [b2, b3]);
    var c2 := Zeros(r, w, r.xor(c1, b1));
    FeedFirst(r, w, c2, b2, [b3]);
    FeedFirst(r, w, Zeros(r, w, r.xor(c2, b2)), b3, []);
    assert [b0, b1, b2, b3] == [b0] + [b1, b2, b3] && [b1, b2, b3] == [b1] + [b2, b3];
    assert [b2, b3] == [b2] + [b3] && [b3] == [b3] + [];
  }

  /** A symbol added after m zero bits could have been added before them. */
  lemma AddLater<T(!new)>(r: Register<T>, m: nat, w: nat, c: T, s: T, b: T)
    requires Linear(r) && Zeros(r, m, s) == b
    ensures Zeros(r, w, r.xor(Zeros(r, m, c), b)) == Zeros(r, m + w, r.xor(c, s))
  {
    ZerosLinear(r, m, c, s);
    ZerosAdd(r, m, w, r.xor(c, s));
  }

  /** A long step taken part by part. */
  lemma SplitFour<T(!new)>(r: Register<T>, w: nat, x0: T, s1: T, s2: T, s3: T, x1: T, x2: T, x3: T)
    requires Linear(r)
    requires Zeros(r, w, s1) == x1 && Zeros(r, w + w, s2) == x2 && Zeros(r, w + w + w, s3) == x3
    ensures Zeros(r, w + w + w + w, r.xor(x0, r.xor(s1, r.xor(s2, s3))))
         == r.xor(Zeros(r, w + w + w + w, x0),
                  r.xor(Zeros(r, w + w + w, x1), r.xor(Zeros(r, w + w, x2), Zeros(r, w, x3))))
  {
    var n := w + w + w + w;
    ZerosLinear(r, n, x0, r.xor(s1, r.xor(s2, s3)));
    ZerosLinear(r, n, s1, r.xor(s2, s3));
    ZerosLinear(r, n, s2, s3);
    ZerosAdd(r, w, w + w + w, s1);
    ZerosAdd(r, w + w, w + w, s2);
    ZerosAdd(r, w + w + w, w, s3);
  }

  // ---------- Matrices ----------

  /** How a register is read bit by bit: lowest bit, shift right, and back. */
  datatype Bitwise<!T> = Bitwise(one: T, odd: T -> bool, half: T -> T, twice: T -> T)

  /** The register shifted left n times. */
  function ShiftLeft<T>(x: Bitwise<T>, v: T, n: nat): T
    decreases n, v
  {
    if n == 0 then v else ShiftLeft(x, x.twice(v), n - 1)
  }

  /** A register of `dim` bits is its lowest bit plus twice its half, and shifts out. */
  ghost predicate Splits<T(!new)>(r: Register<T>, x: Bitwise<T>, dim: nat) {
    && Additive(r, x.twice)
    && (forall v :: r.xor(if x.odd(v) then x.one else r.zero, x.twice(x.half(v))) == v)
    && (forall v :: ShiftLeft(x, v, dim) == r.zero)
  }

  /** The matrix whose columns are mat times a vector, by its bits. */
  function Times<T>(r: Register<T>, x: Bitwise<T>, mat: seq<T>, vec: T): T
    decreases |mat|
  {
    if mat == [] then r.zero
    else r.xor(if x.odd(vec) then mat[0] else r.zero, Times(r, x, mat[1..], x.half(vec)))
  }

  /** mat is the matrix of n zero bits. */
  ghost predicate IsZeros<T>(r: Register<T>, x: Bitwise<T>, mat: seq<T>, n: nat) {
    forall i :: 0 <= i < |mat| ==> mat[i] == Zeros(r, n, ShiftLeft(x, x.one, i))
  }

  lemma {:induction false} ShiftLinear<T(!new)>(r: Register<T>, x: Bitwise<T>, n: nat, a: T, b: T)
    requires Additive(r, x.twice)
    ensures ShiftLeft(x, r.xor(a, b), n) == r.xor(ShiftLeft(x, a, n), ShiftLeft(x, b, n))
    decreases n
  {
    if n > 0 { ShiftLinear(r, x, n - 1, x.twice(a), x.twice(b)); }
  }

  lemma {:induction false} ShiftZero<T(!new)>(r: Register<T>, x: Bitwise<T>, n: nat)
    requires Linear(r) && Additive(r, x.twice)
    ensures ShiftLeft(x, r.zero, n) == r.zero
  {
    ShiftLinear(r, x, n, r.zero, r.zero);
    assert Laws(r, r.zero, r.zero, r.zero);
    var s := ShiftLeft(x, r.zero, n);
    assert Laws(r, s, s, s);
  }

  /** Matrix times vector is the map it stands for. */
  lemma {:induction false} TimesFrom<T(!new)>(r: Register<T>, x: Bitwise<T>, mat: seq<T>, k: nat, n: nat, v: T)
    requires Linear(r) && Splits(r, x, |mat|) && IsZeros(r, x, mat, n) && k <= |mat|
    ensures Times(r, x, mat[k..], v) == Zeros(r, n, ShiftLeft(x, v, k))
    decreases |mat| - k
  {
    if k == |mat| {
      ZerosOfZero(r, n);
    } else {
      var h := x.half(v);
      var low := if x.odd(v) then x.one else r.zero;
      TimesFrom(r, x, mat, k + 1, n, h);
      assert mat[k..][1..] == mat[k + 1..];
      assert ShiftLeft(x, h, k + 1) == ShiftLeft(x, x.twice(h), k);
      ShiftLinear(r, x, k, low, x.twice(h));
      ZerosLinear(r, n, ShiftLeft(x, low, k), ShiftLeft(x, x.twice(h), k));
      ShiftZero(r, x, k);
      ZerosOfZero(r, n);
    }
  }

  lemma TimesIsZeros<T(!new)>(r: Register<T>, x: Bitwise<T>, mat: seq<T>, n: nat, v: T)
    requires Linear(r) && Splits(r, x, |mat|) && IsZeros(r, x, mat, n)
    ensures Times(r, x, mat, v) == Zeros(r, n, v)
  {
    TimesFrom(r, x, mat, 0, n, v);
    assert mat[0..] == mat;
  }

  /** Squaring the matrix doubles the number of zero bits. */
  lemma SquareDoubles<T(!new)>(r: Register<T>, x: Bitwise<T>, mat: seq<T>, n: nat, square: seq<T>)
    requires Linear(r) && Splits(r, x, |mat|) && IsZeros(r, x, mat, n) && |square| == |mat|
    requires forall i :: 0 <= i < |mat| ==> square[i] == Times(r, x, mat, mat[i])
    ensures IsZeros(r, x, square, 2 * n)
  {
    forall i | 0 <= i < |mat| ensures square[i] == Zeros(r, 2 * n, ShiftLeft(x, x.one, i)) {
      TimesIsZeros(r, x, mat, n, mat[i]);
      ZerosAdd(r, n, n, ShiftLeft(x, x.one, i));
    }
  }
}
