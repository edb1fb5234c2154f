/**
  Bits, powers of two and the OR of two naturals.

  DEFLATE packs integers least significant bit first and Huffman codes most
  significant bit first (section 3.1.1 of RFC 1951). A bit stream is a
  `seq<bool>` in the order in which the bits are sent.
  */
module Bits {
  import opened Sequences

  lemma SliceDrop<T>(s: seq<T>, a: nat, b: nat, k: nat)
    requires a + k <= b <= |s|
    ensures s[a..b][k..] == s[a + k..b]
  {
  }

  lemma SliceTake<T>(s: seq<T>, a: nat, b: nat, k: nat)
    requires a + k <= b <= |s|
    ensures s[a..b][..k] == s[a..a + k]
  {
  }

  lemma SliceJoin<T>(s: seq<T>, a: nat, b: nat, c: nat)
    requires a <= b <= c <= |s|
    ensures s[a..b] + s[b..c] == s[a..c]
  {
  }

  lemma PrefixSplit<T>(s: seq<T>, t: seq<T>)
    requires s <= t
    ensures t == s + t[|s|..]
  {
  }

  function Pow2(n: nat): (r: nat)
    ensures r > 0
  {
    if n == 0 then 1 else 2 * Pow2(n - 1)
  }

  lemma {:induction false} Pow2Add(a: nat, b: nat)
    ensures Pow2(a + b) == Pow2(a) * Pow2(b)
  {
    if a > 0 {
      Pow2Add(a - 1, b);
      assert Pow2(a + b) == 2 * (Pow2(a - 1) * Pow2(b));
    }
  }

  lemma {:induction false} Pow2Mono(a: nat, b: nat)
    requires a <= b
    ensures Pow2(a) <= Pow2(b)
  {
    if a < b { Pow2Mono(a, b - 1); }
  }

  /** The n low bits of x, least significant bit first. */
  function ToBits(x: nat, n: nat): (s: seq<bool>)
    ensures |s| == n
    decreases n, x
  {
    if n == 0 then [] else [x % 2 == 1] + ToBits(x / 2, n - 1)
  }

  /** The number whose bits are s, least significant bit first. */
  function FromBits(s: seq<bool>): (r: nat)
    ensures r < Pow2(|s|)
  {
    if s == [] then 0 else (if s[0] then 1 else 0) + 2 * FromBits(s[1..])
  }

  /** The n low bits of x, most significant bit first: the order of a Huffman code. */
  function MsbBits(x: nat, n: nat): (s: seq<bool>)
    ensures |s| == n
    decreases n, x
  {
    if n == 0 then [] else MsbBits(x / 2, n - 1) + [x % 2 == 1]
  }

  /** r followed by the n low bits of x in reverse. */
  function Reversal(x: nat, n: nat, r: nat): nat
    decreases n, x
  {
    if n == 0 then r else Reversal(x / 2, n - 1, 2 * r + x % 2)
  }

  lemma ReversalStep(x: nat, b: nat, n: nat, r: nat)
    requires b < 2
    ensures Reversal(2 * x + b, n + 1, r) == Reversal(x, n, 2 * r + b)
  {
    assert (2 * x + b) / 2 == x && (2 * x + b) % 2 == b;
  }

  /** Reversing a code turns most-significant-first into least-significant-first. */
  lemma {:induction false} ReversalOfMsb(x: nat, n: nat, t: seq<bool>)
    ensures Reversal(x, n, FromBits(t)) == FromBits(MsbBits(x, n) + t)
    decreases n
  {
    if n == 0 {
      assert MsbBits(x, n) + t == t;
    } else {
      var u := [x % 2 == 1] + t;
      assert u[1..] == t;
      ReversalOfMsb(x / 2, n - 1, u);
      Assoc(MsbBits(x / 2, n - 1), [x % 2 == 1], t);
    }
  }

  lemma {:induction false} FromToBits(x: nat, n: nat)
    requires x < Pow2(n)
    ensures FromBits(ToBits(x, n)) == x
    decreases n
  {
    if n > 0 {
      FromToBits(x / 2, n - 1);
      assert ToBits(x, n)[1..] == ToBits(x / 2, n - 1);
    }
  }

  lemma {:induction false} ToFromBits(s: seq<bool>)
    ensures ToBits(FromBits(s), |s|) == s
    decreases |s|
  {
    if s != [] {
      ToFromBits(s[1..]);
      assert s == [s[0]] + s[1..];
    }
  }

  lemma FromBitsInjective(s: seq<bool>, t: seq<bool>)
    requires |s| == |t| && FromBits(s) == FromBits(t)
    ensures s == t
  {
    ToFromBits(s);
    ToFromBits(t);
  }

  lemma {:induction false} FromBitsConcat(s: seq<bool>, t: seq<bool>)
    ensures FromBits(s + t) == FromBits(s) + Pow2(|s|) * FromBits(t)
    decreases |s|
  {
    if s == [] {
      assert s + t == t;
    } else {
      var u, v := s[1..], FromBits(t);
      FromBitsConcat(u, t);
      assert (s + t)[1..] == u + t && (s + t)[0] == s[0];
      assert FromBits(s + t) == (if s[0] then 1 else 0) + 2 * FromBits(u + t);
      MulTwo(Pow2(|u|), v);
      assert Pow2(|s|) == 2 * Pow2(|u|);
    }
  }

  lemma MulTwo(p: nat, v: nat)
    ensures 2 * (p * v) == (2 * p) * v
  {
  }

  lemma SmallMultiple(m: int, d: int)
    requires -m < m * d < m
    ensures d == 0
  {
  }

  lemma DivModUnique(x: nat, m: nat, q: nat, r: nat)
    requires m > 0 && r < m && x == r + m * q
    ensures x % m == r && x / m == q
  {
    var d := x / m - q;
    assert m * d == m * (x / m) - m * q;
    SmallMultiple(m, d);
  }

  lemma MulMono(p: nat, x: nat, y: nat)
    requires x <= y
    ensures p * x <= p * y
  {
  }

  lemma DivAtLeast(x: nat, p: nat, k: nat)
    requires p > 0
    ensures k <= x / p <==> p * k <= x
  {
    var q := x / p;
    assert x == p * q + x % p;
    if k <= q { MulMono(p, k, q); } else { MulMono(p, q + 1, k); }
  }

  /** Masking with 2^k - 1 keeps the first k bits. */
  lemma FromBitsMask(s: seq<bool>, k: nat)
    requires k <= |s|
    ensures FromBits(s) % Pow2(k) == FromBits(s[..k])
    ensures FromBits(s) / Pow2(k) == FromBits(s[k..])
  {
    assert s == s[..k] + s[k..];
    FromBitsConcat(s[..k], s[k..]);
    DivModUnique(FromBits(s), Pow2(k), FromBits(s[k..]), FromBits(s[..k]));
  }

  /** x shifted right by k bits. */
  function Shr(x: nat, k: nat): nat
    decreases k, x
  {
    if k == 0 then x else Shr(x / 2, k - 1)
  }

  /** x shifted left by k bits. */
  function Shl(x: nat, k: nat): nat
    decreases k, x
  {
    if k == 0 then x else 2 * Shl(x, k - 1)
  }

  lemma {:induction false} ShlIsTimes(x: nat, k: nat)
    ensures Shl(x, k) == Pow2(k) * x
  {
    if k > 0 {
      ShlIsTimes(x, k - 1);
      MulTwo(Pow2(k - 1), x);
    } else {
      assert Pow2(0) * x == x;
    }
  }

  lemma {:induction false} ShrAtLeast(x: nat, k: nat, q: nat)
    ensures q <= Shr(x, k) <==> Pow2(k) * q <= x
    decreases k
  {
    if k > 0 {
      ShrAtLeast(x / 2, k - 1, q);
      MulTwo(Pow2(k - 1), q);
    } else {
      assert Pow2(0) * q == q;
    }
  }

  lemma ShrAbove(x: nat, k: nat, q: nat, low: nat)
    requires Pow2(k) * q <= low <= x
    ensures q <= Shr(x, k)
  {
    ShrAtLeast(x, k, q);
  }

  /** The k low bits of x: x masked with 2^k - 1. */
  function Low(x: nat, k: nat): nat
    decreases k, x
  {
    if k == 0 then 0 else x % 2 + 2 * Low(x / 2, k - 1)
  }

  lemma {:induction false} LowOfBits(s: seq<bool>, k: nat)
    requires k <= |s|
    ensures Low(FromBits(s), k) == FromBits(s[..k])
    ensures Shr(FromBits(s), k) == FromBits(s[k..])
    decreases k
  {
    if k > 0 {
      LowOfBits(s[1..], k - 1);
      assert s[..k][1..] == s[1..][..k - 1];
      assert s[1..][k - 1..] == s[k..];
    }
  }

  lemma {:induction false} FromToLow(x: nat, n: nat)
    ensures FromBits(ToBits(x, n)) == Low(x, n)
    decreases n
  {
    if n > 0 {
      FromToLow(x / 2, n - 1);
      assert ToBits(x, n)[1..] == ToBits(x / 2, n - 1);
    }
  }

  lemma {:induction false} ShrBelow(x: nat, a: nat, k: nat)
    requires x < Pow2(a + k)
    ensures Shr(x, k) < Pow2(a)
    decreases k
  {
    if k > 0 { ShrBelow(x / 2, a, k - 1); }
  }

  /** The first bits of a code are the code shifted right. */
  lemma {:induction false} MsbBitsPrefix(x: nat, n: nat, k: nat)
    requires k <= n
    ensures MsbBits(x, n)[..k] == MsbBits(Shr(x, n - k), k)
    decreases n
  {
    if k < n {
      MsbBitsPrefix(x / 2, n - 1, k);
      assert MsbBits(x, n)[..k] == MsbBits(x / 2, n - 1)[..k];
    }
  }

  lemma {:induction false} MsbBitsInjective(x: nat, y: nat, n: nat)
    requires x < Pow2(n) && y < Pow2(n) && MsbBits(x, n) == MsbBits(y, n)
    ensures x == y
    decreases n
  {
    if n > 0 {
      var s, t := MsbBits(x, n), MsbBits(y, n);
      assert s[..n - 1] == MsbBits(x / 2, n - 1) && t[..n - 1] == MsbBits(y / 2, n - 1);
      assert s[n - 1] == (x % 2 == 1) && t[n - 1] == (y % 2 == 1);
      MsbBitsInjective(x / 2, y / 2, n - 1);
    }
  }

  /** Bitwise OR of two naturals. */
  function BitOr(x: nat, y: nat): nat
    decreases x + y
  {
    if x == 0 && y == 0 then 0
    else 2 * BitOr(x / 2, y / 2) + (if x % 2 == 1 || y % 2 == 1 then 1 else 0)
  }

  lemma {:induction false} BitOrZero(y: nat)
    ensures BitOr(0, y) == y
  {
    if y > 0 { BitOrZero(y / 2); }
  }

  lemma {:induction false} BitOrSelf(y: nat)
    ensures BitOr(y, y) == y
  {
    if y > 0 { BitOrSelf(y / 2); }
  }

  /** OR adds when the operands share no bit, and absorbs bits already present. */
  lemma {:induction false} BitOrShifted(x: nat, k: nat, y: nat)
    requires x < Pow2(k)
    ensures BitOr(x, Pow2(k) * y) == x + Pow2(k) * y
    ensures BitOr(x, x + Pow2(k) * y) == x + Pow2(k) * y
    decreases k
  {
    if k == 0 {
      assert Pow2(0) * y == y;
      BitOrZero(y);
    } else {
      var z := Pow2(k - 1) * y;
      assert Pow2(k) * y == 2 * z;
      assert (x + 2 * z) / 2 == x / 2 + z && (x + 2 * z) % 2 == x % 2;
      assert (2 * z) / 2 == z && (2 * z) % 2 == 0;
      BitOrShifted(x / 2, k - 1, y);
    }
  }

  /** OR-ing in t above s concatenates. */
  lemma OrAbove(s: seq<bool>, t: seq<bool>)
    ensures BitOr(FromBits(s), Shl(FromBits(t), |s|)) == FromBits(s + t)
  {
    BitOrShifted(FromBits(s), |s|, FromBits(t));
    FromBitsConcat(s, t);
    ShlIsTimes(FromBits(t), |s|);
  }

  /** OR-ing bits that are there already changes nothing. */
  lemma OrOver(s: seq<bool>, t: seq<bool>)
    ensures BitOr(FromBits(s), FromBits(s + t)) == FromBits(s + t)
  {
    BitOrShifted(FromBits(s), |s|, FromBits(t));
    FromBitsConcat(s, t);
  }

  /** The bits of a string of w-bit units, unit by unit, least significant bit first. */
  function Units(xs: seq<nat>, w: nat): (s: seq<bool>)
    ensures |s| == w * |xs|
  {
    if xs == [] then [] else
      assert w * |xs| == w + w * |xs[1..]|;
      ToBits(xs[0], w) + Units(xs[1..], w)
  }

  /** The bits of a byte string. */
  function Flatten(bytes: seq<nat>): (s: seq<bool>)
    ensures |s| == 8 * |bytes|
  {
    Units(bytes, 8)
  }

  lemma {:induction false} UnitsConcat(a: seq<nat>, b: seq<nat>, w: nat)
    ensures Units(a + b, w) == Units(a, w) + Units(b, w)
    decreases |a|
  {
    if a == [] {
      assert a + b == b;
    } else {
      UnitsConcat(a[1..], b, w);
      assert (a + b)[1..] == a[1..] + b;
      Assoc(ToBits(a[0], w), Units(a[1..], w), Units(b, w));
    }
  }

  lemma UnitsSnoc(a: seq<nat>, x: nat, w: nat)
    ensures Units(a + [x], w) == Units(a, w) + ToBits(x, w)
  {
    UnitsConcat(a, [x], w);
    assert Units([x], w) == ToBits(x, w) + Units([], w);
  }

  /** Unit k is bits w*k to w*k + w - 1 of the stream. */
  lemma UnitsAt(a: seq<nat>, k: nat, w: nat)
    requires k < |a|
    ensures w * k + w <= w * |a|
    ensures Units(a, w)[w * k..w * k + w] == ToBits(a[k], w)
  {
    var front, rear := a[..k], a[k + 1..];
    assert a == (front + [a[k]]) + rear;
    UnitsSnoc(front, a[k], w);
    UnitsConcat(front + [a[k]], rear, w);
    assert w * |a| == w * k + w + w * |rear|;
    assert |Units(front, w)| == w * k;
  }
}
