/** Bytes, buffers and the moves between them. */
module Buffers {

  newtype byte = i: int | 0 <= i < 256

  /** One more than the largest uint32_t. */
  const WORD := 0x1_0000_0000

  type uint32 = n: nat | n < WORD

  function Min(a: int, b: int): (m: int)
    ensures m <= a && m <= b && (m == a || m == b)
  {
    if a <= b then a else b
  }

  function Max(a: int, b: int): (m: int)
    ensures m >= a && m >= b && (m == a || m == b)
  {
    if a < b then b else a
  }

  /** f with bytes written over it from position at on. */
  function Splice<T>(f: seq<T>, at: nat, bytes: seq<T>): (g: seq<T>)
    requires at + |bytes| <= |f|
    ensures |g| == |f|
  {
    seq(|f|, i requires 0 <= i < |f| => if at <= i < at + |bytes| then bytes[i - at] else f[i])
  }

  lemma SpliceAt<T>(f: seq<T>, at: nat, bytes: seq<T>)
    requires at + |bytes| <= |f|
    ensures forall i :: 0 <= i < |f| ==>
      Splice(f, at, bytes)[i] == if at <= i < at + |bytes| then bytes[i - at] else f[i]
  {
  }

  /** memcpy and memmove: the bytes are as they were before the move. */
  method Write<T>(a: array<T>, at: nat, bytes: seq<T>)
    requires at + |bytes| <= a.Length
    modifies a
    ensures a[..] == Splice(old(a[..]), at, bytes)
  {
    forall i | 0 <= i < |bytes| {
      a[at + i] := bytes[i];
    }
    SpliceAt(old(a[..]), at, bytes);
  }

  /** The last n elements. */
  function Last<T>(s: seq<T>, n: nat): (t: seq<T>)
    requires n <= |s|
    ensures |t| == n
    ensures forall i :: 0 <= i < n ==> t[i] == s[|s| - n + i]
  {
    s[|s| - n..]
  }

  /** Position i of f holds what made has at the same distance from its end as i is from tail. */
  predicate Held<T(==)>(f: seq<T>, tail: int, made: seq<T>, i: int) {
    0 <= i < |f| && 0 <= i - tail + |made| < |made| && f[i] == made[i - tail + |made|]
  }

  /** The h elements of f before position tail are the last ones of made. */
  predicate Window<T(==)>(f: seq<T>, tail: nat, h: nat, made: seq<T>) {
    h <= tail <= |f| && h <= |made| && forall i :: tail - h <= i < tail ==> Held(f, tail, made, i)
  }

  lemma WindowIs<T>(f: seq<T>, tail: nat, h: nat, made: seq<T>)
    requires Window(f, tail, h, made)
    ensures f[tail - h..tail] == Last(made, h)
  {
    forall k | 0 <= k < h ensures f[tail - h..tail][k] == Last(made, h)[k] {
      assert Held(f, tail, made, tail - h + k);
    }
  }

  lemma ShorterWindow<T>(f: seq<T>, tail: nat, h: nat, k: nat, made: seq<T>)
    requires Window(f, tail, h, made) && k <= h
    ensures Window(f, tail, k, made)
  {
  }

  /** The last n elements of new input are put behind the window. */
  lemma AppendWindow<T>(f: seq<T>, tail: nat, h: nat, made: seq<T>, input: seq<T>, n: nat)
    requires Window(f, tail, h, made) && n <= |input| && tail + n <= |f|
    requires n == |input| || h == 0
    ensures Window(Splice(f, tail, Last(input, n)), tail + n, h + n, made + input)
  {
    var g, all, end := Splice(f, tail, Last(input, n)), made + input, tail + n;
    SpliceAt(f, tail, Last(input, n));
    forall i | tail - h <= i < end ensures Held(g, end, all, i) {
      var k := i - end + |all|;
      if i < tail {
        assert Held(f, tail, made, i) && g[i] == f[i] && all[k] == made[k];
      } else {
        assert g[i] == Last(input, n)[i - tail] == input[k - |made|] == all[k];
      }
    }
  }

  /** A part that holds the whole window is moved to the front. */
  lemma MoveWindow<T>(f: seq<T>, tail: nat, h: nat, made: seq<T>, from: nat, to: nat)
    requires Window(f, tail, h, made) && from + h <= tail <= to <= |f|
    ensures Window(Splice(f, 0, f[from..to]), tail - from, h, made)
  {
    var g, end := Splice(f, 0, f[from..to]), tail - from;
    SpliceAt(f, 0, f[from..to]);
    forall i | end - h <= i < end ensures Held(g, end, made, i) {
      assert Held(f, tail, made, i + from) && g[i] == f[i + from];
    }
  }

  /** What was moved to the front, from any position on. */
  lemma MovedSlice<T>(f: seq<T>, from: nat, mid: nat, to: nat)
    requires from <= mid <= to <= |f|
    ensures Splice(f, 0, f[from..to])[mid - from..to - from] == f[mid..to]
  {
    SpliceAt(f, 0, f[from..to]);
  }
}
