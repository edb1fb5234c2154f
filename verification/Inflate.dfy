/**
  The buffers of a decompression stream (lib/nx_inflate.c): the 32 KB history
  that every job of the engine needs, and the bytes waiting on both sides.
  */
module Inflate {
  import opened Wrappers
  import opened Buffers

  /** INF_HIS_LEN */
  const HISTORY := 32768

  /** The history after a job: at most 32 KB of what was made. */
  function HistoryLen(n: nat): nat {
    Min(n, HISTORY)
  }

  // ---------- What each move does to the window ----------

  /** The last bytes of the output are put behind the old history. */
  lemma AppendKeeps<T>(f: seq<T>, tail: nat, made: seq<T>, out: seq<T>, g: seq<T>)
    requires tail + Min(HISTORY, |out|) <= |f| && Window(f, tail, HistoryLen(|made|), made)
    requires g == Splice(f, tail, Last(out, Min(HISTORY, |out|)))
    ensures Window(g, tail + Min(HISTORY, |out|), HistoryLen(|made + out|), made + out)
  {
    var need := Min(HISTORY, |out|);
    var h := if need == |out| then HistoryLen(|made|) else 0;
    ShorterWindow(f, tail, HistoryLen(|made|), h, made);
    AppendWindow(f, tail, h, made, out, need);
    ShorterWindow(g, tail + need, h + need, HistoryLen(|made + out|), made + out);
  }

  /** Whole quadwords. */
  function RoundUp(n: nat): (r: nat)
    ensures n <= r < n + 16 && r % 16 == 0 && (n <= HISTORY ==> r <= HISTORY)
  {
    (n + 15) / 16 * 16
  }

  lemma EndOfHistory<T>(f: seq<T>, cur: nat, n: nat, h: nat, made: seq<T>)
    requires h <= n <= cur && Window(f, cur, h, made)
    ensures Last(f[cur - n..cur], h) == Last(made, h)
  {
    WindowIs(f, cur, h, made);
    EndOfSlice(f, cur - n, n, h);
  }

  lemma EndOfSlice<T>(s: seq<T>, p: nat, n: nat, k: nat)
    requires k <= n && p + n <= |s|
    ensures s[p + n - k..p + n] == Last(s[p..p + n], k)
  {
  }

  /** The same for output that is in a buffer n. */
  lemma TailKept<T>(f: seq<T>, cur: nat, n: seq<T>, pos: nat, tpbc: nat, made: seq<T>, out: seq<T>, all: seq<T>)
    requires pos + tpbc <= |n| && out == n[pos..pos + tpbc] && all == made + out
    requires cur + Min(HISTORY, tpbc) <= |f| && Window(f, cur, HistoryLen(|made|), made)
    ensures var need := Min(HISTORY, tpbc);
      Window(Splice(f, cur, n[pos + tpbc - need..pos + tpbc]), cur + need, HistoryLen(|all|), all)
  {
    var need := Min(HISTORY, tpbc);
    EndOfSlice(n, pos, tpbc, need);
    AppendKeeps(f, cur, made, out, Splice(f, cur, Last(out, need)));
  }

  /** Everything past the tail was just made, and at least 32 KB of it. */
  lemma OverflowKeeps<T>(f: seq<T>, cur: nat, made: seq<T>, direct: seq<T>, over: seq<T>, g: seq<T>)
    requires cur + |over| <= |f| && |over| >= HISTORY && g == Splice(f, cur, over)
    ensures Window(g, cur + |over|, HistoryLen(|made + (direct + over)|), made + (direct + over))
  {
    var all, end := made + (direct + over), cur + |over|;
    SpliceAt(f, cur, over);
    forall i | end - HISTORY <= i < end ensures Held(g, end, all, i) {
      assert all[i - end + |all|] == over[i - cur];
    }
  }

  /** The history spans the caller's buffer and the overflow. */
  lemma SpanKeeps<T>(f: seq<T>, cur: nat, made: seq<T>, direct: seq<T>, over: seq<T>, g: seq<T>)
    requires HISTORY <= cur && cur + |over| <= |f| && |over| < HISTORY < |direct| + |over|
    requires g == Splice(Splice(f, cur, over), cur - (HISTORY - |over|), Last(direct, HISTORY - |over|))
    ensures g[cur..cur + |over|] == over
    ensures Window(g, cur + |over|, HistoryLen(|made + (direct + over)|), made + (direct + over))
  {
    var all, end, len := made + (direct + over), cur + |over|, HISTORY - |over|;
    SpliceAt(f, cur, over);
    SpliceAt(Splice(f, cur, over), cur - len, Last(direct, len));
    forall i | end - HISTORY <= i < end ensures Held(g, end, all, i) {
      var k := i - end + |all|;
      if i < cur {
        assert g[i] == Last(direct, len)[i - (cur - len)] == direct[k - |made|] == all[k];
      } else {
        assert g[i] == over[i - cur] == all[k];
      }
    }
  }

  /** The same, as the copy is made. */
  lemma SpanKept<T>(f: seq<T>, cur: nat, made: seq<T>, direct: seq<T>, over: seq<T>, n: seq<T>, pos: nat)
    requires HISTORY <= cur && cur + |over| <= |f| && |over| < HISTORY < |direct| + |over|
    requires pos + |direct| <= |n| && direct == n[pos..pos + |direct|]
    ensures var len := HISTORY - |over|;
      var g := Splice(Splice(f, cur, over), cur - len, n[pos + |direct| - len..pos + |direct| - len + len]);
      g[cur..cur + |over|] == over
      && Window(g, cur + |over|, HistoryLen(|made + (direct + over)|), made + (direct + over))
  {
    var len := HISTORY - |over|;
    var from := pos + |direct| - len;
    EndOfSlice(n, pos, |direct|, len);
    assert n[from..from + len] == Last(direct, len);
    SpanKeeps(f, cur, made, direct, over, Splice(Splice(f, cur, over), cur - len, Last(direct, len)));
  }

  /** What is where after the old history moved down and the direct bytes took its place. */
  lemma ShiftedAt<T>(f: seq<T>, cur: nat, direct: seq<T>, over: seq<T>, keep: nat, m: seq<T>, g: seq<T>)
    requires keep + |direct| <= cur && cur + |over| <= |f|
    requires m == Splice(Splice(f, cur, over), cur - |direct| - keep, f[cur - keep..cur])
    requires g == Splice(m, cur - |direct|, direct)
    ensures forall i :: cur - |direct| - keep <= i < cur - |direct| ==> g[i] == f[i + |direct|]
    ensures forall i :: cur - |direct| <= i < cur ==> g[i] == direct[i - (cur - |direct|)]
    ensures forall i :: cur <= i < cur + |over| ==> g[i] == over[i - cur]
  {
    hide Splice;
    SpliceAt(f, cur, over);
    SpliceAt(Splice(f, cur, over), cur - |direct| - keep, f[cur - keep..cur]);
    SpliceAt(m, cur - |direct|, direct);
  }

  /** The history also needs some of the old one, moved down to make room. */
  lemma ShiftKeeps<T>(f: seq<T>, cur: nat, made: seq<T>, direct: seq<T>, over: seq<T>, m: seq<T>, g: seq<T>)
    requires HISTORY <= cur && cur + |over| <= |f| && |direct| + |over| <= HISTORY
    requires Window(f, cur, HistoryLen(|made|), made)
    requires var keep := HISTORY - |direct| - |over|;
      && m == Splice(Splice(f, cur, over), cur - |direct| - keep, f[cur - keep..cur])
      && g == Splice(m, cur - |direct|, direct)
    ensures g[cur..cur + |over|] == over
    ensures Window(g, cur + |over|, HistoryLen(|made + (direct + over)|), made + (direct + over))
  {
    var all, end := made + (direct + over), cur + |over|;
    ShiftedAt(f, cur, direct, over, HISTORY - |direct| - |over|, m, g);
    forall i | end - HistoryLen(|all|) <= i < end ensures Held(g, end, all, i) {
      var k := i - end + |all|;
      if i < cur - |direct| {
        assert Held(f, cur, made, i + |direct|) && g[i] == f[i + |direct|] && all[k] == made[k];
      } else if i < cur {
        assert g[i] == direct[k - |made|] == all[k];
      } else {
        assert g[i] == over[i - cur] == all[k];
      }
    }
  }

  /** The same, as the two moves are made. */
  lemma ShiftKept<T>(f: seq<T>, cur: nat, made: seq<T>, direct: seq<T>, over: seq<T>, n: seq<T>, pos: nat)
    requires HISTORY <= cur && cur + |over| <= |f| && |direct| + |over| <= HISTORY
    requires pos + |direct| <= |n| && direct == n[pos..pos + |direct|]
    requires Window(f, cur, HistoryLen(|made|), made)
    ensures var len, g0 := HISTORY - (|direct| + |over|), Splice(f, cur, over);
      var m := Splice(g0, cur - |direct| - len, g0[cur - len..cur - len + len]);
      var g := Splice(m, cur - |direct|, n[pos..pos + |direct|]);
      g[cur..cur + |over|] == over
      && Window(g, cur + |over|, HistoryLen(|made + (direct + over)|), made + (direct + over))
  {
    var len, g0 := HISTORY - (|direct| + |over|), Splice(f, cur, over);
    BeforeSplice(f, cur, over, cur - len);
    var m := Splice(g0, cur - |direct| - len, f[cur - len..cur]);
    ShiftKeeps(f, cur, made, direct, over, m, Splice(m, cur - |direct|, direct));
  }

  lemma BeforeSplice<T>(f: seq<T>, at: nat, bytes: seq<T>, p: nat)
    requires p <= at && at + |bytes| <= |f|
    ensures Splice(f, at, bytes)[p..at] == f[p..at]
  {
    SpliceAt(f, at, bytes);
  }

  lemma SpliceSlice<T>(f: seq<T>, at: nat, bytes: seq<T>)
    requires at + |bytes| <= |f|
    ensures Splice(f, at, bytes)[at..at + |bytes|] == bytes
    ensures Splice(f, at, bytes)[..at] == f[..at]
  {
    SpliceAt(f, at, bytes);
  }

  // ---------- Overflow ----------

  /** tpbc - len_next_out of two uint32_t, as an int. */
  function OverflowLen(tpbc: uint32, avail: uint32): int {
    var d := (tpbc - avail) % WORD;
    if d < 0x8000_0000 then d else d - WORD
  }

  /** So much of the caller's buffer is left that the difference is taken for an overflow. */
  predicate Strays(tpbc: nat, avail: nat) {
    tpbc + 0x8000_0000 < avail
  }

  lemma Difference(d: int)
    requires -WORD < d < 0x8000_0000
    ensures d % WORD == if d < 0 then d + WORD else d
  {
  }

  /** The sign is right if and only if the buffer is not left that empty. */
  lemma OverflowLenIs(tpbc: uint32, avail: uint32)
    requires tpbc < avail + 0x8000_0000
    ensures (OverflowLen(tpbc, avail) > 0 <==> tpbc > avail) <==> !Strays(tpbc, avail)
    ensures !Strays(tpbc, avail) ==> OverflowLen(tpbc, avail) == tpbc - avail
    ensures Strays(tpbc, avail) ==> OverflowLen(tpbc, avail) == tpbc + WORD - avail
  {
    Difference(tpbc - avail);
  }

  // ---------- The output side of a stream ----------

  class Output {
    var fifoOut: array<byte>
    var curOut: nat
    var usedOut: nat
    /** The caller's buffer, written up to outPos. */
    var nextOut: array<byte>
    var outPos: nat
    var totalOut: nat
    var historyLen: nat
    var isFinal: bool
    /** What the caller's earlier buffers received. */
    ghost var earlier: seq<byte>
    /** Everything the engine has made. */
    ghost var made: seq<byte>

    ghost predicate Bounds()
      reads this, fifoOut, nextOut
    {
      && fifoOut != nextOut && 8 * HISTORY <= fifoOut.Length < 0x8000_0000 && outPos <= nextOut.Length < WORD
      && HISTORY <= curOut <= fifoOut.Length / 2 && curOut + usedOut <= fifoOut.Length
    }

    ghost function Delivered(): seq<byte>
      reads this, nextOut
      requires outPos <= nextOut.Length
    {
      earlier + nextOut[..outPos]
    }

    ghost function Pending(): seq<byte>
      reads this, fifoOut
      requires curOut + usedOut <= fifoOut.Length
    {
      fifoOut[curOut..curOut + usedOut]
    }

    /** Nothing made is lost, and the next job finds its history. */
    ghost predicate Valid()
      reads this, fifoOut, nextOut
    {
      && Bounds()
      && totalOut == |Delivered()| && made == Delivered() + Pending()
      && historyLen == HistoryLen(|made|)
      && (!isFinal ==> Window(fifoOut[..], curOut + usedOut, historyLen, made))
    }

    function AvailOut(): nat
      reads this, nextOut
      requires outPos <= nextOut.Length
    {
      nextOut.Length - outPos
    }

    constructor (lenOut: nat, buffer: array<byte>)
      requires 8 * HISTORY <= lenOut < 0x8000_0000 && buffer.Length < WORD
      ensures Valid() && fresh(fifoOut) && nextOut == buffer && outPos == 0 && usedOut == 0
      ensures made == earlier == [] && Delivered() == [] && !isFinal
    {
      fifoOut := new byte[lenOut];
      curOut, usedOut := HISTORY, 0;
      nextOut, outPos := buffer, 0;
      totalOut, historyLen, isFinal := 0, 0, false;
      earlier, made := [], [];
    }

    /** The caller offers another buffer. */
    method SetBuffer(buffer: array<byte>)
      requires Valid() && buffer != fifoOut && buffer.Length < WORD
      modifies this
      ensures Valid() && nextOut == buffer && outPos == 0 && fifoOut == old(fifoOut)
      ensures made == old(made) && Delivered() == old(Delivered()) && Pending() == old(Pending())
      ensures isFinal == old(isFinal)
    {
      earlier := earlier + nextOut[..outPos];
      nextOut, outPos := buffer, 0;
      assert Delivered() == earlier;
    }

    /** fifo_out_len_check */
    method LenCheck(ghost h: nat, ghost m: seq<byte>)
      requires HISTORY <= curOut && curOut + usedOut <= fifoOut.Length && fifoOut.Length >= 8 * HISTORY && h <= HISTORY
      modifies this`curOut, fifoOut
      ensures HISTORY <= curOut <= fifoOut.Length / 2 && curOut + usedOut <= fifoOut.Length
      ensures Pending() == old(Pending())
      ensures old(Window(fifoOut[..], curOut + usedOut, h, m)) ==> Window(fifoOut[..], curOut + usedOut, h, m)
    {
      if curOut > fifoOut.Length / 2 {
        Compact(h, m);
      }
    }

    /** memmove within fifo_out. */
    method MoveWithin(at: nat, from: nat, n: nat)
      requires at + n <= fifoOut.Length && from + n <= fifoOut.Length
      modifies fifoOut
      ensures fifoOut[..] == Splice(old(fifoOut[..]), at, old(fifoOut[..])[from..from + n])
    {
      var bytes := fifoOut[from..from + n];
      assert bytes == fifoOut[..][from..from + n];
      Write(fifoOut, at, bytes);
    }

    /** memcpy from the caller's buffer to fifo_out. */
    method CopyIn(at: nat, from: nat, n: nat)
      requires fifoOut != nextOut && at + n <= fifoOut.Length && from + n <= nextOut.Length
      modifies fifoOut
      ensures fifoOut[..] == Splice(old(fifoOut[..]), at, old(nextOut[..][from..from + n]))
    {
      var bytes := nextOut[from..from + n];
      assert bytes == nextOut[..][from..from + n];
      Write(fifoOut, at, bytes);
    }

    method Compact(ghost h: nat, ghost m: seq<byte>)
      requires fifoOut.Length / 2 < curOut && curOut + usedOut <= fifoOut.Length
      requires fifoOut.Length >= 8 * HISTORY && h <= HISTORY
      modifies this`curOut, fifoOut
      ensures curOut == HISTORY && curOut + usedOut <= fifoOut.Length
      ensures Pending() == old(Pending())
      ensures old(Window(fifoOut[..], curOut + usedOut, h, m)) ==> Window(fifoOut[..], curOut + usedOut, h, m)
    {
      hide Window, Splice;
      ghost var f, c := fifoOut[..], curOut;
      assert Pending() == f[c..c + usedOut];
      MoveWithin(0, curOut - HISTORY, HISTORY + usedOut);
      curOut := HISTORY;
      ghost var g := fifoOut[..];
      MovedSlice(f, c - HISTORY, c, c + usedOut);
      assert Pending() == g[HISTORY..HISTORY + usedOut];
      if Window(f, c + usedOut, h, m) {
        MoveWindow(f, c + usedOut, h, m, c - HISTORY, c + usedOut);
      }
    }

    /** Bytes are put into the caller's buffer. */
    method PutOut(bytes: seq<byte>)
      requires fifoOut != nextOut && outPos + |bytes| <= nextOut.Length
      modifies nextOut
      ensures nextOut[..outPos] == old(nextOut[..outPos]) && nextOut[outPos..outPos + |bytes|] == bytes
    {
      SpliceSlice(nextOut[..], outPos, bytes);
      Write(nextOut, outPos, bytes);
      assert nextOut[..][..outPos] == nextOut[..outPos];
    }

    /** update_stream_out */
    method Advance(n: nat)
      requires outPos + n <= nextOut.Length
      modifies this`outPos, this`totalOut
      ensures outPos == old(outPos) + n && totalOut == old(totalOut) + n
      ensures Delivered() == old(Delivered()) + nextOut[old(outPos)..outPos]
    {
      outPos, totalOut := outPos + n, totalOut + n;
      assert nextOut[..outPos] == nextOut[..outPos - n] + nextOut[outPos - n..outPos];
    }

    /** Bytes waiting in fifo_out go to the caller first. */
    method Drain()
      requires Valid()
      modifies this`curOut, this`usedOut, this`outPos, this`totalOut, fifoOut, nextOut
      ensures Valid()
      ensures var n := Min(old(usedOut), old(AvailOut()));
        usedOut == old(usedOut) - n && AvailOut() == old(AvailOut()) - n
      ensures Delivered() == old(Delivered()) + old(Pending())[..old(usedOut) - usedOut]
    {
      var n := Min(usedOut, AvailOut());
      if n > 0 {
        DrainSome(n);
      } else {
        assert Delivered() == Delivered() + Pending()[..0];
      }
    }

    method DrainSome(n: nat)
      requires Valid() && n <= usedOut && n <= AvailOut()
      modifies this`curOut, this`usedOut, this`outPos, this`totalOut, fifoOut, nextOut
      ensures Valid() && usedOut == old(usedOut) - n && AvailOut() == old(AvailOut()) - n
      ensures Delivered() == old(Delivered()) + old(Pending())[..n]
    {
      Rejoin(Delivered(), Pending(), n);
      MoveOut(n);
      assert made == Delivered() + Pending();
      assert !isFinal ==> Window(fifoOut[..], curOut + usedOut, historyLen, made);
      LenCheck(historyLen, made);
    }

    method MoveOut(n: nat)
      requires Bounds() && n <= usedOut && n <= AvailOut()
      modifies this`curOut, this`usedOut, this`outPos, this`totalOut, nextOut
      ensures curOut == old(curOut) + n && usedOut == old(usedOut) - n
      ensures outPos == old(outPos) + n && outPos <= nextOut.Length && totalOut == old(totalOut) + n
      ensures Delivered() == old(Delivered()) + old(Pending())[..n] && Pending() == old(Pending())[n..]
      ensures fifoOut[..] == old(fifoOut[..])
    {
      var bytes := fifoOut[curOut..curOut + n];
      ghost var pending, delivered := Pending(), Delivered();
      assert bytes == pending[..n];
      PutOut(bytes);
      assert Pending() == pending && Delivered() == delivered;
      usedOut, curOut := usedOut - n, curOut + n;
      assert Pending() == pending[n..];
      Advance(n);
    }

    // ---------- One job of the engine ----------

    /** nx_set_dde_out: the caller's buffer first, then fifo_out. */
    function Room(expected: uint32): (n: nat)
      reads this, fifoOut, nextOut
      requires Bounds()
      ensures n == Min(expected, AvailOut() + (fifoOut.Length - curOut))
    {
      var direct := Min(AvailOut(), expected);
      if direct < expected then direct + Min(fifoOut.Length - curOut, expected - direct) else direct
    }

    /** The engine fills the caller's buffer and goes on in fifo_out. */
    method EngineWrites(out: seq<byte>)
      requires Bounds() && AvailOut() < |out| <= AvailOut() + (fifoOut.Length - curOut)
      modifies fifoOut, nextOut
      ensures nextOut[..] == Splice(old(nextOut[..]), outPos, out[..AvailOut()])
      ensures fifoOut[..] == Splice(old(fifoOut[..]), curOut, out[AvailOut()..])
    {
      Write(nextOut, outPos, out[..AvailOut()]);
      Write(fifoOut, curOut, out[AvailOut()..]);
    }

    /** No overflow: the end of the output is copied behind the old history. */
    method KeepTail(ghost out: seq<byte>, tpbc: nat, ghost all: seq<byte>)
      requires all == made + out && Bounds() && usedOut == 0 && outPos + tpbc <= nextOut.Length
      requires out == nextOut[outPos..outPos + tpbc]
      requires Window(fifoOut[..], curOut, HistoryLen(|made|), made)
      modifies this`curOut, fifoOut
      ensures Bounds() && Window(fifoOut[..], curOut, HistoryLen(|all|), all)
    {
      AppendTail(out, tpbc, all);
      LenCheck(HistoryLen(|all|), all);
    }

    method AppendTail(ghost out: seq<byte>, tpbc: nat, ghost all: seq<byte>)
      requires Bounds() && usedOut == 0 && outPos + tpbc <= nextOut.Length && out == nextOut[outPos..outPos + tpbc]
      requires Window(fifoOut[..], curOut, HistoryLen(|made|), made) && all == made + out
      modifies this`curOut, fifoOut
      ensures HISTORY <= curOut <= fifoOut.Length && Window(fifoOut[..], curOut, HistoryLen(|all|), all)
    {
      var need := Min(HISTORY, tpbc);
      ghost var f, n, c := fifoOut[..], nextOut[..], curOut;
      SameSlice(out);
      TailKept(f, c, n, outPos, tpbc, made, out, all);
      CopyIn(curOut, outPos + tpbc - need, need);
      curOut := curOut + need;
    }

    /** A short overflow: the history is made whole in front of it. */
    method SpanHistory(lenNext: nat, over: nat, ghost f: seq<byte>, ghost direct: seq<byte>, ghost rest: seq<byte>)
      requires Bounds() && usedOut == 0 && outPos + lenNext <= nextOut.Length
      requires direct == nextOut[outPos..outPos + lenNext]
      requires |f| == fifoOut.Length && curOut + over <= fifoOut.Length && |rest| == over < HISTORY
      requires fifoOut[..] == Splice(f, curOut, rest) && Window(f, curOut, HistoryLen(|made|), made)
      modifies fifoOut
      ensures Window(fifoOut[..], curOut + over, HistoryLen(|made + (direct + rest)|), made + (direct + rest))
      ensures fifoOut[curOut..curOut + over] == rest
    {
      if lenNext + over > HISTORY {
        var len := HISTORY - over;
        ghost var n, c := nextOut[..], curOut;
        SameSlice(direct);
        SpanKept(f, c, made, direct, rest, n, outPos);
        CopyIn(curOut - len, outPos + lenNext - len, len);
        assert fifoOut[curOut..curOut + over] == fifoOut[..][c..c + over];
      } else {
        ShiftHistory(lenNext, over, f, direct, rest);
      }
    }

    method ShiftHistory(lenNext: nat, over: nat, ghost f: seq<byte>, ghost direct: seq<byte>, ghost rest: seq<byte>)
      requires Bounds() && usedOut == 0 && outPos + lenNext <= nextOut.Length
      requires direct == nextOut[outPos..outPos + lenNext]
      requires |f| == fifoOut.Length && curOut + over <= fifoOut.Length && |rest| == over && lenNext + over <= HISTORY
      requires fifoOut[..] == Splice(f, curOut, rest) && Window(f, curOut, HistoryLen(|made|), made)
      modifies fifoOut
      ensures Window(fifoOut[..], curOut + over, HistoryLen(|made + (direct + rest)|), made + (direct + rest))
      ensures fifoOut[curOut..curOut + over] == rest
    {
      hide Window, Splice, HistoryLen;
      ghost var n, c := nextOut[..], curOut;
      SameSlice(direct);
      ShiftKept(f, c, made, direct, rest, n, outPos);
      ShiftMoves(lenNext, over);
      assert fifoOut[curOut..curOut + over] == fifoOut[..][c..c + over];
    }

    /** The old history moves down, and the caller's bytes take its place. */
    method ShiftMoves(lenNext: nat, over: nat)
      requires Bounds() && outPos + lenNext <= nextOut.Length && lenNext + over <= HISTORY
      modifies fifoOut
      ensures var g0, n, c, len := old(fifoOut[..]), old(nextOut[..]), curOut, HISTORY - (lenNext + over);
        fifoOut[..]
        == Splice(Splice(g0, c - lenNext - len, g0[c - len..c - len + len]), c - lenNext, n[outPos..outPos + lenNext])
    {
      var len := HISTORY - (lenNext + over);
      MoveWithin(curOut - lenNext - len, curOut - len, len);
      CopyIn(curOut - lenNext, outPos, lenNext);
    }

    lemma SameSlice(direct: seq<byte>)
      requires outPos + |direct| <= nextOut.Length && direct == nextOut[outPos..outPos + |direct|]
      ensures direct == nextOut[..][outPos..outPos + |direct|]
    {
    }

    /** Everything fits in the caller's buffer. */
    method TakeDirect(out: seq<byte>)
      requires Bounds() && usedOut == 0 && |out| <= AvailOut() && totalOut == |Delivered()|
      requires Window(fifoOut[..], curOut, HistoryLen(|made|), made)
      modifies this`outPos, this`totalOut, this`curOut, fifoOut, nextOut
      ensures Bounds() && Delivered() == old(Delivered()) + out && totalOut == |Delivered()|
      ensures !isFinal ==> Window(fifoOut[..], curOut, HistoryLen(|made + out|), made + out)
    {
      ghost var delivered := Delivered();
      PutOut(out);
      assert Delivered() == delivered;
      if !isFinal {
        KeepTail(out, |out|, made + out);
      }
      Advance(|out|);
    }

    /** The history after an overflow, whether it is short or not. */
    method HistoryOfOverflow(lenNext: nat, over: nat, ghost out: seq<byte>, ghost f: seq<byte>,
                             ghost direct: seq<byte>, ghost rest: seq<byte>)
      requires Bounds() && usedOut == 0 && outPos + lenNext <= nextOut.Length
      requires direct == nextOut[outPos..outPos + lenNext]
      requires |f| == fifoOut.Length && curOut + over <= fifoOut.Length && |rest| == over > 0 && out == direct + rest
      requires fifoOut[..] == Splice(f, curOut, rest) && Window(f, curOut, HistoryLen(|made|), made)
      modifies fifoOut
      ensures fifoOut[curOut..curOut + over] == rest
      ensures Window(fifoOut[..], curOut + over, HistoryLen(|made + out|), made + out)
    {
      if over < HISTORY {
        SpanHistory(lenNext, over, f, direct, rest);
      } else {
        OverflowKeeps(f, curOut, made, direct, rest, fifoOut[..]);
      }
    }

    /** The caller's buffer is filled and the rest is in fifo_out. */
    method TakeOverflow(out: seq<byte>)
      requires Bounds() && usedOut == 0 && totalOut == |Delivered()|
      requires AvailOut() < |out| <= AvailOut() + (fifoOut.Length - curOut)
      requires Window(fifoOut[..], curOut, HistoryLen(|made|), made)
      modifies this`outPos, this`totalOut, this`usedOut, fifoOut, nextOut
      ensures Bounds() && Delivered() == old(Delivered()) + out[..old(AvailOut())] && totalOut == |Delivered()|
      ensures Pending() == out[old(AvailOut())..] && AvailOut() == 0
      ensures Window(fifoOut[..], curOut + usedOut, HistoryLen(|made + out|), made + out)
    {
      hide Window, Splice, HistoryLen;
      var lenNext := AvailOut();
      ghost var delivered, f, direct, rest := Delivered(), fifoOut[..], out[..lenNext], out[lenNext..];
      EngineWrites(out);
      SpliceSlice(old(nextOut[..]), outPos, direct);
      HistoryOfOverflow(lenNext, |out| - lenNext, out, f, direct, rest);
      usedOut := usedOut + (|out| - lenNext);
      assert nextOut[outPos..outPos + lenNext] == direct && Delivered() == delivered;
      Advance(lenNext);
    }

    /** all is what was made, with the last job's output already delivered or pending. */
    ghost predicate Taken(all: seq<byte>)
      reads this, fifoOut, nextOut
    {
      && Bounds() && totalOut == |Delivered()| && all == Delivered() + Pending()
      && (!isFinal ==> Window(fifoOut[..], curOut + usedOut, HistoryLen(|all|), all))
    }

    /**
      Taken for an overflow: the whole buffer counts as written and fifo_out as holding what it
      does not. A short one would move memory from before fifo_out, and the model stops there.
      */
    method TakeAstray(out: seq<byte>, over: nat)
      requires Bounds() && usedOut == 0 && |out| <= AvailOut()
      modifies this`outPos, this`totalOut, this`usedOut, nextOut
      ensures nextOut[old(outPos)..old(outPos) + |out|] == out && nextOut[..old(outPos)] == old(nextOut[..outPos])
      ensures if over < HISTORY then usedOut == 0 && outPos == old(outPos) && totalOut == old(totalOut)
              else usedOut == over && outPos == nextOut.Length && totalOut == old(totalOut) + old(AvailOut())
    {
      PutOut(out);
      if over >= HISTORY {
        usedOut := over;
        Advance(AvailOut());
      }
    }

    /** False when the overflow has the wrong sign. */
    method Take(out: seq<byte>) returns (ok: bool)
      requires Bounds() && usedOut == 0 && totalOut == |Delivered()|
      requires |out| < WORD && |out| <= AvailOut() + (fifoOut.Length - curOut)
      requires Window(fifoOut[..], curOut, HistoryLen(|made|), made) && made == Delivered()
      modifies this`outPos, this`totalOut, this`usedOut, this`curOut, fifoOut, nextOut
      ensures ok <==> !Strays(|out|, old(AvailOut()))
      ensures ok ==> Taken(made + out) && Delivered() == old(Delivered()) + out[..Min(|out|, old(AvailOut()))]
      ensures ok ==> usedOut == Max(0, |out| - old(AvailOut())) && AvailOut() == Max(0, old(AvailOut()) - |out|)
      ensures !ok ==> Misjudged(|out|, old(AvailOut()), old(outPos), old(totalOut))
    {
      Rejoin(made, out, Min(|out|, AvailOut()));
      OverflowLenIs(|out|, AvailOut());
      var over := OverflowLen(|out|, AvailOut());
      ok := true;
      if over <= 0 {
        TakeDirect(out);
      } else if |out| > AvailOut() {
        TakeOverflow(out);
      } else {
        TakeAstray(out, over);
        ok := false;
      }
    }

    /** The counts after a job of n bytes that was taken for an overflow. */
    ghost predicate Misjudged(n: nat, avail: nat, outPos0: nat, total0: nat)
      reads this
    {
      var over := n + WORD - avail;
      if over < HISTORY then usedOut == 0 && outPos == outPos0 && totalOut == total0
      else usedOut == over && outPos == nextOut.Length && totalOut == total0 + avail
    }

    /**
      A job's output: out, which fits what was offered, is delivered or pending, unless it
      leaves more than 2^31 bytes of the caller's buffer.
      */
    method TakeOutput(out: seq<byte>, final: bool, expected: uint32) returns (ok: bool)
      requires Valid() && usedOut == 0 && !isFinal && |out| <= Room(expected)
      modifies this, fifoOut, nextOut
      ensures ok <==> !Strays(|out|, old(AvailOut()))
      ensures ok ==> Valid() && made == old(made) + out && isFinal == final
      ensures fifoOut == old(fifoOut) && nextOut == old(nextOut) && earlier == old(earlier)
      ensures ok ==> Delivered() == old(Delivered()) + out[..Min(|out|, old(AvailOut()))]
      ensures ok ==> usedOut == Max(0, |out| - old(AvailOut())) && AvailOut() == Max(0, old(AvailOut()) - |out|)
      ensures !ok ==> Misjudged(|out|, old(AvailOut()), old(outPos), old(totalOut))
    {
      assert Pending() == [];
      isFinal := final;
      ok := Take(out);
      if ok { Record(made + out); }
    }

    method Record(ghost all: seq<byte>)
      requires Taken(all)
      modifies this`historyLen, this`made
      ensures Valid() && made == all
    {
      assert |all| == totalOut + usedOut;
      historyLen := Min(totalOut + usedOut, HISTORY);
      made := all;
    }

    method SetFinal()
      requires Valid()
      modifies this`isFinal
      ensures Valid() && isFinal
    {
      isFinal := true;
    }

    /** nx_init_dde: the history for the next job, in whole quadwords. */
    method JobHistory(resuming: bool) returns (h: seq<byte>)
      requires Valid() && usedOut == 0 && !isFinal && (!resuming ==> made == [])
      ensures |h| % 16 == 0 && HistoryLen(|made|) <= |h| < HistoryLen(|made|) + 16 && HistoryLen(|made|) <= |made|
      ensures Last(h, HistoryLen(|made|)) == Last(made, HistoryLen(|made|))
    {
      var n := if resuming then RoundUp(historyLen) else 0;
      h := fifoOut[curOut - n..curOut];
      assert !resuming ==> historyLen == 0;
      EndOfHistory(fifoOut[..], curOut, n, historyLen, made);
      assert h == fifoOut[..][curOut - n..curOut];
    }
  }

  // ---------- The input side of a stream ----------

  class Input {
    const threshold: nat
    /** Allocated when first needed. */
    var fifoIn: array?<byte>
    var curIn: nat
    var usedIn: nat
    /** What the caller supplied and is still in its buffer. */
    var nextIn: seq<byte>
    /** Everything the caller supplied, and what the engine used of it. */
    ghost var given: seq<byte>
    ghost var eaten: seq<byte>

    ghost predicate Bounds()
      reads this, fifoIn
    {
      && 2 * threshold < 0x8000_0000 && |nextIn| < WORD
      && if fifoIn == null then usedIn == 0 && curIn == 0
         else fifoIn.Length == 2 * threshold && curIn <= threshold && curIn + usedIn <= fifoIn.Length
    }

    /** used_in + avail_in, as a uint32_t. */
    function Waiting(): uint32
      reads this
    {
      (usedIn + |nextIn|) % WORD
    }

    function Cached(): seq<byte>
      reads this, fifoIn
      requires Bounds()
    {
      if fifoIn == null then [] else fifoIn[curIn..curIn + usedIn]
    }

    function Pending(): seq<byte>
      reads this, fifoIn
      requires Bounds()
    {
      Cached() + nextIn
    }

    ghost predicate Valid()
      reads this, fifoIn
    {
      Bounds() && given == eaten + Pending()
    }

    constructor (threshold: nat)
      requires 2 * threshold < 0x8000_0000
      ensures Valid() && fifoIn == null && given == [] && eaten == [] && this.threshold == threshold
    {
      this.threshold := threshold;
      fifoIn, curIn, usedIn, nextIn := null, 0, 0, [];
      given, eaten := [], [];
    }

    /** The caller adds to its buffer. */
    method Supply(more: seq<byte>)
      requires Valid() && |nextIn| + |more| < WORD
      modifies this`nextIn, this`given
      ensures Valid() && given == old(given) + more && Pending() == old(Pending()) + more
      ensures nextIn == old(nextIn) + more
    {
      ghost var p := Pending();
      nextIn, given := nextIn + more, given + more;
      assert Pending() == p + more;
    }

    /** fifo_in_len_check, for any position in the buffer. */
    method LenCheck()
      requires fifoIn != null && fifoIn.Length == 2 * threshold < 0x8000_0000 && curIn + usedIn <= fifoIn.Length
      requires |nextIn| < WORD
      modifies this`curIn, fifoIn
      ensures Bounds() && Cached() == old(fifoIn[curIn..curIn + usedIn])
      ensures curIn == if old(curIn) > threshold then 0 else old(curIn)
    {
      if curIn > fifoIn.Length / 2 {
        var bytes := fifoIn[curIn..curIn + usedIn];
        Write(fifoIn, 0, bytes);
        curIn := 0;
      }
    }

    /** copy_data_to_fifo_in: below the threshold, everything is cached. */
    method CopyToFifo()
      requires Valid()
      modifies this`fifoIn, this`curIn, this`usedIn, this`nextIn, fifoIn
      ensures Valid() && Pending() == old(Pending()) && (fifoIn == old(fifoIn) || fresh(fifoIn))
      ensures old(|nextIn| + usedIn) < threshold ==> nextIn == []
      ensures fifoIn != null && curIn == if old(usedIn) == 0 then 0 else old(curIn)
      ensures nextIn == [] || curIn + usedIn == fifoIn.Length
    {
      MakeRoom();
      var n := Min(fifoIn.Length - curIn - usedIn, |nextIn|);
      if n > 0 {
        Append(n);
      }
    }

    method MakeRoom()
      requires Bounds()
      modifies this`fifoIn, this`curIn, fifoIn
      ensures Bounds() && fifoIn != null && Cached() == old(Cached()) && (fifoIn == old(fifoIn) || fresh(fifoIn))
      ensures curIn == if usedIn == 0 then 0 else old(curIn)
    {
      if fifoIn == null {
        fifoIn := new byte[2 * threshold];
      }
      if usedIn == 0 {
        curIn := 0;
      }
      LenCheck();
    }

    method Append(n: nat)
      requires Bounds() && fifoIn != null && n <= |nextIn| && curIn + usedIn + n <= fifoIn.Length
      modifies this`usedIn, this`nextIn, fifoIn
      ensures Bounds() && Pending() == old(Pending()) && nextIn == old(nextIn)[n..]
    {
      ghost var cached := Cached();
      Write(fifoIn, curIn + usedIn, nextIn[..n]);
      usedIn := usedIn + n;
      assert Cached() == cached + nextIn[..n];
      Rejoin(cached, nextIn, n);
      nextIn := nextIn[n..];
    }

    /** nx_set_dde_in: what a job may read, the cached bytes first. */
    function Source(expected: uint32): (s: seq<byte>)
      reads this, fifoIn
      requires Bounds()
      ensures s == Pending()[..Min(|Pending()|, expected)]
    {
      var n := Min(usedIn, expected);
      if n < expected then Cached()[..n] + nextIn[..Min(|nextIn|, expected - n)] else Cached()[..n]
    }

    /** The engine used n bytes. */
    method Consume(n: nat)
      requires Valid() && n <= |Pending()|
      modifies this`curIn, this`usedIn, this`nextIn, this`eaten, fifoIn
      ensures Valid() && Pending() == old(Pending())[n..] && eaten == old(eaten) + old(Pending())[..n]
    {
      ghost var p := Pending();
      Rejoin(eaten, p, n);
      Advance(n);
      Eat(p, n);
    }

    ghost method Eat(p: seq<byte>, n: nat)
      requires Bounds() && n <= |p| && Pending() == p[n..] && given == (eaten + p[..n]) + p[n..]
      modifies this`eaten
      ensures Valid() && Pending() == p[n..] && eaten == old(eaten) + p[..n]
    {
      eaten := eaten + p[..n];
    }

    method Advance(n: nat)
      requires Bounds() && n <= |Pending()|
      modifies this`curIn, this`usedIn, this`nextIn, fifoIn
      ensures Bounds() && Pending() == old(Pending())[n..]
      ensures curIn ==
        if n > old(usedIn) || fifoIn == null then old(curIn)
        else if old(curIn) + n > threshold then 0
        else old(curIn) + n
    {
      ghost var cached := Cached();
      DropBoth(cached, nextIn, n);
      if n > usedIn {
        nextIn := nextIn[n - usedIn..];
        usedIn := 0;
        assert Cached() == [];
      } else {
        usedIn, curIn := usedIn - n, curIn + n;
        if fifoIn != null {
          assert fifoIn[curIn..curIn + usedIn] == cached[n..];
          LenCheck();
        }
      }
    }
  }

  lemma DropBoth<T>(a: seq<T>, b: seq<T>, n: nat)
    requires n <= |a| + |b|
    ensures (a + b)[n..] == if n > |a| then b[n - |a|..] else a[n..] + b
  {
  }

  lemma Rejoin<T>(a: seq<T>, out: seq<T>, n: nat)
    requires n <= |out|
    ensures (a + out[..n]) + out[n..] == a + out
  {
  }

  // ---------- Jobs ----------

  /** What the engine reports of a job: bytes made and used, how it ended, bits left over (SUBC, of 16 bits). */
  datatype Reply = Reply(output: seq<byte>, consumed: nat, final: bool, ok: bool, partialBits: nat)

  /** Any engine that stays within what it is offered; jobs are numbered. */
  type Engine = (nat, seq<byte>, seq<byte>, nat) -> Reply

  ghost predicate Honest(engine: Engine) {
    forall k, history, source, room ::
      var r := engine(k, history, source, room);
      |r.output| <= room && r.consumed <= |source| && r.partialBits < 0x1_0000
  }

  /**
    A job that was run: the space in the caller's buffer and in fifo_out, how much input was in
    fifo_in, what the engine was given, and its answer.
    */
  datatype Job = Job(number: nat, avail: nat, free: nat, cached: nat,
                     history: seq<byte>, source: seq<byte>, room: nat, reply: Reply)

  predicate Stray(j: Job) {
    Strays(|j.reply.output|, j.avail)
  }

  /** With so much space and input waiting, the job was given as much of both as was expected, if there was as much. */
  predicate JobSized(j: Job, number: nat, space: int, waiting: int, source: nat, target: nat) {
    && j.number == number && j.avail == space && |j.source| == Min(waiting, source)
    && j.free >= 131072 && j.room == Min(target, space + j.free)
  }

  /** There is space and input, and not so little that it is cached to wait for more. */
  predicate Due(space: int, waiting: int, cached: nat, threshold: nat, atOnce: bool) {
    space > 0 && waiting > 0 && !(waiting > cached && waiting % WORD < threshold && !atOnce)
  }

  /** A call goes on after a job that was not the last of the stream and left more input than the engine needs bits. */
  predicate GoesOn(reply: Reply, waiting: int) {
    !reply.final && !reply.ok && waiting % WORD > (reply.partialBits + 7) / 8
  }

  /** All the output of the jobs. */
  function Outputs(log: seq<Job>): seq<byte> {
    if log == [] then [] else Outputs(log[..|log| - 1]) + log[|log| - 1].reply.output
  }

  /** All the input that the jobs used. */
  function Used(log: seq<Job>): seq<byte> {
    if log == [] then []
    else
      var j := log[|log| - 1];
      Used(log[..|log| - 1]) + if j.reply.consumed <= |j.source| then j.source[..j.reply.consumed] else j.source
  }

  /** Before this job the engine had made m and used e; it got the history of m and the input that follows e. */
  ghost predicate WellFed(j: Job, m: seq<byte>, e: seq<byte>, given: seq<byte>) {
    && |j.history| % 16 == 0 && Min(|m|, 32768) <= |j.history| < Min(|m|, 32768) + 16
    && Last(j.history, Min(|m|, 32768)) == Last(m, Min(|m|, 32768))
    && e + j.source <= given && |j.reply.output| <= j.room && j.reply.consumed <= |j.source|
    && j.reply.partialBits < 0x1_0000
  }

  lemma IsWellFed(j: Job, m: seq<byte>, e: seq<byte>, pending: seq<byte>, n: nat)
    requires |j.history| % 16 == 0 && HistoryLen(|m|) <= |j.history| < HistoryLen(|m|) + 16
    requires Last(j.history, HistoryLen(|m|)) == Last(m, HistoryLen(|m|))
    requires j.source == pending[..Min(|pending|, n)] && |j.reply.output| <= j.room
    requires j.reply.consumed <= |j.source| && j.reply.partialBits < 0x1_0000
    ensures WellFed(j, m, e, e + pending)
  {
    PrefixBehind(e, pending, Min(|pending|, n));
  }

  lemma StaysWithin(engine: Engine, k: nat, history: seq<byte>, source: seq<byte>, room: nat)
    requires Honest(engine)
    ensures var r := engine(k, history, source, room);
      |r.output| <= room && r.consumed <= |source| && r.partialBits < 0x1_0000
  {
  }

  ghost predicate AllWellFed(log: seq<Job>, given: seq<byte>) {
    forall i {:trigger Outputs(log[..i])} :: 0 <= i < |log| ==>
      WellFed(log[i], Outputs(log[..i]), Used(log[..i]), given)
  }

  ghost predicate NoStrays(log: seq<Job>) {
    forall i :: 0 <= i < |log| ==> !Stray(log[i])
  }

  /** The jobs from k on were answered by this engine. */
  ghost predicate AnsweredBy(engine: Engine, log: seq<Job>, k: nat) {
    forall i :: k <= i < |log| ==>
      log[i].reply == engine(log[i].number, log[i].history, log[i].source, log[i].room)
  }

  /** How a call runs its jobs: the sizes it expects of them by number, and when it waits for more input. */
  datatype Plan = Plan(source: nat -> uint32, target: nat -> uint32, threshold: nat, atOnce: bool)

  /** Job i of the log, in a call that began with job k, was due, and had the sizes that were expected. */
  ghost predicate RightJob(log: seq<Job>, i: nat, k: nat, space: int, given: nat, plan: Plan)
    requires k <= i < |log|
  {
    var n, left, waiting := i - k + 1, space - |Outputs(log[..i])|, given - |Used(log[..i])|;
    && JobSized(log[i], n, left, waiting, plan.source(n), plan.target(n))
    && Due(left, waiting, log[i].cached, plan.threshold, plan.atOnce)
    && (i > k ==> GoesOn(log[i - 1].reply, waiting))
  }

  /** All the jobs from k on, with space for so much output of all jobs, and so much input for them. */
  ghost predicate AllRight(log: seq<Job>, k: nat, space: int, given: nat, plan: Plan) {
    forall i :: k <= i < |log| ==> RightJob(log, i, k, space, given, plan)
  }

  lemma NoneRight(log: seq<Job>, space: int, given: nat, plan: Plan)
    ensures AllRight(log, |log|, space, given, plan)
  {
  }

  lemma NextRight(log: seq<Job>, more: seq<Job>, k: nat, space: int, given: nat, plan: Plan)
    requires k <= |log| < |more| && more[..|log|] == log && |more| == |log| + 1
    requires AllRight(log, k, space, given, plan)
    requires var n, left, waiting := |log| - k + 1, space - |Outputs(log)|, given - |Used(log)|;
      && JobSized(more[|log|], n, left, waiting, plan.source(n), plan.target(n))
      && Due(left, waiting, more[|log|].cached, plan.threshold, plan.atOnce)
      && (|log| > k ==> GoesOn(log[|log| - 1].reply, waiting))
    ensures AllRight(more, k, space, given, plan)
  {
    hide JobSized, Due, GoesOn, Outputs, Used;
    forall i | k <= i < |more| ensures RightJob(more, i, k, space, given, plan) {
      if i < |log| {
        assert RightJob(log, i, k, space, given, plan) && more[..i] == log[..i];
      }
    }
  }

  lemma FirstRight(log: seq<Job>, before: seq<Job>, space: int, given: nat, plan: Plan)
    requires AllRight(log, |before|, space, given, plan) && before <= log && |log| > |before|
    ensures
      JobSized(log[|before|], 1, space - |Outputs(before)|, given - |Used(before)|, plan.source(1), plan.target(1))
  {
    assert RightJob(log, |before|, |before|, space, given, plan) && log[..|before|] == before;
  }

  lemma NoAnswers(engine: Engine, log: seq<Job>)
    ensures AnsweredBy(engine, log, |log|)
  {
  }

  lemma OneAnswer(engine: Engine, log: seq<Job>, j: Job)
    requires j.reply == engine(j.number, j.history, j.source, j.room)
    ensures AnsweredBy(engine, log + [j], |log|)
  {
  }

  lemma MoreAnswers(engine: Engine, log: seq<Job>, more: seq<Job>, k: nat)
    requires k <= |log| && log <= more && AnsweredBy(engine, log, k) && AnsweredBy(engine, more, |log|)
    ensures AnsweredBy(engine, more, k)
  {
  }

  lemma NextJob(log: seq<Job>, j: Job, given: seq<byte>)
    requires AllWellFed(log, given) && WellFed(j, Outputs(log), Used(log), given)
    ensures AllWellFed(log + [j], given)
    ensures Outputs(log + [j]) == Outputs(log) + j.reply.output
    ensures Used(log + [j]) == Used(log) + j.source[..j.reply.consumed]
  {
    var l := log + [j];
    assert l[..|log|] == log;
    forall i | 0 <= i < |l| ensures WellFed(l[i], Outputs(l[..i]), Used(l[..i]), given) {
      if i < |log| { assert l[..i] == log[..i]; }
    }
  }

  lemma LastFed(log: seq<Job>, given: seq<byte>)
    requires AllWellFed(log, given) && log != []
    ensures log[|log| - 1].reply.partialBits < 0x1_0000
  {
    var n := |log| - 1;
    assert WellFed(log[n], Outputs(log[..n]), Used(log[..n]), given);
  }

  lemma MoreGiven(log: seq<Job>, given: seq<byte>, more: seq<byte>)
    requires AllWellFed(log, given)
    ensures AllWellFed(log, given + more)
  {
    forall i | 0 <= i < |log| ensures WellFed(log[i], Outputs(log[..i]), Used(log[..i]), given + more) {
      assert WellFed(log[i], Outputs(log[..i]), Used(log[..i]), given);
    }
  }

  // ---------- One call ----------

  /** Astray is the model's: the source goes on with wrong counts. */
  datatype Code = Ok | StreamEnd | Checksum | BufError | StreamError | Astray

  const LOOP_MAX := 0xffff

  class Stream {
    const input: Input
    const output: Output
    var resuming: bool
    /** Every job so far. */
    ghost var log: seq<Job>

    ghost predicate Apart()
      reads this, input, output
    {
      input.fifoIn == null || (input.fifoIn != output.fifoOut && input.fifoIn != output.nextOut)
    }

    /** What was made and used is what the jobs made and used, each with its window and its input. */
    ghost predicate Logged()
      reads this, input, output
    {
      && output.made == Outputs(log) && input.eaten == Used(log)
      && AllWellFed(log, input.given) && NoStrays(log)
    }

    ghost predicate Valid()
      reads this, input, output, input.fifoIn, output.fifoOut, output.nextOut
    {
      && input.Valid() && output.Valid() && Apart() && Logged()
      && (!resuming && !output.isFinal ==> output.made == [])
    }

    constructor (input: Input, output: Output)
      requires input.Valid() && output.Valid() && output.made == [] && input.eaten == []
      requires input.fifoIn == null || (input.fifoIn != output.fifoOut && input.fifoIn != output.nextOut)
      ensures Valid() && this.input == input && this.output == output && log == [] && !resuming
    {
      this.input, this.output := input, output;
      resuming, log := false, [];
    }

    /** The caller adds input. */
    method Supply(more: seq<byte>)
      requires Valid() && |input.nextIn| + |more| < WORD
      modifies input`nextIn, input`given
      ensures Valid() && input.given == old(input.given) + more && input.nextIn == old(input.nextIn) + more
      ensures log == old(log)
    {
      MoreGiven(log, input.given, more);
      input.Supply(more);
    }

    /** The caller offers another buffer. */
    method SetBuffer(buffer: array<byte>)
      requires Valid() && buffer != output.fifoOut && buffer != input.fifoIn && buffer.Length < WORD
      modifies output
      ensures Valid() && output.nextOut == buffer && output.Delivered() == old(output.Delivered()) && log == old(log)
    {
      output.SetBuffer(buffer);
    }

    /** What a job is given, and what the engine answers. */
    method Submit(k: nat, engine: Engine, sourceExpected: uint32, targetExpected: uint32)
      returns (r: Reply, ghost j: Job)
      requires Valid() && Honest(engine) && output.usedOut == 0 && !output.isFinal
      ensures j.reply == r == engine(k, j.history, j.source, j.room) && j.number == k
      ensures j.source == input.Pending()[..Min(|input.Pending()|, sourceExpected)]
      ensures j.room == output.Room(targetExpected) && j.avail == output.AvailOut() && j.cached == input.usedIn
      ensures j.free == output.fifoOut.Length - output.curOut
      ensures JobSized(j, k, Space(), Total(), sourceExpected, targetExpected)
      ensures WellFed(j, output.made, input.eaten, input.given)
    {
      hide Stream.Logged, Window, Output.Delivered, Output.Pending, Outputs, Used, AllWellFed, NoStrays;
      hide WellFed, Honest, HistoryLen;
      var history := output.JobHistory(resuming);
      var source := input.Source(sourceExpected);
      var room := output.Room(targetExpected);
      r := engine(k, history, source, room);
      j := Job(k, output.AvailOut(), output.fifoOut.Length - output.curOut, input.usedIn, history, source, room, r);
      StaysWithin(engine, k, history, source, room);
      IsWellFed(j, output.made, input.eaten, input.Pending(), sourceExpected);
    }

    twostate predicate SameBuffers()
      reads this, output
    {
      && output.fifoOut == old(output.fifoOut) && output.nextOut == old(output.nextOut)
      && output.earlier == old(output.earlier)
    }

    method UseInput(n: nat)
      requires input.Valid() && n <= |input.Pending()|
      modifies input`curIn, input`usedIn, input`nextIn, input`eaten, input.fifoIn
      ensures input.Valid() && input.eaten == old(input.eaten) + old(input.Pending())[..n]
      ensures Total() == old(Total()) - n
    {
      input.Consume(n);
    }

    method UseOutput(r: Reply, targetExpected: uint32) returns (ok: bool)
      requires output.Valid() && output.usedOut == 0 && !output.isFinal && |r.output| <= output.Room(targetExpected)
      modifies this`resuming, output, output.fifoOut, output.nextOut
      ensures ok <==> !Strays(|r.output|, old(output.AvailOut()))
      ensures ok ==>
        && output.Valid() && output.isFinal == (r.final || r.ok) && resuming == (old(resuming) || !r.final)
        && output.made == old(output.made) + r.output && Filled(|r.output|, old(output.AvailOut()))
      ensures SameBuffers()
      ensures !ok ==> output.Misjudged(|r.output|, old(output.AvailOut()), old(output.outPos), old(output.totalOut))
    {
      ok := output.TakeOutput(r.output, r.final, targetExpected);
      if ok {
        resuming := resuming || !r.final;
        if r.ok { output.SetFinal(); }
      }
    }

    /** n bytes were made when there was space for avail. */
    ghost predicate Filled(n: nat, avail: nat)
      reads output, output.nextOut
      requires output.outPos <= output.nextOut.Length
    {
      output.usedOut == Max(0, n - avail) && output.AvailOut() == Max(0, avail - n)
    }

    /** offsets_state: what becomes of the job's input and output. */
    method Settle(r: Reply, targetExpected: uint32, ghost j: Job) returns (ok: bool)
      requires Valid() && output.usedOut == 0 && !output.isFinal && j.reply == r
      requires j.source <= input.Pending() && j.room == output.Room(targetExpected)
      requires WellFed(j, output.made, input.eaten, input.given) && j.avail == output.AvailOut()
      modifies this, input, output, input.fifoIn, output.fifoOut, output.nextOut
      ensures log == old(log) + [j] && (ok <==> !Stray(j))
      ensures ok ==> Valid() && output.isFinal == (r.final || r.ok) && Filled(|r.output|, j.avail)
      ensures input.given == old(input.given) && Total() == old(Total()) - r.consumed
      ensures SameBuffers() && input.fifoIn == old(input.fifoIn)
      ensures !ok ==> output.Misjudged(|r.output|, j.avail, old(output.outPos), old(output.totalOut))
    {
      NextJob(log, j, input.given);
      ghost var l := log + [j];
      assert input.Pending()[..r.consumed] == j.source[..r.consumed];
      ok := TakeReply(r, targetExpected);
      assert ok ==> output.made == Outputs(l) && input.eaten == Used(l);
      log := l;
    }

    method TakeReply(r: Reply, targetExpected: uint32) returns (ok: bool)
      requires input.Valid() && output.Valid() && Apart() && output.usedOut == 0 && !output.isFinal
      requires |r.output| <= output.Room(targetExpected) && r.consumed <= |input.Pending()|
      modifies this`resuming, input, output, input.fifoIn, output.fifoOut, output.nextOut
      ensures input.Valid() && (ok <==> !Strays(|r.output|, old(output.AvailOut())))
      ensures ok ==>
        && output.Valid() && Apart() && (resuming || output.isFinal)
        && output.isFinal == (r.final || r.ok) && Filled(|r.output|, old(output.AvailOut()))
        && output.made == old(output.made) + r.output
      ensures input.eaten == old(input.eaten) + old(input.Pending())[..r.consumed]
      ensures input.given == old(input.given) && Total() == old(Total()) - r.consumed
      ensures SameBuffers() && input.fifoIn == old(input.fifoIn)
      ensures !ok ==> output.Misjudged(|r.output|, old(output.AvailOut()), old(output.outPos), old(output.totalOut))
    {
      UseInput(r.consumed);
      ok := UseOutput(r, targetExpected);
    }

    /** The input waiting on both sides of the caller's buffer. */
    function Total(): nat
      reads input
    {
      input.usedIn + |input.nextIn|
    }

    /** The space left when what waits is delivered; negative if it does not fit. */
    function Space(): int
      reads output, output.nextOut
    {
      output.nextOut.Length - output.outPos - output.usedOut
    }

    /** What a call does besides jobs changes nothing; its jobs were answered by its engine. */
    twostate predicate Onward(engine: Engine)
      reads this, input, output, input.fifoIn, output.fifoOut, output.nextOut
    {
      && input.given == old(input.given) && Total() <= old(Total()) && Space() <= old(Space())
      && old(log) <= log && AnsweredBy(engine, log, |old(log)|)
      && SameBuffers() && (input.fifoIn == old(input.fifoIn) || fresh(input.fifoIn))
    }

    /** Where the output will end when the caller's buffer is full. */
    ghost function Limit(): nat
      reads output
    {
      |output.earlier| + output.nextOut.Length
    }

    lemma Balance()
      requires Valid()
      ensures Space() == Limit() - |Outputs(log)| && Total() == |input.given| - |Used(log)|
    {
      assert |output.made| == |output.Delivered()| + |output.Pending()|;
    }

    /** The last job was taken for an overflow: there was more space than an int can tell. */
    twostate predicate WentAstray(engine: Engine)
      reads this, input, output
    {
      && |log| > |old(log)| && old(log) <= log && AnsweredBy(engine, log, |old(log)|)
      && Stray(log[|log| - 1]) && log[|log| - 1].avail <= old(Space())
      && NoStrays(log[..|log| - 1])
      && SameBuffers() && input.given == old(input.given)
      && output.Misjudged(|log[|log| - 1].reply.output|, log[|log| - 1].avail,
                          output.nextOut.Length - log[|log| - 1].avail, |Outputs(log[..|log| - 1])|)
    }

    /**
      Why a call with k earlier jobs may end well: no room; no input; all of it cached, too little to
      start on; or less of it left than the bits that a job of this call could not use, cached as far as it can be.
      */
    ghost predicate MayEnd(k: nat, atOnce: bool)
      reads this, input, output, input.fifoIn, output.nextOut
    {
      && output.outPos <= output.nextOut.Length && input.Bounds()
      && (output.AvailOut() == 0 || (output.usedOut == 0 && LittleLeft(k, atOnce)))
    }

    ghost predicate LittleLeft(k: nat, atOnce: bool)
      reads this, input, input.fifoIn
      requires input.Bounds()
    {
      || Total() == 0
      || (input.nextIn == [] && Total() < input.threshold && !atOnce)
      || (|log| > k && Total() <= (log[|log| - 1].reply.partialBits + 7) / 8 && Stuffed())
    }

    /** All input is cached, or as much as there is room for. */
    ghost predicate Stuffed()
      reads this, input, input.fifoIn
    {
      input.nextIn == [] || (input.fifoIn != null && input.curIn + input.usedIn == input.fifoIn.Length)
    }

    /** The call may end well if and only if there is no room or the input fits 32 bits. */
    ghost predicate EndsWell(k: nat, atOnce: bool)
      reads this, input, output, input.fifoIn, output.nextOut
    {
      && output.outPos <= output.nextOut.Length
      && (MayEnd(k, atOnce) <==> output.AvailOut() == 0 || Total() < WORD)
    }

    /** What is waiting in fifo_out goes first. */
    method DrainFirst(ghost engine: Engine) returns (code: Option<Code>)
      requires Valid() && (output.isFinal ==> output.usedOut > 0)
      modifies output`curOut, output`usedOut, output`outPos, output`totalOut, output.fifoOut, output.nextOut
      ensures Valid() && Onward(engine) && log == old(log) && Space() == old(Space())
      ensures code.None? ==> output.usedOut == 0 && !output.isFinal
      ensures code.Some? ==> (
        if code.value == Ok then output.AvailOut() == 0 && output.usedOut > 0
        else code.value == Checksum && output.isFinal && output.usedOut == 0)
    {
      code := None;
      if output.usedOut > 0 {
        output.Drain();
        if output.usedOut > 0 && output.AvailOut() == 0 {
          code := Some(Ok);
        } else if output.isFinal {
          code := Some(Checksum);
        }
      }
    }

    method Cache(ghost engine: Engine)
      requires Valid()
      modifies input`fifoIn, input`curIn, input`usedIn, input`nextIn, input.fifoIn
      ensures Valid() && Onward(engine) && log == old(log) && input.Pending() == old(input.Pending())
      ensures Total() == old(Total()) && input.Waiting() == old(input.Waiting())
      ensures (old(Total()) < input.threshold ==> input.nextIn == []) && (old(Total()) >= WORD ==> input.nextIn != [])
      ensures Stuffed()
    {
      input.CopyToFifo();
    }

    /** The guard for input that is too little to start on, with its sum of 32 bits. */
    predicate Held(atOnce: bool)
      reads this, input
    {
      input.nextIn != [] && input.Waiting() < input.threshold && !atOnce
    }

    /** A call starts a job. */
    predicate JobDue(atOnce: bool)
      reads this, input, output, output.nextOut
    {
      !output.isFinal && Due(Space(), Total(), input.usedIn, input.threshold, atOnce)
    }

    /** A call can only cache. */
    predicate Idles(atOnce: bool)
      reads this, input, output, output.nextOut
    {
      output.usedOut == 0 && !output.isFinal && Space() > 0 && Held(atOnce)
    }

    /** No job was run, and with input of 2^32 bytes or more none will be in the next call either. */
    twostate predicate Idled(atOnce: bool)
      reads this, input, output, output.nextOut
    {
      && log == old(log) && Total() == old(Total()) && Space() == old(Space())
      && output.usedOut == 0 && output.isFinal == old(output.isFinal)
      && (Total() >= WORD ==> Idles(atOnce))
    }

    /** Too little input is left, as far as 32 bits tell. */
    lemma StopsHere(k: nat, atOnce: bool)
      requires Valid()
      requires output.AvailOut() == 0 || (output.usedOut == 0 && (Total() < WORD ==> LittleLeft(k, atOnce)))
      ensures EndsWell(k, atOnce)
    {
      if |log| > 0 { LastFed(log, input.given); }
    }

    /** There is output to drain after the last block, or a reason to go on. */
    ghost predicate Another(k: nat)
      reads this, input, output
    {
      if output.isFinal then output.usedOut > 0
      else |log| > k && GoesOn(log[|log| - 1].reply, Total())
    }

    /** How a turn ends: with output to drain if it was the last block, or with a reason to stop. */
    ghost predicate Ends(code: Option<Code>, k: nat, atOnce: bool)
      reads this, input, output, input.fifoIn, output.nextOut
    {
      if code.None? then Another(k)
      else if code.value == Ok then EndsWell(k, atOnce) && !(output.isFinal && output.usedOut == 0)
      else code.value == Checksum && output.isFinal && output.usedOut == 0
    }

    lemma DueIs(atOnce: bool)
      ensures JobDue(atOnce) <==> !output.isFinal && Space() > 0 && Total() > 0 && !Held(atOnce)
    {
    }

    lemma SmallSum()
      ensures Total() < WORD ==> input.Waiting() == Total()
    {
    }

    method CacheAndStop(ghost engine: Engine, ghost first: nat, ghost atOnce: bool)
      requires Valid() && output.usedOut == 0 && Held(atOnce)
      modifies input`fifoIn, input`curIn, input`usedIn, input`nextIn, input.fifoIn
      ensures Valid() && Onward(engine) && log == old(log) && Total() == old(Total()) && EndsWell(first, atOnce)
      ensures Total() >= WORD ==> Held(atOnce)
    {
      hide Stream.Logged, Window, NoStrays, Stream.EndsWell, Input.Waiting;
      SmallSum();
      Cache(engine);
      StopsHere(first, atOnce);
    }

    /** One job was run, with the sizes expected. */
    twostate predicate NewJob(k: nat, sourceExpected: uint32, targetExpected: uint32)
      reads this, input, output, output.nextOut
    {
      && |log| == |old(log)| + 1 && log[..|old(log)|] == old(log) && log[|old(log)|].cached == old(input.usedIn)
      && JobSized(log[|old(log)|], k, old(Space()), old(Total()), sourceExpected, targetExpected)
    }

    /** One turn of the loop, in a call with k earlier jobs; None means another one. */
    method Turn(k: nat, engine: Engine, sourceExpected: uint32, targetExpected: uint32, atOnce: bool, ghost first: nat)
      returns (code: Option<Code>)
      requires Valid() && Honest(engine) && (output.isFinal ==> output.usedOut > 0) && first <= |log|
      modifies this, input, output, input.fifoIn, output.fifoOut, output.nextOut
      ensures code != Some(Astray) ==>
        && Valid() && Onward(engine) && (code.None? ==> input.fifoIn == old(input.fifoIn))
        && Ends(code, first, atOnce)
      ensures code == Some(Astray) ==> WentAstray(engine)
      ensures if old(JobDue(atOnce)) then NewJob(k, sourceExpected, targetExpected) else log == old(log) && code.Some?
      ensures old(Idles(atOnce)) ==> code == Some(Ok) && Idled(atOnce)
    {
      hide Stream.Logged, Stream.EndsWell, Output.Misjudged, NoStrays, Window, Input.Waiting;
      DueIs(atOnce);
      code := DrainFirst(engine);
      if code.Some? {
        if code == Some(Ok) { StopsHere(first, atOnce); }
        return;
      }
      if output.AvailOut() == 0 || (input.nextIn == [] && input.usedIn == 0) {
        StopsHere(first, atOnce);
        return Some(Ok);
      }
      if input.nextIn != [] && input.Waiting() < input.threshold && !atOnce {
        CacheAndStop(engine, first, atOnce);
        return Some(Ok);
      }
      code := RunJob(k, engine, sourceExpected, targetExpected, atOnce, first);
    }

    lemma NoneAstray()
      requires Valid()
      ensures NoStrays(log)
    {
    }

    lemma SoFar()
      requires Valid() && output.usedOut == 0
      ensures NoStrays(log) && output.totalOut == |Outputs(log)|
    {
    }

    /** One job, and what becomes of its input and output. */
    method OneJob(k: nat, engine: Engine, sourceExpected: uint32, targetExpected: uint32) returns (r: Reply, ok: bool)
      requires Valid() && Honest(engine) && output.usedOut == 0 && !output.isFinal
      modifies this, input, output, input.fifoIn, output.fifoOut, output.nextOut
      ensures NewJob(k, sourceExpected, targetExpected)
      ensures ok ==>
        && Valid() && Onward(engine) && r == log[|log| - 1].reply && input.fifoIn == old(input.fifoIn)
        && (output.usedOut > 0 ==> output.AvailOut() == 0) && output.isFinal == (r.final || r.ok)
      ensures !ok ==> WentAstray(engine)
    {
      SoFar();
      hide Stream.Logged, Stream.EndsWell, Window, NoStrays, Input.Valid, Output.Misjudged, AnsweredBy;
      hide JobSized, Output.Room, WellFed, Honest, Input.Pending, Output.Delivered, Output.Pending;
      ghost var j;
      r, j := Submit(k, engine, sourceExpected, targetExpected);
      OneAnswer(engine, log, j);
      ok := Settle(r, targetExpected, j);
      assert log[..|log| - 1] == old(log);
    }

    method RunJob(k: nat, engine: Engine, sourceExpected: uint32, targetExpected: uint32,
                  ghost atOnce: bool, ghost first: nat)
      returns (code: Option<Code>)
      requires Valid() && Honest(engine) && output.usedOut == 0 && !output.isFinal && first <= |log|
      modifies this, input, output, input.fifoIn, output.fifoOut, output.nextOut
      ensures NewJob(k, sourceExpected, targetExpected)
      ensures code != Some(Astray) ==>
        && Valid() && Onward(engine) && (code.None? ==> input.fifoIn == old(input.fifoIn))
        && Ends(code, first, atOnce)
      ensures code == Some(Astray) ==> WentAstray(engine)
    {
      hide Stream.EndsWell, Window, NoStrays, Input.Valid, Output.Misjudged, AnsweredBy, JobSized, WellFed;
      var r, ok := OneJob(k, engine, sourceExpected, targetExpected);
      if !ok {
        return Some(Astray);
      }
      LastFed(log, input.given);
      hide Stream.Logged;
      code := AfterJob(r, engine, first, atOnce);
    }

    /** Another turn, or what is left of the input is cached. */
    method AfterJob(r: Reply, ghost engine: Engine, ghost first: nat, ghost atOnce: bool)
      returns (code: Option<Code>)
      requires Valid() && (output.usedOut > 0 ==> output.AvailOut() == 0)
      requires |log| > first && r == log[|log| - 1].reply && r.partialBits < 0x1_0000
      requires output.isFinal == (r.final || r.ok)
      modifies input`fifoIn, input`curIn, input`usedIn, input`nextIn, input.fifoIn
      ensures Valid() && Onward(engine) && log == old(log) && (code.None? ==> input.fifoIn == old(input.fifoIn))
      ensures code != Some(Astray) && Ends(code, first, atOnce)
      ensures !output.isFinal ==> (code.None? <==> output.AvailOut() > 0 && GoesOn(r, old(Total())))
      ensures code.None? || output.AvailOut() == 0 ==> input.nextIn == old(input.nextIn)
    {
      hide Stream.Logged, Stream.EndsWell, Window, NoStrays, Input.Valid, Output.Misjudged;
      if output.isFinal {
        return if output.usedOut == 0 then Some(Checksum) else None;
      }
      if output.AvailOut() > 0 {
        if input.Waiting() > (r.partialBits + 7) / 8 {
          return None;
        }
        if input.nextIn != [] {
          Cache(engine);
        }
      }
      StopsHere(first, atOnce);
      code := Some(Ok);
    }

    /** The jobs of this call were the engine's, as planned. */
    ghost predicate InOrder(engine: Engine, first: nat, plan: Plan)
      reads this, input, output
    {
      && first <= |log| && AnsweredBy(engine, log, first)
      && AllRight(log, first, Limit(), |input.given|, plan)
    }

    lemma Begun(engine: Engine, plan: Plan)
      ensures InOrder(engine, |log|, plan)
    {
    }

    /** A turn whose job, if any, is the next one of the plan. */
    method NextTurn(loops: nat, engine: Engine, ghost plan: Plan, sourceSize: uint32, targetSize: uint32, atOnce: bool,
                    ghost first: nat)
      returns (code: Option<Code>)
      requires Valid() && Honest(engine) && (output.isFinal ==> output.usedOut > 0)
      requires InOrder(engine, first, plan) && loops == |log| - first + 1 && (loops > 1 ==> Another(first))
      requires plan.source(loops) == sourceSize && plan.target(loops) == targetSize
      requires plan.threshold == input.threshold && plan.atOnce == atOnce
      modifies this, input, output, input.fifoIn, output.fifoOut, output.nextOut
      ensures InOrder(engine, first, plan)
      ensures code != Some(Astray) ==>
        && Valid() && Onward(engine) && (code.None? ==> input.fifoIn == old(input.fifoIn)) && Ends(code, first, atOnce)
      ensures code == Some(Astray) ==> WentAstray(engine)
      ensures if old(JobDue(atOnce)) then |log| == |old(log)| + 1 else log == old(log) && code.Some?
      ensures old(Idles(atOnce)) ==> code == Some(Ok) && Idled(atOnce)
    {
      hide Stream.Logged, Output.Misjudged, NoStrays, Window, Input.Waiting, Input.Valid, AnsweredBy, Stream.EndsWell;
      hide AllRight, JobSized, Due, GoesOn;
      ghost var before := log;
      Balance();
      code := Turn(loops, engine, sourceSize, targetSize, atOnce, first);
      MoreAnswers(engine, before, log, first);
      if |log| > |before| {
        NextRight(before, log, first, Limit(), |input.given|, plan);
      }
    }

    /** The loop of a call. */
    method Turns(engine: Engine, sourceSize: nat -> uint32, targetSize: nat -> uint32, atOnce: bool)
      returns (code: Code)
      requires Valid() && Honest(engine) && (output.isFinal ==> output.usedOut > 0)
      modifies this, input, output, input.fifoIn, output.fifoOut, output.nextOut
      ensures code != Astray ==> Valid() && Onward(engine)
      ensures code == Astray ==> WentAstray(engine)
      ensures |log| > |old(log)| <==> old(JobDue(atOnce))
      ensures InOrder(engine, |old(log)|, Plan(sourceSize, targetSize, input.threshold, atOnce))
      ensures code == Ok ==> EndsWell(|old(log)|, atOnce)
      ensures old(Idles(atOnce)) ==> code == Ok && Idled(atOnce)
      ensures code != Astray ==> (code == Checksum <==> output.isFinal && output.usedOut == 0)
      ensures code == StreamError ==> |log| == |old(log)| + 0xfffe
      ensures code != StreamEnd && code != BufError
    {
      hide Stream.Logged, Output.Misjudged, NoStrays, Window, Input.Waiting, Input.Valid, Stream.EndsWell;
      hide AllRight, Due, GoesOn, AnsweredBy;
      ghost var plan := Plan(sourceSize, targetSize, input.threshold, atOnce);
      NoAnswers(engine, log);
      Begun(engine, plan);
      var loops := 0;
      while true
        invariant 0 <= loops < LOOP_MAX && Valid() && Onward(engine) && input.fifoIn == old(input.fifoIn)
        invariant |log| == |old(log)| + loops && (output.isFinal ==> output.usedOut > 0)
        invariant InOrder(engine, |old(log)|, plan)
        invariant if loops == 0 then Same(atOnce)
                  else old(JobDue(atOnce)) && !old(Idles(atOnce)) && Another(|old(log)|)
        decreases LOOP_MAX - loops
      {
        loops := loops + 1;
        if loops == LOOP_MAX {
          return StreamError;
        }
        var c := NextTurn(loops, engine, plan, sourceSize(loops), targetSize(loops), atOnce, |old(log)|);
        if c.Some? {
          return c.value;
        }
      }
    }

    twostate predicate Same(atOnce: bool)
      reads this, input, output, output.nextOut
    {
      && JobDue(atOnce) == old(JobDue(atOnce)) && Idles(atOnce) == old(Idles(atOnce))
      && Space() == old(Space()) && Total() == old(Total())
    }

    /**
      nx_inflate_, with any engine and any sizes for the jobs. Valid says that what was made
      and used over all calls is what the jobs made and used; Onward, that the jobs of this
      call are the engine's. No call goes astray with at most 2^31 bytes of space.
      */
    method Inflate(engine: Engine, sourceSize: nat -> uint32, targetSize: nat -> uint32, atOnce: bool)
      returns (code: Code)
      requires Valid() && Honest(engine)
      modifies this, input, output, input.fifoIn, output.fifoOut, output.nextOut
      ensures code != Astray ==> Valid() && Onward(engine)
      ensures code == Astray ==> WentAstray(engine)
      ensures old(Space()) <= 0x8000_0000 ==> code != Astray
      ensures |log| > |old(log)| <==> old(JobDue(atOnce))
      ensures InOrder(engine, |old(log)|, Plan(sourceSize, targetSize, input.threshold, atOnce))
      ensures code == Ok ==> EndsWell(|old(log)|, atOnce)
      ensures code == Ok && old(Total()) < WORD ==> MayEnd(|old(log)|, atOnce)
      ensures old(Idles(atOnce)) ==> code == Ok && Idled(atOnce)
      ensures code != Astray && code != StreamEnd ==> (code == Checksum <==> output.isFinal && output.usedOut == 0)
      ensures code == StreamEnd <==> old(Total() == 0 && output.AvailOut() == 0 && output.usedOut == 0)
      ensures code == BufError <==> old(
        output.AvailOut() == 0 && (output.usedOut > 0 || (Total() > 0 && !output.isFinal)))
      ensures code == StreamError ==> |log| == |old(log)| + 0xfffe
    {
      hide Stream.Logged, Output.Misjudged, NoStrays, Window, Input.Waiting, AnsweredBy;
      NoAnswers(engine, log);
      if input.nextIn == [] && input.usedIn == 0 && output.AvailOut() == 0 && output.usedOut == 0 {
        return StreamEnd;
      }
      if output.isFinal && output.usedOut == 0 {
        return Checksum;
      }
      if output.AvailOut() == 0 {
        return BufError;
      }
      code := Turns(engine, sourceSize, targetSize, atOnce);
    }
  }

  /** An engine that makes nothing yet. */
  function NothingYet(): Engine {
    (k, history, source, room) => Reply([], 0, false, false, 0)
  }

  /**
    With at most 2^31 bytes of space no engine leads a call astray. With more, this one does, so a
    call that starts a job is safe with every engine if and only if there is no more space.
    */
  method SafeForAll(stream: Stream, sourceSize: nat -> uint32, targetSize: nat -> uint32, atOnce: bool)
    returns (code: Code)
    requires stream.Valid() && stream.output.AvailOut() > 0 && stream.JobDue(atOnce)
    modifies stream, stream.input, stream.output
    modifies stream.input.fifoIn, stream.output.fifoOut, stream.output.nextOut
    ensures code == Astray <==> old(stream.Space()) > 0x8000_0000
  {
    hide Stream.Logged, AllRight, Input.Valid, Output.Valid, Due, Output.Misjudged, Window;
    ghost var before, limit, given := stream.log, stream.Limit(), |stream.input.given|;
    stream.Balance();
    code := stream.Inflate(NothingYet(), sourceSize, targetSize, atOnce);
    FirstRight(stream.log, before, limit, given, Plan(sourceSize, targetSize, stream.input.threshold, atOnce));
    if code != Astray { stream.NoneAstray(); }
    assert |stream.log[|before|].reply.output| == 0;
  }

  /** An engine that makes n bytes when it can. */
  function Makes(n: nat): Engine {
    (k, history, source, room) => Reply(if n <= room then seq(n, i => 0) else [], 0, false, false, 0)
  }

  method NewStream(buffer: array<byte>) returns (stream: Stream)
    requires buffer.Length < WORD
    ensures stream.Valid() && stream.log == [] && stream.output.nextOut == buffer && stream.input.fifoIn == null
    ensures fresh(stream) && fresh(stream.input) && fresh(stream.output) && fresh(stream.output.fifoOut)
    ensures stream.Space() == stream.output.AvailOut() == stream.Limit() == buffer.Length && stream.output.usedOut == 0
    ensures stream.input.threshold == 8192 && stream.Total() == 0 && !stream.output.isFinal && stream.input.given == []
  {
    var input := new Input(8192);
    var output := new Output(0x40_0000, buffer);
    stream := new Stream(input, output);
  }

  /** 40960 bytes made with 3 GB of space: all of it counts as written, and another gigabyte as waiting. */
  method ThreeGigabytes(buffer: array<byte>, source: seq<byte>) returns (code: Code, stream: Stream)
    requires buffer.Length == 0xC000_0000 && 8192 <= |source| < WORD
    modifies buffer
    ensures code == Astray && |Outputs(stream.log)| == 40960
    ensures stream.output.totalOut == 0xC000_0000 && stream.output.usedOut == 0x4000_A000
  {
    hide Stream.Logged, Input.Valid, Output.Valid, Outputs, Used, AllRight, Stream.EndsWell, Stream.LittleLeft, Window;
    stream := NewStream(buffer);
    stream.Supply(source);
    var plan := Plan(k => 8192, k => 40960, 8192, false);
    assert stream.Limit() == 0xC000_0000;
    code := stream.Inflate(Makes(40960), plan.source, plan.target, false);
    FirstRight(stream.log, [], 0xC000_0000, |source|, plan);
    NoneMade();
    if code != Astray { stream.NoneAstray(); }
    FirstAnswer(Makes(40960), stream.log);
    AllButLast(stream.log, code == Astray);
  }

  lemma NoneMade()
    ensures Outputs([]) == [] && Used([]) == []
  {
  }

  lemma FirstAnswer(engine: Engine, log: seq<Job>)
    requires log != [] && AnsweredBy(engine, log, 0)
    ensures log[0].reply == engine(log[0].number, log[0].history, log[0].source, log[0].room)
  {
  }

  /** The first job that goes astray is the last. */
  lemma AllButLast(log: seq<Job>, astray: bool)
    requires log != [] && NoStrays(if astray then log[..|log| - 1] else log)
    ensures Stray(log[0]) ==> astray && |log| == 1
    ensures |log| == 1 ==> Outputs(log) == log[0].reply.output && Outputs(log[..|log| - 1]) == []
  {
    if |log| > 1 { assert log[..|log| - 1][0] == log[0]; }
    assert log[..0] == [];
  }

  /** One cached byte and 2^32 - 1 more: the sum is zero, and no call makes any progress. */
  method NoProgress(buffer: array<byte>, first: byte, more: seq<byte>, engine: Engine) returns (stream: Stream)
    requires 0 < buffer.Length < WORD && |more| == WORD - 1 && Honest(engine)
    modifies buffer
    ensures stream.Valid() && stream.log == [] && stream.Total() == WORD && stream.Idles(false)
  {
    stream := OneByteCached(buffer, first, engine);
    stream.Supply(more);
    Stays(stream, engine);
    Stays(stream, engine);
  }

  method OneByteCached(buffer: array<byte>, first: byte, engine: Engine) returns (stream: Stream)
    requires 0 < buffer.Length < WORD && Honest(engine)
    modifies buffer
    ensures stream.Valid() && stream.log == [] && stream.input.nextIn == [] && stream.input.usedIn == 1
    ensures stream.Space() > 0 && stream.output.usedOut == 0 && !stream.output.isFinal
    ensures stream.input.threshold == 8192 && stream.output.nextOut == buffer
    ensures fresh(stream) && fresh(stream.input) && fresh(stream.output) && fresh(stream.output.fifoOut)
    ensures stream.input.fifoIn == null || fresh(stream.input.fifoIn)
  {
    hide Stream.Logged, Input.Valid, Output.Valid;
    stream := NewStream(buffer);
    stream.Supply([first]);
    var code := stream.Inflate(engine, k => 8192, k => 40960, false);
  }

  method Stays(stream: Stream, engine: Engine)
    requires stream.Valid() && stream.Idles(false) && stream.Total() >= WORD && Honest(engine)
    modifies stream, stream.input, stream.output
    modifies stream.input.fifoIn, stream.output.fifoOut, stream.output.nextOut
    ensures stream.Valid() && stream.Idles(false) && stream.Total() == old(stream.Total())
    ensures stream.log == old(stream.log)
    ensures stream.output.fifoOut == old(stream.output.fifoOut) && stream.output.nextOut == old(stream.output.nextOut)
    ensures stream.input.fifoIn == old(stream.input.fifoIn) || fresh(stream.input.fifoIn)
  {
    hide Stream.Logged, Input.Valid, Output.Valid;
    var code := stream.Inflate(engine, k => 8192, k => 40960, false);
  }

  lemma PrefixBehind<T>(a: seq<T>, b: seq<T>, n: nat)
    requires n <= |b|
    ensures a + b[..n] <= a + b
  {
  }
}
