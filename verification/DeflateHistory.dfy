/**
  The input side of a compression stream (lib/nx_deflate.c): small inputs are
  cached in fifo_in behind the history that the next job of the engine needs.
  */
module DeflateHistory {
  import opened Buffers

  // ---------- What becomes of the history ----------

  /** Input that was cached becomes history where it is. */
  lemma CachedBecomesHistory<T>(f: seq<T>, cur: nat, n: nat, h: nat, done: seq<T>)
    requires cur + n <= |f| && h <= |done| && Window(f, cur, h, done)
    ensures Window(f, cur + n, h + n, done + f[cur..cur + n])
  {
    var all, end := done + f[cur..cur + n], cur + n;
    forall i | cur - h <= i < end ensures Held(f, end, all, i) {
      var k := i - end + |all|;
      if i < cur {
        assert Held(f, cur, done, i) && all[k] == done[k];
      } else {
        assert all[k] == f[cur..cur + n][i - cur] == f[i];
      }
    }
  }

  /** The same three moves for a history of at most m bytes. */
  lemma TakeKeeps<T>(f: seq<T>, cur: nat, n: nat, m: nat, done: seq<T>)
    requires cur + n <= |f| && Window(f, cur, Min(cur, m), done)
    ensures Window(f, cur + n, Min(cur + n, m), done + f[cur..cur + n])
  {
    CachedBecomesHistory(f, cur, n, Min(cur, m), done);
    ShorterWindow(f, cur + n, Min(cur, m) + n, Min(cur + n, m), done + f[cur..cur + n]);
  }

  lemma FitKeeps<T>(f: seq<T>, cur: nat, keep: nat, m: nat, done: seq<T>)
    requires keep <= cur && keep <= m && Window(f, cur, Min(cur, m), done)
    ensures Window(Splice(f, 0, f[cur - keep..cur]), keep, Min(keep, m), done)
  {
    ShorterWindow(f, cur, Min(cur, m), keep, done);
    MoveWindow(f, cur, keep, done, cur - keep, cur);
  }

  lemma NextKeeps<T>(f: seq<T>, cur: nat, m: nat, done: seq<T>, input: seq<T>)
    requires cur + Min(|input|, m) <= |f| && Window(f, cur, Min(cur, m), done)
    ensures var n := Min(|input|, m); Window(Splice(f, cur, Last(input, n)), cur + n, Min(cur + n, m), done + input)
  {
    var n := Min(|input|, m);
    var h := if n == |input| then Min(cur, m) else 0;
    ShorterWindow(f, cur, Min(cur, m), h, done);
    AppendWindow(f, cur, h, done, input, n);
    ShorterWindow(Splice(f, cur, Last(input, n)), cur + n, h + n, Min(cur + n, m), done + input);
  }

  // ---------- The stream ----------

  class Input {
    const lenIn: nat
    const maxHistory: nat
    const threshold: nat
    /** Allocated when first needed. */
    var fifoIn: array?<byte>
    var curIn: nat
    var usedIn: nat
    var nextIn: seq<byte>
    var historyLen: nat
    /** All the input, and what the engine has taken of it. */
    ghost var given: seq<byte>
    ghost var done: seq<byte>

    ghost predicate Bounds()
      reads this, fifoIn
    {
      && threshold + maxHistory <= lenIn / 2 < 0x4000_0000 && |nextIn| < WORD
      && curIn + usedIn <= lenIn / 2
      && if fifoIn == null then curIn == 0 && usedIn == 0 else fifoIn.Length == lenIn
    }

    function Cached(): seq<byte>
      reads this, fifoIn
      requires Bounds()
    {
      if fifoIn == null then [] else fifoIn[curIn..curIn + usedIn]
    }

    function Pending(): seq<byte>
      reads this, fifoIn
      requires Bounds()
    {
      Cached() + nextIn
    }

    /** The history is whole: as much as was taken, or as much as is ever kept. */
    ghost predicate Historic()
      reads this, fifoIn
      requires Bounds()
    {
      && (curIn == |done| || maxHistory <= curIn <= |done|)
      && (fifoIn != null ==> Window(fifoIn[..], curIn, Min(curIn, maxHistory), done))
    }

    ghost predicate Ready()
      reads this, fifoIn
    {
      Bounds() && Historic() && historyLen == Min(|done|, maxHistory)
    }

    /** Nothing of the input is lost, and the next job finds its history. */
    ghost predicate Valid()
      reads this, fifoIn
    {
      Ready() && given == done + Pending()
    }

    constructor (lenIn: nat, maxHistory: nat, threshold: nat)
      requires threshold + maxHistory <= lenIn / 2 && lenIn < 0x8000_0000
      ensures Valid() && given == [] && done == [] && fifoIn == null && curIn == 0 && Total() == 0
      ensures this.lenIn == lenIn && this.maxHistory == maxHistory
      ensures this.threshold == threshold
    {
      this.lenIn, this.maxHistory, this.threshold := lenIn, maxHistory, threshold;
      fifoIn, curIn, usedIn, nextIn, historyLen := null, 0, 0, [], 0;
      given, done := [], [];
    }

    method Supply(more: seq<byte>)
      requires Valid() && |nextIn| + |more| < WORD
      modifies this`nextIn, this`given
      ensures Valid() && given == old(given) + more && Pending() == old(Pending()) + more
      ensures nextIn == old(nextIn) + more
    {
      ghost var c := Cached();
      MoreBehind(done, c, nextIn, more);
      nextIn, given := nextIn + more, given + more;
      assert Cached() == c;
    }

    /** fifo_in_alloc_check */
    method AllocCheck()
      requires Bounds() && Historic()
      modifies this`fifoIn
      ensures Bounds() && Historic() && fifoIn != null && (fifoIn == old(fifoIn) || fresh(fifoIn))
      ensures old(fifoIn) != null ==> fifoIn == old(fifoIn)
      ensures Cached() == old(Cached())
    {
      if fifoIn == null {
        fifoIn := new byte[lenIn];
      }
    }

    /** memmove to the front of fifo_in, from `keep` bytes before curIn to n bytes after it. */
    method MoveFront(keep: nat, n: nat)
      requires fifoIn != null && keep <= curIn && curIn + n <= fifoIn.Length
      modifies this`curIn, fifoIn
      ensures fifoIn[..] == Splice(old(fifoIn[..]), 0, old(fifoIn[..])[old(curIn) - keep..old(curIn) + n])
      ensures curIn == keep
    {
      var bytes := fifoIn[curIn - keep..curIn + n];
      assert bytes == fifoIn[..][curIn - keep..curIn + n];
      Write(fifoIn, 0, bytes);
      curIn := keep;
    }

    /** What is kept of the history, and the cached input, go to the front. */
    method ThrowAway()
      requires Ready() && fifoIn != null && curIn >= maxHistory
      modifies this`curIn, fifoIn
      ensures Ready() && Cached() == old(Cached()) && curIn == maxHistory
    {
      hide Window, Splice;
      ghost var f, c := fifoIn[..], curIn;
      MoveWindow(f, c, maxHistory, done, c - maxHistory, c + usedIn);
      MovedSlice(f, c - maxHistory, c, c + usedIn);
      assert f[c..c + usedIn] == Cached();
      MoveFront(maxHistory, usedIn);
      assert fifoIn[curIn..curIn + usedIn] == fifoIn[..][curIn..curIn + usedIn];
    }

    method Append(n: nat)
      requires Ready() && fifoIn != null && n <= |nextIn| && curIn + usedIn + n <= lenIn / 2
      modifies this`usedIn, fifoIn
      ensures Ready() && Cached() == old(Cached()) + nextIn[..n]
    {
      ghost var f := fifoIn[..];
      var bytes := nextIn[..n];
      Behind(f, curIn, usedIn, bytes, Min(curIn, maxHistory), done);
      Write(fifoIn, curIn + usedIn, bytes);
      usedIn := usedIn + n;
      ghost var g := fifoIn[..];
      assert Cached() == g[curIn..curIn + usedIn];
    }

    /** Room behind the cached input, making some if there is not enough. False if a move would start before fifo_in. */
    method MakeRoom() returns (ok: bool)
      requires Ready() && fifoIn != null
      modifies this`curIn, fifoIn
      ensures ok <==> old(curIn + usedIn + |nextIn| <= lenIn / 2 || curIn >= maxHistory)
      ensures ok ==> Ready() && Cached() == old(Cached())
      ensures !ok || old(curIn) < maxHistory ==> curIn == old(curIn)
      ensures ok && usedIn + |nextIn| <= threshold ==> curIn + usedIn + |nextIn| <= lenIn / 2
    {
      var free := if curIn + usedIn < lenIn / 2 then lenIn / 2 - curIn - usedIn else 0;
      ok := true;
      if free < |nextIn| {
        if curIn < maxHistory {
          return false;
        }
        ThrowAway();
      }
    }

    method CacheSome() returns (ok: bool, n: nat)
      requires Ready() && (usedIn > 0 || |nextIn| <= threshold)
      modifies this`fifoIn, this`curIn, this`usedIn, fifoIn
      ensures ok <==> old(curIn + usedIn + |nextIn| <= lenIn / 2 || curIn >= maxHistory)
      ensures ok ==> n <= |nextIn| && Ready() && Cached() == old(Cached()) + nextIn[..n]
      ensures !ok ==> usedIn == old(usedIn)
      ensures ok && old(usedIn) + |nextIn| <= threshold ==> n == |nextIn|
      ensures !ok || old(curIn) < maxHistory ==> curIn == old(curIn)
      ensures fifoIn == old(fifoIn) || fresh(fifoIn)
    {
      hide Window, Input.Historic;
      AllocCheck();
      ok := MakeRoom();
      n := 0;
      if ok {
        n := Min(lenIn / 2 - curIn - usedIn, |nextIn|);
        Append(n);
      }
    }

    function Total(): nat
      reads this
    {
      usedIn + |nextIn|
    }

    /** used_in + avail_in, as a uint32_t: the guard of cache_input. */
    function GuardSum(): uint32
      reads this
    {
      Total() % WORD
    }

    /** The guard lets the input in, and fifo_in would be read before its start. */
    predicate Underruns()
      reads this
    {
      Total() >= WORD && curIn < maxHistory
    }

    /**
      cache_input. Behind its guard, no move reads before the buffer if and only if the sum of the
      guard does not wrap, or there is as much before the cached input as is kept.
      */
    method CacheInput() returns (ok: bool)
      requires Valid() && GuardSum() <= threshold
      modifies this`fifoIn, this`curIn, this`usedIn, this`nextIn, fifoIn
      ensures ok <==> !old(Underruns())
      ensures Total() == old(Total()) && (ok ==> Valid() && Pending() == old(Pending()))
      ensures ok && old(Total()) < WORD ==> nextIn == []
      ensures !ok || old(curIn) < maxHistory ==> curIn == old(curIn)
      ensures fifoIn == old(fifoIn) || fresh(fifoIn)
    {
      hide Window, Input.Historic;
      GuardFits();
      ghost var c := Cached();
      var n;
      ok, n := CacheSome();
      if ok {
        Skip(n, c);
      }
    }

    /** update_stream_in: the bytes that were copied behind those cached before. */
    method Skip(n: nat, ghost c: seq<byte>)
      requires Ready() && n <= |nextIn| && Cached() == c + nextIn[..n] && given == done + (c + nextIn)
      modifies this`nextIn
      ensures Valid() && nextIn == old(nextIn)[n..] && Pending() == c + old(nextIn)
    {
      hide Window;
      Rejoined(Cached(), c, nextIn, n);
      nextIn := nextIn[n..];
    }

    lemma GuardFits()
      requires Bounds() && GuardSum() <= threshold
      ensures Total() < WORD ==> Total() <= threshold
      ensures usedIn > 0 || |nextIn| <= threshold
      ensures curIn + usedIn + |nextIn| <= lenIn / 2 || curIn >= maxHistory <==> !Underruns()
    {
    }

    // ---------- After a job ----------

    /** Cached input was used: it becomes history where it is. */
    method TakeCached(n: nat)
      requires Ready() && n <= usedIn
      modifies this`curIn, this`usedIn, this`done
      ensures Bounds() && Historic() && done == old(done) + old(Cached())[..n] && Cached() == old(Cached())[n..]
    {
      assert fifoIn == null ==> done + Cached()[..n] == done && Cached()[n..] == [];
      if fifoIn != null {
        TakeFromFifo(n);
      }
    }

    method TakeFromFifo(n: nat)
      requires Ready() && fifoIn != null && n <= usedIn
      modifies this`curIn, this`usedIn, this`done
      ensures Bounds() && Historic() && done == old(done) + old(Cached())[..n] && Cached() == old(Cached())[n..]
    {
      hide Window, Splice;
      ghost var f, c, u := fifoIn[..], curIn, usedIn;
      TakeKeeps(f, c, n, maxHistory, done);
      SliceOfSlice(f, c, u, n);
      done := done + f[c..c + n];
      curIn, usedIn := curIn + n, usedIn - n;
      assert fifoIn[..] == f && fifoIn[c..c + u] == f[c..c + u];
      assert Cached() == f[c + n..c + u];
    }

    /** Old data goes if the new input would pass the middle of fifo_in. */
    method FitNext(fromNext: nat)
      requires Bounds() && Historic() && fifoIn != null && (fromNext > 0 ==> usedIn == 0)
      modifies this`curIn, fifoIn
      ensures fifoIn.Length == lenIn && curIn + Min(fromNext, maxHistory) <= lenIn / 2
      ensures Window(fifoIn[..], curIn, Min(curIn, maxHistory), done)
      ensures fromNext == 0 ==> curIn == old(curIn) && fifoIn[..] == old(fifoIn[..])
      ensures WillFit(fromNext)
    {
      if curIn + fromNext > lenIn / 2 {
        var copy := if fromNext < maxHistory then maxHistory - fromNext else 0;
        FitKeeps(fifoIn[..], curIn, copy, maxHistory, done);
        MoveFront(copy, 0);
      }
    }

    /** With the new input behind it, the history will be whole. */
    ghost predicate WillFit(fromNext: nat)
      reads this
    {
      var end, total := curIn + Min(fromNext, maxHistory), |done| + fromNext;
      end == total || maxHistory <= end <= total
    }

    /** The end of the new input is copied behind the history. */
    method CopyNext(fromNext: nat)
      requires fifoIn != null && fifoIn.Length == lenIn && curIn + Min(fromNext, maxHistory) <= lenIn / 2
      requires 0 < fromNext <= |nextIn| && WillFit(fromNext)
      requires Window(fifoIn[..], curIn, Min(curIn, maxHistory), done)
      modifies this`curIn, this`done, fifoIn
      ensures done == old(done) + nextIn[..fromNext] && curIn <= lenIn / 2
      ensures curIn == |done| || maxHistory <= curIn <= |done|
      ensures Window(fifoIn[..], curIn, Min(curIn, maxHistory), done)
    {
      hide Window, Splice;
      var n := Min(fromNext, maxHistory);
      ghost var input := nextIn[..fromNext];
      NextKeeps(fifoIn[..], curIn, maxHistory, done, input);
      var bytes := nextIn[fromNext - n..fromNext];
      assert bytes == Last(input, n);
      Write(fifoIn, curIn, bytes);
      curIn := curIn + n;
      done := done + input;
    }

    /** Input straight from the caller becomes history in fifo_in. */
    method AddNext(fromNext: nat)
      requires Bounds() && Historic() && fromNext <= |nextIn| && (fromNext > 0 ==> usedIn == 0)
      modifies this`fifoIn, this`curIn, this`done, fifoIn
      ensures Bounds() && Historic() && done == old(done) + nextIn[..fromNext] && Cached() == old(Cached())
      ensures fifoIn == old(fifoIn) || fresh(fifoIn)
    {
      hide Window;
      AllocCheck();
      FitNext(fromNext);
      if fromNext > 0 {
        CopyNext(fromNext);
      }
    }

    method TakeBoth(fromUsed: nat, fromNext: nat)
      requires Ready() && fromUsed <= usedIn && fromNext <= |nextIn| && (fromNext > 0 ==> fromUsed == usedIn)
      modifies this`fifoIn, this`curIn, this`usedIn, this`done, fifoIn
      ensures Bounds() && Historic() && done == (old(done) + old(Cached())[..fromUsed]) + nextIn[..fromNext]
      ensures Cached() == old(Cached())[fromUsed..] && (fifoIn == old(fifoIn) || fresh(fifoIn))
    {
      TakeCached(fromUsed);
      AddNext(fromNext);
    }

    /** The input of a job becomes history. */
    method Advance(spbc: nat)
      requires Ready() && spbc <= |Pending()|
      modifies this`fifoIn, this`curIn, this`usedIn, this`nextIn, this`historyLen, this`done, fifoIn
      ensures Ready() && done == old(done) + old(Pending())[..spbc] && Pending() == old(Pending())[spbc..]
      ensures usedIn == old(usedIn) - Min(old(usedIn), spbc) && (fifoIn == old(fifoIn) || fresh(fifoIn))
    {
      hide Window, Input.Historic;
      var fromUsed := Min(usedIn, spbc);
      var fromNext := if spbc > usedIn then spbc - usedIn else 0;
      FromBoth(done, Cached(), nextIn, fromUsed, fromNext);
      TakeBoth(fromUsed, fromNext);
      SetHistory();
      DropNext(fromNext);
    }

    method DropNext(n: nat)
      requires Ready() && n <= |nextIn|
      modifies this`nextIn
      ensures Ready() && Cached() == old(Cached()) && nextIn == old(nextIn)[n..]
    {
      hide Window;
      nextIn := nextIn[n..];
    }

    method SetHistory()
      requires Bounds() && Historic()
      modifies this`historyLen
      ensures Ready() && Cached() == old(Cached())
    {
      historyLen := Min(curIn, maxHistory);
    }

    /**
      nx_compress_block_update_offsets, for a job that used spbc bytes of input:
      the history is whole again and the rest of the input is still pending.
      */
    method UpdateOffsets(spbc: nat)
      requires Valid() && spbc <= |Pending()|
      modifies this`fifoIn, this`curIn, this`usedIn, this`nextIn, this`historyLen, this`done, fifoIn
      ensures Valid() && done == old(done) + old(Pending())[..spbc] && Pending() == old(Pending())[spbc..]
      ensures usedIn == old(usedIn) - Min(old(usedIn), spbc) && (fifoIn == old(fifoIn) || fresh(fifoIn))
    {
      if spbc == 0 {
        assert done + Pending()[..0] == done && Pending()[0..] == Pending();
        return;
      }
      SplitBehind(done, Pending(), spbc);
      Advance(spbc);
    }

    /** The input that the next job can use. */
    function Waiting(bufSize: nat): nat
      reads this
    {
      usedIn + Min(|nextIn|, bufSize)
    }

    /** n bytes of the input that waited, with d taken before, are taken. */
    ghost predicate Took(d: seq<byte>, p: seq<byte>, n: nat)
      reads this, fifoIn
      requires Bounds() && n <= |p|
    {
      done == d + p[..n] && Pending() == p[n..]
    }

    /** What is left waiting when n bytes of it are taken. */
    method TakeWaiting(n: nat, bufSize: nat)
      requires Valid() && n <= Waiting(bufSize)
      modifies this`fifoIn, this`curIn, this`usedIn, this`nextIn, this`historyLen, this`done, fifoIn
      ensures Valid() && (fifoIn == old(fifoIn) || fresh(fifoIn))
      ensures n <= |old(Pending())| && Waiting(bufSize) + n >= old(Waiting(bufSize)) && Total() == old(Total()) - n
      ensures Took(old(done), old(Pending()), n)
    {
      hide Window, Input.Historic;
      LeftWaiting(usedIn, |nextIn|, bufSize, n);
      UpdateOffsets(n);
    }

    /** nx_setup_ddl_in: the history in whole quadwords, then cached input, then the caller's. */
    method SetupDdlIn(limit: nat, bufSize: nat) returns (history: seq<byte>, input: seq<byte>)
      requires Valid() && Sizes(limit, bufSize)
      ensures |history| <= |done| && history == Last(done, |history|) && input <= Pending()
      ensures |history| == HistBytes(Min(|done|, maxHistory), Waiting(bufSize), limit)
      ensures |input| == InputBytes(|history|, Waiting(bufSize), limit)
    {
      hide Window;
      var avail := Min(|nextIn|, bufSize);
      var budget := limit;
      Unwrapped(limit);
      history := [];
      if fifoIn != null && historyLen > 0 && usedIn + avail < limit {
        history := HistoryPart(historyLen - historyLen % 16);
        budget := (budget - |history|) % WORD;
      }
      assert history == [] ==> history == Last(done, 0);
      input := InputPart(budget, avail);
    }

    method InputPart(budget: nat, avail: nat) returns (input: seq<byte>)
      requires Bounds() && avail <= |nextIn|
      ensures input <= Pending()
      ensures |input| == Min(budget, usedIn) + Min(avail, budget - Min(budget, usedIn))
    {
      var fromFifo, left := 0, budget;
      input := [];
      if fifoIn != null {
        fromFifo := Min(budget, usedIn);
        input := fifoIn[curIn..curIn + fromFifo];
        left := left - fromFifo;
      }
      assert input == Cached()[..fromFifo];
      if avail > 0 && left > 0 {
        var fromNext := Min(avail, left);
        assert input == Cached();
        input := input + nextIn[..fromNext];
      }
    }

    method HistoryPart(hist: nat) returns (h: seq<byte>)
      requires Ready() && fifoIn != null && hist <= historyLen
      ensures |h| == hist <= |done| && h == Last(done, hist)
    {
      h := fifoIn[curIn - hist..curIn];
      ShorterWindow(fifoIn[..], curIn, Min(curIn, maxHistory), hist, done);
      WindowIs(fifoIn[..], curIn, hist, done);
    }
  }

  // ---------- The size of a job ----------

  /** How much history a job is given: all of it in whole quadwords, whatever the limit. */
  function HistBytes(historyLen: nat, waiting: nat, limit: nat): nat {
    if historyLen > 0 && waiting < limit then historyLen - historyLen % 16 else 0
  }

  /** The input of a job: its budget is an unsigned 32-bit number. */
  function InputBytes(hist: nat, waiting: nat, limit: nat): nat {
    Min((limit - hist) % WORD, waiting)
  }

  /** The limit on the input of a job is kept if and only if the history alone is within it. */
  lemma LimitKept(historyLen: nat, waiting: nat, limit: nat)
    requires limit < 0x8000_0000
    ensures var hist := HistBytes(historyLen, waiting, limit);
      hist + InputBytes(hist, waiting, limit) <= limit <==> hist <= limit
  {
  }

  lemma Unwrapped(limit: nat)
    requires limit < 0x8000_0000
    ensures limit % WORD == limit
  {
  }

  /** The limit of a job is an int, and the size of a buffer is at most 8 MB. */
  predicate Sizes(limit: nat, bufSize: nat) {
    limit < 0x8000_0000 && bufSize < 0x8000_0000
  }

  /** A job that asks for no more than what waits has no history, and gets what it asks for. */
  lemma NoHistory(historyLen: nat, waiting: nat, limit: nat)
    requires limit < 0x8000_0000 && limit <= waiting
    ensures HistBytes(historyLen, waiting, limit) == 0 && InputBytes(0, waiting, limit) == limit
  {
    Unwrapped(limit);
  }

  lemma LeftWaiting(used: nat, avail: nat, bufSize: nat, n: nat)
    requires n <= used + Min(avail, bufSize)
    ensures var fromUsed := Min(used, n);
      (used - fromUsed) + Min(avail - (n - fromUsed), bufSize) >= used + Min(avail, bufSize) - n
  {
  }

  lemma Rejoined<T>(a: seq<T>, b: seq<T>, n: seq<T>, k: nat)
    requires k <= |n| && a == b + n[..k]
    ensures a + n[k..] == b + n
  {
  }

  lemma FromBoth<T>(d: seq<T>, c: seq<T>, n: seq<T>, a: nat, b: nat)
    requires a <= |c| && b <= |n| && (a == |c| || b == 0)
    ensures (d + c[..a]) + n[..b] == d + (c + n)[..a + b]
    ensures c[a..] + n[b..] == (c + n)[a + b..]
  {
    assert c[..a] + n[..b] == (c + n)[..a + b];
  }

  lemma SplitBehind<T>(d: seq<T>, p: seq<T>, k: nat)
    requires k <= |p|
    ensures (d + p[..k]) + p[k..] == d + p
  {
  }

  lemma SliceOfSlice<T>(f: seq<T>, p: nat, u: nat, n: nat)
    requires n <= u && p + u <= |f|
    ensures f[p..p + u][..n] == f[p..p + n] && f[p..p + u][n..] == f[p + n..p + u]
  {
  }

  lemma MoreBehind<T>(a: seq<T>, b: seq<T>, c: seq<T>, d: seq<T>)
    ensures (a + (b + c)) + d == a + (b + (c + d)) && (b + c) + d == b + (c + d)
  {
    assert (b + c) + d == b + (c + d);
  }

  /** New input goes behind what is cached. */
  lemma Behind<T>(f: seq<T>, cur: nat, used: nat, bytes: seq<T>, h: nat, done: seq<T>)
    requires cur + used + |bytes| <= |f| && Window(f, cur, h, done)
    ensures var g := Splice(f, cur + used, bytes);
      Window(g, cur, h, done) && g[cur..cur + used + |bytes|] == f[cur..cur + used] + bytes
  {
    var g := Splice(f, cur + used, bytes);
    SpliceAt(f, cur + used, bytes);
    forall i | cur - h <= i < cur ensures Held(g, cur, done, i) {
      assert Held(f, cur, done, i) && g[i] == f[i];
    }
  }
}
