/** nx_copy of lib/nx_zlib.c: a long copy in several jobs, with the checksums folded together. */
module NxCopy {
  import opened Wrappers
  import opened Buffers
  import Adler
  import Crc

  /** The bytes as the CRC register takes them. */
  function Octets(bs: seq<byte>): (os: seq<Crc.octet>)
    ensures |os| == |bs|
    decreases |bs|
  {
    if bs == [] then [] else [bs[0] as Crc.octet] + Octets(bs[1..])
  }

  lemma {:induction false} OctetsConcat(a: seq<byte>, b: seq<byte>)
    ensures Octets(a + b) == Octets(a) + Octets(b)
    decreases |a|
  {
    if a == [] {
      assert a + b == b;
    } else {
      assert (a + b)[1..] == a[1..] + b;
      OctetsConcat(a[1..], b);
    }
  }

  function CrcOf(bs: seq<byte>): bv32 {
    Crc.Crc32(Octets(bs))
  }

  /** The checksums are those of bs, where they are asked for. */
  ghost predicate SumsOf(crc: Option<bv32>, adler: Option<nat>, bs: seq<byte>) {
    (crc.Some? ==> crc.value == CrcOf(bs)) && (adler.Some? ==> adler.value == Adler.Adler32(bs))
  }

  /** What a job of the engine reports: the copy and the checksums of its own bytes. */
  method Job(dst: array<byte>, at: nat, chunk: seq<byte>, ok: bool) returns (crc: bv32, adler: nat)
    requires at + |chunk| <= dst.Length
    modifies dst
    ensures ok ==> crc == CrcOf(chunk) && adler == Adler.Adler32(chunk) && dst[..] == Splice(old(dst[..]), at, chunk)
    ensures !ok ==> forall i :: 0 <= i < dst.Length && !(at <= i < at + |chunk|) ==> dst[i] == old(dst[i])
  {
    crc, adler := 0, 0;
    if ok {
      crc, adler := CrcOf(chunk), Adler.Adler32(chunk);
      Write(dst, at, chunk);
    }
  }

  /** Folding in one more chunk. */
  method Fold(crc: Option<bv32>, adler: Option<nat>, outCrc: bv32, outAdler: nat, len: nat,
              ghost before: seq<byte>, ghost chunk: seq<byte>)
    returns (crc': Option<bv32>, adler': Option<nat>)
    requires outCrc == CrcOf(chunk) && outAdler == Adler.Adler32(chunk) && len == |chunk|
    ensures crc'.Some? == crc.Some? && adler'.Some? == adler.Some?
    ensures SumsOf(crc, adler, before) ==> SumsOf(crc', adler', before + chunk)
  {
    crc', adler' := None, None;
    if crc.Some? {
      var c := Crc.NxCrc32Combine(crc.value, outCrc, len);
      crc' := Some(c);
      OctetsConcat(before, chunk);
    }
    if adler.Some? {
      var a := Adler.NxAdler32Combine(adler.value, outAdler, len);
      adler' := Some(a);
    }
  }

  /** The first n bytes are those of src, and from the end of the next job on the bytes are as before. */
  ghost predicate CopiedTo(before: seq<byte>, after: seq<byte>, src: seq<byte>, n: nat, end: nat) {
    && |before| == |after| && n <= |src| <= |after| && after[..n] == src[..n]
    && forall i :: end <= i < |after| ==> after[i] == before[i]
  }

  /** One turn of the loop: the job behind the first at bytes, and its checksums folded in. */
  method NextJob(dst: array<byte>, src: seq<byte>, at: nat, n: nat, ok: bool, crc: Option<bv32>, adler: Option<nat>,
                 ghost was: seq<byte>, ghost before: seq<byte>)
    returns (crc': Option<bv32>, adler': Option<nat>)
    requires at + n <= |src| <= dst.Length == |was| && dst[..] == Splice(was, 0, src[..at])
    modifies dst
    ensures crc'.Some? == crc.Some? && adler'.Some? == adler.Some?
    ensures ok ==> dst[..] == Splice(was, 0, src[..at + n])
    ensures ok && SumsOf(crc, adler, before + src[..at]) ==> SumsOf(crc', adler', before + src[..at + n])
    ensures !ok ==> CopiedTo(was, dst[..], src, at, at + n)
  {
    hide SumsOf, CopiedTo;
    var c, a := Job(dst, at, src[at..at + n], ok);
    if !ok {
      CopiedSoFar(was, dst[..], src, at, at + n);
      return crc, adler;
    }
    crc', adler' := Fold(crc, adler, c, a, n, before + src[..at], src[at..at + n]);
    NextChunk(before, src, at, n);
    SpliceOn(was, src, at, n);
  }

  /** Job k has something to copy. */
  predicate HasJob(k: nat, perJobLen: nat, n: nat) {
    k * perJobLen < n
  }

  /** The first k jobs copy the first at of n bytes. */
  ghost predicate Reached(k: nat, perJobLen: nat, n: nat, at: nat) {
    at == Min(k * perJobLen, n)
  }

  /**
    nx_copy: ok tells which jobs succeed. The copy is done if and only if no job fails, and
    otherwise all jobs before the first that fails have copied their bytes. Checksums of any
    string the caller has so far become those of that string followed by the copied one.
    */
  method NxCopy(dst: array<byte>, src: seq<byte>, perJobLen: nat, softThreshold: nat,
                crc: Option<bv32>, adler: Option<nat>, ok: nat -> bool, ghost before: seq<byte>)
    returns (done: bool, crc': Option<bv32>, adler': Option<nat>, ghost jobs: nat)
    requires perJobLen > 0 && dst.Length >= |src|
    modifies dst
    ensures done <==>
      || (|src| < softThreshold && crc.None? && adler.None?)
      || forall k: nat :: HasJob(k, perJobLen, |src|) ==> ok(k)
    ensures done ==> dst[..] == Splice(old(dst[..]), 0, src)
    ensures done && SumsOf(crc, adler, before) ==> SumsOf(crc', adler', before + src)
    ensures crc'.Some? == crc.Some? && adler'.Some? == adler.Some?
    ensures !done ==> crc' == crc && adler' == adler
    ensures !done ==>
      && HasJob(jobs, perJobLen, |src|) && !ok(jobs) && (forall k: nat :: k < jobs ==> ok(k))
      && CopiedTo(old(dst[..]), dst[..], src, jobs * perJobLen, Min((jobs + 1) * perJobLen, |src|))
  {
    crc', adler', jobs := crc, adler, 0;
    if |src| < softThreshold && crc.None? && adler.None? {
      Write(dst, 0, src);
      return true, crc, adler, 0;
    }
    hide SumsOf, CopiedTo, CrcOf, Reached, HasJob, Splice;
    var inCrc, inAdler := crc, adler;
    var at, k := 0, 0;
    NoneYet(dst[..], src, perJobLen);
    assert before + src[..0] == before;
    while at < |src|
      invariant at <= |src| && Reached(k, perJobLen, |src|, at)
      invariant inCrc.Some? == crc.Some? && inAdler.Some? == adler.Some?
      invariant forall i: nat :: i < k ==> ok(i)
      invariant dst[..] == Splice(old(dst[..]), 0, src[..at])
      invariant SumsOf(crc, adler, before) ==> SumsOf(inCrc, inAdler, before + src[..at])
    {
      var n := Min(perJobLen, |src| - at);
      NextAt(k, perJobLen, |src|, at);
      inCrc, inAdler := NextJob(dst, src, at, n, ok(k), inCrc, inAdler, old(dst[..]), before);
      if !ok(k) {
        return false, crc, adler, k;
      }
      at, k := at + n, k + 1;
    }
    assert src[..at] == src;
    forall i: nat | HasJob(i, perJobLen, |src|) ensures ok(i) {
      MoreJobs(k, i, perJobLen, |src|);
    }
    return true, inCrc, inAdler, k;
  }

  lemma CopiedSoFar(f: seq<byte>, g: seq<byte>, src: seq<byte>, at: nat, end: nat)
    requires at <= end <= |src| <= |f| == |g|
    requires forall i :: 0 <= i < |f| && !(at <= i < end) ==> g[i] == Splice(f, 0, src[..at])[i]
    ensures CopiedTo(f, g, src, at, end)
  {
    SpliceAt(f, 0, src[..at]);
  }

  lemma NoneYet(f: seq<byte>, src: seq<byte>, perJobLen: nat)
    requires |src| <= |f|
    ensures Reached(0, perJobLen, |src|, 0) && f == Splice(f, 0, src[..0])
  {
  }

  lemma NextAt(k: nat, perJobLen: nat, n: nat, at: nat)
    requires at < n && Reached(k, perJobLen, n, at)
    ensures HasJob(k, perJobLen, n) && at == k * perJobLen
    ensures at + Min(perJobLen, n - at) == Min((k + 1) * perJobLen, n)
    ensures Reached(k + 1, perJobLen, n, at + Min(perJobLen, n - at))
  {
    assert (k + 1) * perJobLen == k * perJobLen + perJobLen;
  }

  lemma MoreJobs(k: nat, i: nat, perJobLen: nat, n: nat)
    requires Reached(k, perJobLen, n, n) && HasJob(i, perJobLen, n)
    ensures i < k
  {
    assert k <= i ==> k * perJobLen <= i * perJobLen;
  }

  lemma NextChunk(before: seq<byte>, src: seq<byte>, at: nat, n: nat)
    requires at + n <= |src|
    ensures (before + src[..at]) + src[at..at + n] == before + src[..at + n]
  {
    assert src[..at] + src[at..at + n] == src[..at + n];
  }

  lemma SpliceOn(f: seq<byte>, src: seq<byte>, at: nat, n: nat)
    requires at + n <= |src| <= |f|
    ensures Splice(Splice(f, 0, src[..at]), at, src[at..at + n]) == Splice(f, 0, src[..at + n])
  {
    SpliceAt(f, 0, src[..at]);
    SpliceAt(Splice(f, 0, src[..at]), at, src[at..at + n]);
    SpliceAt(f, 0, src[..at + n]);
  }
}
