/**
  The jobs of a compression stream over whole calls of nx_deflate (lib/nx_deflate.c), as far as
  its input goes: which job is given what, and what becomes of input whose output has expanded.
  */
module DeflateStream {
  import opened Buffers
  import opened DeflateHistory

  // ---------- The engine ----------

  /** What the engine reports: bytes taken, history and all, with or without an output that has expanded. */
  datatype Reply = Taken(n: nat) | Expanded(n: nat) | Failed

  /** Any engine that stays within what it is offered; the first argument tells jobs that only copy. */
  type Engine = (bool, seq<byte>, seq<byte>) -> Reply

  ghost predicate WithinInput(engine: Engine) {
    forall copy, history, input ::
      var r := engine(copy, history, input); !r.Failed? ==> r.n <= |history| + |input|
  }

  /** A job that was run: what it was given out of the input waiting, some of it cached, and the answer. */
  datatype Job = Job(copy: bool, history: seq<byte>, input: seq<byte>, cached: nat, waiting: nat, limit: nat,
                     reply: Reply)

  /** The bytes taken of the input alone. */
  function Net(n: nat, history: seq<byte>): nat {
    Max(n, |history|) - |history|
  }

  /** The input that is gone after the job: none if it has to be repeated. */
  function Consumed(j: Job): nat {
    if j.reply.Taken? then Net(j.reply.n, j.history) else 0
  }

  /** All the input that the jobs used. */
  function Used(log: seq<Job>): seq<byte> {
    if log == [] then []
    else
      var j := log[|log| - 1];
      Used(log[..|log| - 1]) + if Consumed(j) <= |j.input| then j.input[..Consumed(j)] else j.input
  }

  /**
    With d used before, the job got all of the last m bytes of it in whole quadwords, if its limit
    left room for any, and the input that follows.
    */
  ghost predicate Fed(j: Job, m: nat, d: seq<byte>, given: seq<byte>) {
    && (if j.waiting < j.limit then |j.history| % 16 == 0 && Min(|d|, m) - 16 < |j.history| <= Min(|d|, m)
        else j.history == [])
    && |j.history| <= |d| && j.history == Last(d, |j.history|)
    && |j.input| == Min((j.limit - |j.history|) % WORD, j.waiting) && d + j.input <= given
    && Consumed(j) <= |j.input| && j.limit < 0x8000_0000
  }

  lemma StaysWithin(engine: Engine, copy: bool, history: seq<byte>, input: seq<byte>)
    requires WithinInput(engine)
    ensures var r := engine(copy, history, input); !r.Failed? ==> Net(r.n, history) <= |input|
  {
  }

  lemma IsFed(j: Job, m: nat, d: seq<byte>, pending: seq<byte>)
    requires |j.history| == HistBytes(Min(|d|, m), j.waiting, j.limit) <= |d| && j.history == Last(d, |j.history|)
    requires |j.input| == InputBytes(|j.history|, j.waiting, j.limit) && j.input <= pending
    requires (!j.reply.Failed? ==> Net(j.reply.n, j.history) <= |j.input|) && j.limit < 0x8000_0000
    ensures Fed(j, m, d, d + pending) && |j.input| <= j.waiting
    ensures Consumed(j) <= |j.input| <= |pending| && j.input[..Consumed(j)] == pending[..Consumed(j)]
  {
    PrefixBehind(d, j.input, pending);
    QuadWords(Min(|d|, m));
  }

  lemma QuadWords(n: nat)
    ensures (n - n % 16) % 16 == 0 && n - 16 < n - n % 16 <= n
  {
  }

  ghost predicate AllFed(log: seq<Job>, m: nat, given: seq<byte>) {
    forall i {:trigger Used(log[..i])} :: 0 <= i < |log| ==> Fed(log[i], m, Used(log[..i]), given)
  }

  /** The jobs from k on were answered by this engine. */
  ghost predicate AnsweredBy(engine: Engine, log: seq<Job>, k: nat) {
    forall i :: k <= i < |log| ==> log[i].reply == engine(log[i].copy, log[i].history, log[i].input)
  }

  /** nx_stored_block_len */
  const STORED_BLOCK_LEN := 60000

  /** A job that has no history, and just as much input as the block may have. */
  predicate Stored(j: Job) {
    j.copy && j.history == [] && |j.input| == j.limit <= 60000
  }

  /** A call ends in an error after a job that failed, or a copy that has expanded. */
  predicate Bad(j: Job) {
    if j.copy then !j.reply.Taken? else j.reply.Failed?
  }

  /** How much of the input of the last job with an expanded output is not in stored blocks yet. */
  function Owed(log: seq<Job>): nat {
    if log == [] then 0
    else
      var n := |log| - 1;
      if log[n].copy then Max(0, Owed(log[..n]) - Consumed(log[n]))
      else if log[n].reply.Expanded? then Net(log[n].reply.n, log[n].history)
      else 0
  }

  /** How a call runs its jobs. */
  datatype Plan = Plan(perJobLen: nat, bufSize: nat, mayCache: bool, threshold: nat)

  /**
    Job i of the log, in a call that began with job k: a job for all the input, when there is some
    and it is not cached instead, or a stored block for what is owed. No job follows a bad one.
    */
  ghost predicate RightJob(log: seq<Job>, i: nat, k: nat, given: nat, plan: Plan)
    requires i < |log|
  {
    && RightSize(log[i], log[..i], given, plan)
    && (i > k ==> !Bad(log[i - 1]))
  }

  /** The size of a job after others. */
  ghost predicate RightSize(j: Job, before: seq<Job>, given: nat, plan: Plan) {
    var left := given - |Used(before)|;
    && j.cached <= left && j.waiting == j.cached + Min(left - j.cached, plan.bufSize)
    && if j.copy then Owed(before) > 0 && j.limit == Min(Owed(before), 60000)
       else left > 0 && j.limit == plan.perJobLen && !(plan.mayCache && left % WORD <= plan.threshold)
  }

  ghost predicate AllRight(log: seq<Job>, k: nat, given: nat, plan: Plan) {
    forall i :: k <= i < |log| ==> RightJob(log, i, k, given, plan)
  }

  lemma NextRight(log: seq<Job>, j: Job, k: nat, given: nat, plan: Plan)
    requires k <= |log| && AllRight(log, k, given, plan)
    requires RightSize(j, log, given, plan) && (|log| > k ==> !Bad(log[|log| - 1]))
    ensures AllRight(log + [j], k, given, plan)
  {
    hide RightSize, Bad;
    var l := log + [j];
    forall i | k <= i < |l| ensures RightJob(l, i, k, given, plan) {
      assert l[..i] == log[..i];
      if i < |log| { assert RightJob(log, i, k, given, plan); }
    }
  }

  lemma NextOwed(log: seq<Job>, j: Job)
    ensures Owed(log + [j]) ==
      if j.copy then Max(0, Owed(log) - Consumed(j))
      else if j.reply.Expanded? then Net(j.reply.n, j.history)
      else 0
  {
    assert (log + [j])[..|log|] == log;
  }

  /**
    One turn of a call, from job `start` to before job `end`: a job, and stored blocks until nothing
    is owed, there is room for no more, or one fails.
    */
  ghost predicate IsTurn(log: seq<Job>, start: nat, end: nat, room: nat) {
    && start < end <= |log| && !log[start].copy && (forall i :: start < i < end ==> log[i].copy)
    && end - start - 1 <= room
    && (Owed(log[..end]) == 0 || end - start - 1 == room || Bad(log[end - 1]))
  }

  lemma TurnIs(log: seq<Job>, start: nat, room: nat)
    requires start < |log| && !log[start].copy && AllCopy(log, start + 1) && |log| - start - 1 <= room
    requires Owed(log) == 0 || |log| - start - 1 == room || Bad(log[|log| - 1])
    ensures IsTurn(log, start, |log|, room)
  {
    assert log[..|log|] == log;
  }

  /** The turns of a call are one behind the other up to the end of the log. */
  ghost predicate AreTurns(log: seq<Job>, turns: seq<nat>, rooms: seq<nat>) {
    && |turns| - 1 <= |rooms| && turns != [] && turns[|turns| - 1] == |log|
    && forall t :: 0 <= t < |turns| - 1 ==> IsTurn(log, turns[t], turns[t + 1], rooms[t])
  }

  lemma SameTurn(log: seq<Job>, more: seq<Job>, start: nat, end: nat, room: nat)
    requires IsTurn(log, start, end, room) && log <= more
    ensures IsTurn(more, start, end, room)
  {
    assert more[..end] == log[..end];
  }

  lemma NextTurn(log: seq<Job>, more: seq<Job>, turns: seq<nat>, rooms: seq<nat>)
    requires AreTurns(log, turns, rooms) && |turns| <= |rooms| && log <= more
    requires IsTurn(more, |log|, |more|, rooms[|turns| - 1])
    ensures AreTurns(more, turns + [|more|], rooms)
  {
    hide IsTurn;
    var ts := turns + [|more|];
    forall t | 0 <= t < |ts| - 1 ensures IsTurn(more, ts[t], ts[t + 1], rooms[t]) {
      if t < |turns| - 1 { SameTurn(log, more, turns[t], turns[t + 1], rooms[t]); }
    }
  }

  /** From k on, jobs that copy are stored blocks and the others are limited to a job's length. */
  predicate Planned(log: seq<Job>, k: nat, perJobLen: nat) {
    forall i :: k <= i < |log| ==> if log[i].copy then Stored(log[i]) else log[i].limit == perJobLen
  }

  lemma NextJob(log: seq<Job>, j: Job, m: nat, given: seq<byte>)
    requires AllFed(log, m, given) && Fed(j, m, Used(log), given)
    ensures AllFed(log + [j], m, given) && Used(log + [j]) == Used(log) + j.input[..Consumed(j)]
  {
    var l := log + [j];
    assert l[..|log|] == log;
    forall i | 0 <= i < |l| ensures Fed(l[i], m, Used(l[..i]), given) {
      if i < |log| { assert l[..i] == log[..i]; }
    }
  }

  lemma MoreGiven(log: seq<Job>, m: nat, given: seq<byte>, more: seq<byte>)
    requires AllFed(log, m, given)
    ensures AllFed(log, m, given + more)
  {
    forall i | 0 <= i < |log| ensures Fed(log[i], m, Used(log[..i]), given + more) {
      assert Fed(log[i], m, Used(log[..i]), given);
    }
  }

  /** Every job is within its limit unless the limit is less than the history that is kept. */
  lemma WithinLimit(j: Job, m: nat, d: seq<byte>, given: seq<byte>)
    requires Fed(j, m, d, given) && m <= j.limit
    ensures |j.history| + |j.input| <= j.limit
  {
    LimitKept(Min(|d|, m), j.waiting, j.limit);
  }

  /** Without wrapping, only a job whose limit exceeds what is waiting has history. */
  lemma FullHistory(j: Job, m: nat, d: seq<byte>, given: seq<byte>)
    requires Fed(j, m, d, given) && j.waiting < j.limit
    ensures Min(|d|, m) - 16 < |j.history| <= Min(|d|, m) && |j.history| % 16 == 0
  {
  }

  lemma OneAnswer(engine: Engine, log: seq<Job>, j: Job)
    requires j.reply == engine(j.copy, j.history, j.input)
    ensures AnsweredBy(engine, log + [j], |log|)
  {
  }

  lemma MoreAnswers(engine: Engine, log: seq<Job>, more: seq<Job>, k: nat)
    requires k <= |log| && log <= more && AnsweredBy(engine, log, k) && AnsweredBy(engine, more, |log|)
    ensures AnsweredBy(engine, more, k)
  {
  }

  ghost predicate AllStored(log: seq<Job>, k: nat) {
    forall i :: k <= i < |log| ==> Stored(log[i])
  }

  ghost predicate AllCopy(log: seq<Job>, k: nat) {
    forall i :: k <= i < |log| ==> log[i].copy
  }

  lemma OneStored(log: seq<Job>, j: Job, k: nat)
    requires AllStored(log, k) && Stored(j)
    ensures AllStored(log + [j], k)
  {
  }

  /** A job, perhaps with stored blocks after it. */
  lemma TurnPlanned(log: seq<Job>, k: nat, perJobLen: nat)
    requires k < |log| && !log[k].copy && log[k].limit == perJobLen && AllStored(log, k + 1)
    ensures Planned(log, k, perJobLen)
  {
  }

  lemma MorePlanned(log: seq<Job>, more: seq<Job>, k: nat, perJobLen: nat)
    requires k <= |log| && log <= more && Planned(log, k, perJobLen) && Planned(more, |log|, perJobLen)
    ensures Planned(more, k, perJobLen)
  {
  }

  lemma TakenOn<T>(d: seq<T>, p: seq<T>, a: nat, b: nat)
    requires a + b <= |p|
    ensures (d + p[..a]) + p[a..][..b] == d + p[..a + b] && p[a..][b..] == p[a + b..]
  {
    assert p[..a] + p[a..][..b] == p[..a + b];
  }

  lemma PrefixBehind<T>(a: seq<T>, b: seq<T>, c: seq<T>)
    requires b <= c
    ensures a + b <= a + c && forall n :: 0 <= n <= |b| ==> b[..n] == c[..n]
  {
  }

  // ---------- The calls ----------

  /** Underrun is the model's: the source reads before fifo_in. */
  datatype Outcome = Cached | NoInput | Full | Error | Underrun

  class Stream {
    const input: Input
    /** Every job so far. */
    ghost var log: seq<Job>

    /** What was used is what the jobs used, each with its history and its input. */
    ghost predicate Logged()
      reads this, input
    {
      input.done == Used(log) && AllFed(log, input.maxHistory, input.given)
    }

    ghost predicate Valid()
      reads this, input, input.fifoIn
    {
      input.Valid() && Logged()
    }

    constructor (input: Input)
      requires input.Valid() && input.done == []
      ensures Valid() && this.input == input && log == []
    {
      this.input, log := input, [];
    }

    /** The caller adds input. */
    method Supply(more: seq<byte>)
      requires Valid() && |input.nextIn| + |more| < WORD
      modifies input`nextIn, input`given
      ensures Valid() && input.given == old(input.given) + more && input.nextIn == old(input.nextIn) + more
      ensures log == old(log)
    {
      MoreGiven(log, input.maxHistory, input.given, more);
      input.Supply(more);
    }

    /** What a job is given, and what the engine answers. */
    method Submit(copy: bool, limit: nat, bufSize: nat, engine: Engine) returns (reply: Reply, spbc: nat, ghost j: Job)
      requires Valid() && Sizes(limit, bufSize) && WithinInput(engine)
      ensures j.copy == copy && j.limit == limit && j.waiting == input.Waiting(bufSize) && j.cached == input.usedIn
      ensures j.reply == reply == engine(copy, j.history, j.input)
      ensures spbc == (if reply.Failed? then 0 else Net(reply.n, j.history)) <= |j.input| <= j.waiting
      ensures Fed(j, input.maxHistory, input.done, input.given)
      ensures j.input <= input.Pending() && j.input[..Consumed(j)] == input.Pending()[..Consumed(j)]
    {
      hide Window, Input.Historic, AllFed, Used, Fed, WithinInput, HistBytes, InputBytes, Net;
      var history, source := input.SetupDdlIn(limit, bufSize);
      reply := engine(copy, history, source);
      spbc := if reply.Failed? then 0 else Net(reply.n, history);
      j := Job(copy, history, source, input.usedIn, input.Waiting(bufSize), limit, reply);
      StaysWithin(engine, copy, history, source);
      IsFed(j, input.maxHistory, input.done, input.Pending());
    }

    lemma NothingTaken(bufSize: nat)
      requires input.Bounds()
      ensures input.Took(input.done, input.Pending(), 0) && input.Waiting(bufSize) <= |input.Pending()|
    {
      assert input.done + input.Pending()[..0] == input.done;
    }

    method UseInput(n: nat, bufSize: nat)
      requires input.Valid() && n <= input.Waiting(bufSize)
      modifies input, input.fifoIn
      ensures input.Valid() && n <= |old(input.Pending())| && input.Took(old(input.done), old(input.Pending()), n)
      ensures input.Waiting(bufSize) + n >= old(input.Waiting(bufSize)) && input.Total() == old(input.Total()) - n
      ensures input.given == old(input.given) && (input.fifoIn == old(input.fifoIn) || fresh(input.fifoIn))
    {
      hide Window, Input.Historic;
      input.TakeWaiting(n, bufSize);
    }

    /** nx_compress_block: a job, and what becomes of its input. */
    method CompressBlock(copy: bool, limit: nat, bufSize: nat, engine: Engine)
      returns (reply: Reply, spbc: nat, ghost j: Job)
      requires Valid() && Sizes(limit, bufSize) && WithinInput(engine)
      modifies this, input, input.fifoIn
      ensures Valid() && log == old(log) + [j] && j.copy == copy && j.limit == limit
      ensures j.waiting == old(input.Waiting(bufSize)) && j.cached == old(input.usedIn)
      ensures j.reply == reply == engine(copy, j.history, j.input)
      ensures Fed(j, input.maxHistory, old(input.done), input.given)
      ensures spbc == (if reply.Failed? then 0 else Net(reply.n, j.history)) <= |j.input| <= j.waiting
      ensures Consumed(j) <= |j.input| <= |old(input.Pending())|
      ensures input.Took(old(input.done), old(input.Pending()), Consumed(j))
      ensures input.Waiting(bufSize) + Consumed(j) >= j.waiting && input.Total() == old(input.Total()) - Consumed(j)
      ensures input.given == old(input.given) && (input.fifoIn == old(input.fifoIn) || fresh(input.fifoIn))
    {
      hide Window, Input.Historic, Fed, AllFed, Used;
      reply, spbc, j := Submit(copy, limit, bufSize, engine);
      NextJob(log, j, input.maxHistory, input.given);
      ghost var l := log + [j];
      UseInput(if reply.Taken? then spbc else 0, bufSize);
      log := l;
    }

    /** What a call does only adds jobs to the log, which its engine answered. */
    twostate predicate Onward(engine: Engine)
      reads this, input
    {
      && old(log) <= log && AnsweredBy(engine, log, |old(log)|)
      && input.given == old(input.given) && input.Total() <= old(input.Total())
      && (input.fifoIn == old(input.fifoIn) || fresh(input.fifoIn))
    }

    lemma WithinBounds()
      requires Valid()
      ensures input.Bounds()
    {
    }

    /** What is left of the input. */
    lemma Balance()
      requires Valid()
      ensures input.Total() == |input.given| - |Used(log)|
    {
    }

    /** The jobs of the call that began with job k are as planned. */
    ghost predicate InOrder(k: nat, plan: Plan)
      reads this, input
    {
      k <= |log| && AllRight(log, k, |input.given|, plan)
    }

    /** One stored block, when a bytes of p, which waited after d, are in blocks already. */
    method StoredBlock(need: nat, bufSize: nat, engine: Engine, ghost d: seq<byte>, ghost p: seq<byte>, ghost a: nat,
                       ghost plan: Plan)
      returns (reply: Reply, spbc: nat)
      requires Valid() && Sizes(0, bufSize) && WithinInput(engine) && plan.bufSize == bufSize && need == Owed(log)
      requires 0 < need <= input.Waiting(bufSize) && a + need <= |p| && input.Took(d, p, a)
      modifies this, input, input.fifoIn
      ensures Valid() && Onward(engine) && |log| == |old(log)| + 1 && log == old(log) + [log[|old(log)|]]
      ensures Stored(log[|old(log)|])
      ensures RightSize(log[|old(log)|], old(log), |input.given|, plan) && Owed(log) == need - spbc
      ensures reply == log[|old(log)|].reply && log[|old(log)|].copy
      ensures spbc <= need <= input.Waiting(bufSize) + spbc && input.Took(d, p, a + spbc)
    {
      hide Window, Input.Historic, Fed, Stream.Logged, AnsweredBy, Owed, Net, Input.Valid, Input.Bounds, Input.Pending;
      hide Used, AllFed;
      ghost var j;
      WithinBounds();
      Balance();
      reply, spbc, j := CompressBlock(true, Min(need, STORED_BLOCK_LEN), bufSize, engine);
      IsStored(j, input.maxHistory, old(input.done), input.given);
      OneAnswer(engine, old(log), j);
      NextOwed(old(log), j);
      TakenOn(d, p, a, Consumed(j));
      if !reply.Taken? { spbc := 0; }
    }

    /** The same, with all jobs from the first on in stored blocks. */
    method NextBlock(need: nat, bufSize: nat, engine: Engine, ghost d: seq<byte>, ghost p: seq<byte>, ghost a: nat,
                     ghost first: nat, ghost k: nat, ghost plan: Plan)
      returns (reply: Reply, spbc: nat)
      requires Valid() && Sizes(0, bufSize) && WithinInput(engine) && k < first <= |log|
      requires AnsweredBy(engine, log, first) && AllStored(log, first)
      requires need == Owed(log) && InOrder(k, plan) && plan.bufSize == bufSize && !Bad(log[|log| - 1])
      requires 0 < need <= input.Waiting(bufSize) && a + need <= |p| && input.Took(d, p, a)
      modifies this, input, input.fifoIn
      ensures Valid() && Onward(engine) && |log| == |old(log)| + 1
      ensures AnsweredBy(engine, log, first) && AllStored(log, first)
      ensures Owed(log) == need - spbc && InOrder(k, plan) && log[|old(log)|].copy
      ensures reply.Taken? <==> !Bad(log[|log| - 1])
      ensures spbc <= need <= input.Waiting(bufSize) + spbc && input.Took(d, p, a + spbc)
    {
      hide Window, Input.Historic, Input.Valid, Stream.Logged, Input.Took;
      hide RightSize, Owed, WithinInput, Sizes;
      reply, spbc := StoredBlock(need, bufSize, engine, d, p, a, plan);
      NextRight(old(log), log[|old(log)|], k, |input.given|, plan);
    }

    /**
      The input that a job took is still there, and is copied to stored blocks, for as many of them
      as there is room in the output. No block is given history, so none exceeds its limit.
      */
    method StoredBlocks(amount: nat, bufSize: nat, engine: Engine, rounds: nat, ghost d: seq<byte>, ghost p: seq<byte>,
                        ghost k: nat, ghost plan: Plan)
      returns (left: nat, ok: bool)
      requires Valid() && Sizes(0, bufSize) && WithinInput(engine)
      requires amount <= input.Waiting(bufSize) && amount <= |p| && input.Took(d, p, 0)
      requires k < |log| && amount == Owed(log) && InOrder(k, plan) && plan.bufSize == bufSize && !Bad(log[|log| - 1])
      modifies this, input, input.fifoIn
      ensures Valid() && Onward(engine) && left <= amount && input.Took(d, p, amount - left)
      ensures AllStored(log, |old(log)|) && AllCopy(log, |old(log)|)
      ensures |log| <= |old(log)| + rounds && (ok && left > 0 ==> |log| == |old(log)| + rounds)
      ensures Owed(log) == left && InOrder(k, plan) && (ok <==> !Bad(log[|log| - 1]))
    {
      hide Window, Input.Historic, Stream.Logged, AnsweredBy, AllStored, Input.Took, WithinInput, Sizes;
      hide Owed, Bad, AllRight, Input.Valid, Input.Bounds, Input.Pending, Input.Waiting, Used;
      left, ok := amount, true;
      WithinBounds();
      var n := 0;
      NoJobs(engine, log);
      while n < rounds && left > 0 && ok
        invariant Valid() && Onward(engine) && |log| == |old(log)| + n && n <= rounds && input.Bounds()
        invariant AllStored(log, |old(log)|) && AllCopy(log, |old(log)|)
        invariant left <= amount && left <= input.Waiting(bufSize) && input.Took(d, p, amount - left)
        invariant Owed(log) == left && InOrder(k, plan) && (ok <==> !Bad(log[|log| - 1]))
        decreases rounds - n
      {
        var reply, spbc := NextBlock(left, bufSize, engine, d, p, amount - left, |old(log)|, k, plan);
        WithinBounds();
        left, n, ok := left - spbc, n + 1, reply.Taken?;
      }
    }

    /** The job of a turn, in a call that began with job k. */
    method FirstJob(perJobLen: nat, bufSize: nat, engine: Engine, ghost k: nat, ghost plan: Plan)
      returns (reply: Reply, spbc: nat, ghost j: Job)
      requires Valid() && Sizes(perJobLen, bufSize) && WithinInput(engine)
      requires InOrder(k, plan) && (|log| > k ==> !Bad(log[|log| - 1]))
      requires plan.perJobLen == perJobLen && plan.bufSize == bufSize
      requires input.Total() > 0 && !(plan.mayCache && input.GuardSum() <= plan.threshold)
      modifies this, input, input.fifoIn
      ensures Valid() && Onward(engine) && log == old(log) + [j] && reply == j.reply
      ensures !j.copy && j.limit == perJobLen && j.waiting == old(input.Waiting(bufSize))
      ensures InOrder(k, plan) && (!reply.Failed? <==> !Bad(j))
      ensures Owed(log) == (if reply.Expanded? then spbc else 0)
      ensures spbc == (if reply.Failed? then 0 else Net(reply.n, j.history)) <= |old(input.Pending())|
      ensures reply.Expanded? ==> input.Took(old(input.done), old(input.Pending()), 0) && spbc <= input.Waiting(bufSize)
    {
      hide Window, Input.Historic, Fed, Stream.Logged, AllRight, Input.Took, AnsweredBy, Owed, Net, Input.Pending;
      hide Input.Valid, Input.Bounds, AllFed, WithinInput;
      WithinBounds();
      Balance();
      reply, spbc, j := CompressBlock(false, perJobLen, bufSize, engine);
      OneAnswer(engine, old(log), j);
      NextRight(old(log), j, k, |input.given|, plan);
      NextOwed(old(log), j);
    }

    /** What follows the job of a turn, which took spbc bytes of p: stored blocks if its output has expanded. */
    method Repeat(reply: Reply, spbc: nat, bufSize: nat, engine: Engine, rounds: nat, ghost d: seq<byte>,
                  ghost p: seq<byte>, ghost k: nat, ghost plan: Plan)
      returns (ok: bool, ghost left: nat)
      requires Valid() && Sizes(0, bufSize) && WithinInput(engine)
      requires k < |log| && InOrder(k, plan) && plan.bufSize == bufSize
      requires !log[|log| - 1].copy && reply == log[|log| - 1].reply
      requires Owed(log) == if reply.Expanded? then spbc else 0
      requires reply.Expanded? ==> spbc <= input.Waiting(bufSize) && spbc <= |p| && input.Took(d, p, 0)
      modifies this, input, input.fifoIn
      ensures Valid() && Onward(engine) && InOrder(k, plan) && AllStored(log, |old(log)|)
      ensures IsTurn(log, |old(log)| - 1, |log|, rounds) && (ok <==> !Bad(log[|log| - 1]))
      ensures reply.Expanded? ==> left <= spbc <= |p| && input.Took(d, p, spbc - left)
      ensures !reply.Expanded? ==> log == old(log)
      ensures ok && left > 0 ==> |log| == |old(log)| + rounds
    {
      hide Window, Input.Historic, Fed, Stream.Logged, AnsweredBy, AllStored, Input.Took, AllRight, Owed, IsTurn;
      NoJobs(engine, log);
      ok, left := !reply.Failed?, 0;
      if reply.Expanded? {
        left, ok := StoredBlocks(spbc, bufSize, engine, rounds, d, p, k, plan);
      }
      TurnIs(log, |old(log)| - 1, rounds);
    }

    /**
      A job, and if its output has expanded, stored blocks for just the input that it took. What
      does not fit the output is left to a later turn.
      */
    method Compress(perJobLen: nat, bufSize: nat, engine: Engine, rounds: nat, ghost k: nat, ghost plan: Plan)
      returns (ok: bool, ghost left: nat)
      requires Valid() && Sizes(perJobLen, bufSize) && WithinInput(engine)
      requires InOrder(k, plan) && (|log| > k ==> !Bad(log[|log| - 1]))
      requires plan.perJobLen == perJobLen && plan.bufSize == bufSize
      requires input.Total() > 0 && !(plan.mayCache && input.GuardSum() <= plan.threshold)
      modifies this, input, input.fifoIn
      ensures Valid() && Onward(engine) && |log| > |old(log)| && AllStored(log, |old(log)| + 1)
      ensures var j := log[|old(log)|];
        && !j.copy && j.limit == perJobLen && j.waiting == old(input.Waiting(bufSize))
        && (if j.reply.Expanded? then Repeated(Net(j.reply.n, j.history), left) else |log| == |old(log)| + 1)
        && (ok && left > 0 ==> |log| == |old(log)| + 1 + rounds)
      ensures InOrder(k, plan) && IsTurn(log, |old(log)|, |log|, rounds)
      ensures ok <==> !Bad(log[|log| - 1])
    {
      hide Window, Input.Historic, Fed, Stream.Logged, AnsweredBy, AllStored, Input.Took, AllRight, Owed, IsTurn, Bad;
      hide Net, WithinInput, Input.GuardSum, Input.Waiting, Input.Valid, Input.Bounds, Input.Pending;
      WithinBounds();
      ghost var d, p := input.done, input.Pending();
      var reply, spbc;
      ghost var j;
      reply, spbc, j := FirstJob(perJobLen, bufSize, engine, k, plan);
      ghost var before := log;
      ok, left := Repeat(reply, spbc, bufSize, engine, rounds, d, p, k, plan);
      assert before <= log && log[|old(log)|] == j;
      MoreAnswers(engine, before, log, |old(log)|);
      WithinBounds();
    }

    /** Of an amount of input all but what is left was used. */
    twostate predicate Repeated(amount: nat, left: nat)
      reads this, input, input.fifoIn
    {
      && old(input.Bounds()) && input.Bounds() && left <= amount <= |old(input.Pending())|
      && input.Took(old(input.done), old(input.Pending()), amount - left)
    }

    /** All input is still waiting, and where it was if there is less before it than is kept. */
    twostate predicate KeptBehind()
      reads input
    {
      input.Total() == old(input.Total()) && (old(input.curIn) < input.maxHistory ==> input.curIn == old(input.curIn))
    }

    method Cache() returns (ok: bool)
      requires Valid() && input.GuardSum() <= input.threshold
      modifies input`fifoIn, input`curIn, input`usedIn, input`nextIn, input.fifoIn
      ensures (ok <==> !old(input.Underruns())) && input.Total() == old(input.Total())
      ensures ok ==> Valid() && (input.Total() < WORD ==> input.nextIn == [])
      ensures !ok ==> input.curIn == old(input.curIn)
      ensures ok && old(input.curIn) < input.maxHistory ==> input.curIn == old(input.curIn)
      ensures input.fifoIn == old(input.fifoIn) || fresh(input.fifoIn)
    {
      hide Window, Input.Historic;
      ok := input.CacheInput();
    }

    /**
      nx_deflate, as far as its input goes: small input is cached if it may be, or one job follows
      another while there is input and room in the output, for some stored blocks in each turn.
      */
    method Call(engine: Engine, perJobLen: nat, bufSize: nat, mayCache: bool, rooms: seq<nat>)
      returns (outcome: Outcome, ghost turns: seq<nat>)
      requires Valid() && Sizes(perJobLen, bufSize) && WithinInput(engine)
      modifies this, input, input.fifoIn
      ensures outcome != Underrun ==> Valid() && input.given == old(input.given)
      ensures old(log) <= log && AnsweredBy(engine, log, |old(log)|) && Planned(log, |old(log)|, perJobLen)
      ensures AllRight(log, |old(log)|, |old(input.given)|, Plan(perJobLen, bufSize, mayCache, input.threshold))
      ensures AreTurns(log, turns, rooms) && turns[0] == |old(log)|
      ensures outcome == Error <==> |log| > |old(log)| && Bad(log[|log| - 1])
      ensures outcome == Underrun ==> mayCache && input.GuardSum() <= input.threshold && input.Underruns()
      ensures outcome == Cached ==> mayCache && input.GuardSum() <= input.threshold
      ensures outcome == Cached && input.Total() < WORD ==> input.nextIn == []
      ensures outcome == NoInput ==> input.Total() == 0
      ensures outcome == Full ==> |turns| == |rooms| + 1
      ensures mayCache && rooms != [] && old(input.GuardSum()) <= input.threshold ==>
        && log == old(log) && outcome == (if old(input.Underruns()) then Underrun else Cached)
        && (outcome == Cached ==> KeptBehind())
      ensures input.fifoIn == old(input.fifoIn) || fresh(input.fifoIn)
    {
      hide Window, Input.Historic, Stream.Logged, AnsweredBy, AllStored, Planned, Input.Valid;
      hide AllRight, Bad, IsTurn;
      NoJobs(engine, log);
      NonePlanned(log, perJobLen);
      ghost var plan := Plan(perJobLen, bufSize, mayCache, input.threshold);
      ghost var first := |log|;
      turns := [|log|];
      NothingYet(log, first, |input.given|, plan, rooms);
      var k := 0;
      while k < |rooms|
        invariant Valid() && Onward(engine) && Planned(log, first, perJobLen) && InOrder(first, plan)
        invariant AreTurns(log, turns, rooms) && |turns| == k + 1 && turns[0] == first && k <= |rooms|
        invariant k == 0 ==> Same()
        invariant |log| > first ==> k > 0 && !Bad(log[|log| - 1])
        invariant k > 0 ==> !(mayCache && old(input.GuardSum()) <= input.threshold)
      {
        if mayCache && input.GuardSum() <= input.threshold {
          var ok := Cache();
          return if ok then Cached else Underrun, turns;
        }
        if input.usedIn == 0 && input.nextIn == [] {
          return NoInput, turns;
        }
        var ok := Turn(engine, perJobLen, bufSize, rooms[k], first, plan, turns, rooms);
        turns, k := turns + [|log|], k + 1;
        if !ok {
          return Error, turns;
        }
      }
      outcome := Full;
    }

    /** The state of a call before its first turn. */
    twostate predicate Same()
      reads this, input
    {
      && log == old(log) && input.curIn == old(input.curIn) && input.Total() == old(input.Total())
    }

    /** A turn, with the records of the call. */
    method Turn(engine: Engine, perJobLen: nat, bufSize: nat, room: nat, ghost first: nat, ghost plan: Plan,
                ghost turns: seq<nat>, ghost rooms: seq<nat>)
      returns (ok: bool)
      requires Valid() && Sizes(perJobLen, bufSize) && WithinInput(engine)
      requires InOrder(first, plan) && (|log| > first ==> !Bad(log[|log| - 1]))
      requires plan.perJobLen == perJobLen && plan.bufSize == bufSize
      requires input.Total() > 0 && !(plan.mayCache && input.GuardSum() <= plan.threshold)
      requires AnsweredBy(engine, log, first) && Planned(log, first, perJobLen)
      requires AreTurns(log, turns, rooms) && |turns| <= |rooms| && room == rooms[|turns| - 1]
      modifies this, input, input.fifoIn
      ensures Valid() && Onward(engine) && |log| > |old(log)| && InOrder(first, plan)
      ensures AnsweredBy(engine, log, first) && Planned(log, first, perJobLen)
      ensures AreTurns(log, turns + [|log|], rooms) && (ok <==> !Bad(log[|log| - 1]))
    {
      hide Window, Input.Historic, Stream.Logged, AnsweredBy, AllStored, Planned, Input.Valid, Input.GuardSum;
      hide AllRight, Bad, AreTurns, IsTurn;
      ghost var before := log;
      ghost var left;
      ok, left := Compress(perJobLen, bufSize, engine, room, first, plan);
      MoreAnswers(engine, before, log, first);
      TurnPlanned(log, |before|, perJobLen);
      MorePlanned(before, log, first, perJobLen);
      NextTurn(before, log, turns, rooms);
    }
  }

  lemma NothingYet(log: seq<Job>, k: nat, given: nat, plan: Plan, rooms: seq<nat>)
    requires k == |log|
    ensures AllRight(log, k, given, plan) && AreTurns(log, [k], rooms)
  {
  }

  method OneByteCached(first: byte, engine: Engine) returns (stream: Stream)
    requires WithinInput(engine)
    ensures stream.Valid() && fresh(stream) && fresh(stream.input) && stream.input.Total() == 1
    ensures stream.input.nextIn == [] && stream.input.curIn == 0
    ensures stream.input.maxHistory == 32768 && stream.input.threshold == 8192
    ensures stream.input.fifoIn == null || fresh(stream.input.fifoIn)
  {
    hide Stream.Logged, Input.Historic;
    var input := new Input(0x2_0000, 32768, 8192);
    stream := new Stream(input);
    stream.Supply([first]);
    var outcome, turns := stream.Call(engine, 0x10_0000, 0x10_0000, true, [1]);
  }

  /** One cached byte and 2^32 - 1 more: the sum of the guard is zero, and fifo_in is read before its start. */
  method ReadsBefore(first: byte, more: seq<byte>, engine: Engine) returns (outcome: Outcome)
    requires |more| == WORD - 1 && WithinInput(engine)
    ensures outcome == Underrun
  {
    hide Stream.Logged, Input.Historic;
    var stream := OneByteCached(first, engine);
    stream.Supply(more);
    ghost var turns;
    outcome, turns := stream.Call(engine, 0x10_0000, 0x10_0000, true, [1]);
  }

  lemma NoJobs(engine: Engine, log: seq<Job>)
    ensures AnsweredBy(engine, log, |log|) && AllStored(log, |log|)
  {
  }

  lemma NonePlanned(log: seq<Job>, perJobLen: nat)
    ensures Planned(log, |log|, perJobLen)
  {
  }

  /** A job for no more than what waits has just that much, and no history. */
  lemma IsStored(j: Job, m: nat, d: seq<byte>, given: seq<byte>)
    requires Fed(j, m, d, given) && j.copy && j.limit <= j.waiting && j.limit <= STORED_BLOCK_LEN
    ensures Stored(j)
  {
    NoHistory(Min(|d|, m), j.waiting, j.limit);
  }
}
