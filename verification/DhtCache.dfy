/**
  The cache of Huffman tables in lib/nx_dht.c (without its atomics): a table is
  found by the two most frequent symbols, and a clock decides which one is replaced.
  */
module DhtCache {
  import opened Wrappers

  const DHT_NUM_MAX := 128
  const DHT_NUM_BUILTIN := 35
  const DHT_NUM_SRC_BYTES := 512 * 1024
  const LLSZ := 286
  const NUMLIT := 256

  // ---------- The two most frequent symbols ----------

  /** s is the first of the most frequent symbols below n other than ex; -1 if none is used. */
  ghost predicate IsTop(counts: seq<nat>, n: nat, ex: int, s: int)
    requires n <= |counts|
  {
    if s == -1 then forall i :: 0 <= i < n && i != ex ==> counts[i] == 0
    else
      && 0 <= s < n && s != ex && counts[s] > 0
      && forall i :: 0 <= i < n && i != ex ==> counts[i] <= counts[s] && (i < s ==> counts[i] < counts[s])
  }

  /** dht_sort4, as far as its results are keys of the cache. */
  method DhtSort(counts: seq<nat>, scanLengths: bool) returns (key: (int, int))
    requires |counts| >= LLSZ
    ensures IsKey(counts, scanLengths, key)
  {
    var llscan := if scanLengths then LLSZ else NUMLIT;
    var c0, s0, c1, s1 := 0, -1, 0, -1;
    for i := 0 to llscan
      invariant IsTop(counts, i, -1, s0) && c0 == if s0 == -1 then 0 else counts[s0]
      invariant IsTop(counts, i, s0, s1) && c1 == if s1 == -1 then 0 else counts[s1]
    {
      var c := counts[i];
      if c > c0 {
        c1, s1 := c0, s0;
        c0, s0 := c, i;
      } else if c > c1 {
        c1, s1 := c, i;
      }
    }
    key := (s0, s1);
  }

  // ---------- The tables ----------

  /** A table with its key, its bits, and whether it was used since the clock last passed. */
  datatype Entry<T> = Entry(valid: bool, accessed: bool, key: (int, int), dht: T)

  datatype Ref = Builtin(i: nat) | Cached(i: nat)

  datatype Request = Default | Search | Gen

  /** No two valid entries have the same key. */
  ghost predicate Distinct<T>(s: seq<Entry<T>>) {
    forall i, j :: 0 <= i < j < |s| && s[i].valid && s[j].valid ==> s[i].key != s[j].key
  }

  /** The keys of the valid entries and their tables. */
  ghost predicate Holds<T(!new)>(s: seq<Entry<T>>, m: map<(int, int), T>) {
    && (forall i :: 0 <= i < |s| && s[i].valid ==> s[i].key in m && m[s[i].key] == s[i].dht)
    && (forall k :: k in m ==> HasKey(s, k))
  }

  ghost predicate HasKey<T>(s: seq<Entry<T>>, k: (int, int)) {
    exists i :: 0 <= i < |s| && s[i].valid && s[i].key == k
  }

  /** The entries with their access bits aside. */
  ghost predicate SameTables<T>(s: seq<Entry<T>>, t: seq<Entry<T>>) {
    |s| == |t| && forall i :: 0 <= i < |s| ==> t[i] == s[i].(accessed := t[i].accessed)
  }

  lemma SameTablesHold<T(!new)>(s: seq<Entry<T>>, t: seq<Entry<T>>, m: map<(int, int), T>)
    requires SameTables(s, t) && Distinct(s) && Holds(s, m)
    ensures Distinct(t) && Holds(t, m)
  {
    forall k | k in m ensures HasKey(t, k) {
      assert HasKey(s, k);
      var i :| 0 <= i < |s| && s[i].valid && s[i].key == k;
      assert t[i].valid && t[i].key == k;
    }
  }

  /** The map after the entry at i is replaced by one for a new key. */
  function Replaced<T>(m: map<(int, int), T>, e: Entry<T>, key: (int, int), dht: T): map<(int, int), T> {
    (if e.valid then m - {e.key} else m)[key := dht]
  }

  lemma ReplaceHolds<T(!new)>(s: seq<Entry<T>>, m: map<(int, int), T>, i: nat, e: Entry<T>)
    requires i < |s| && Distinct(s) && Holds(s, m) && e.valid && !HasKey(s, e.key)
    ensures Distinct(s[i := e]) && Holds(s[i := e], Replaced(m, s[i], e.key, e.dht))
  {
    var t, n := s[i := e], Replaced(m, s[i], e.key, e.dht);
    forall j | 0 <= j < |t| && t[j].valid ensures t[j].key in n && n[t[j].key] == t[j].dht {
      if j != i { assert HasKey(s, s[j].key); }
    }
    forall k | k in n ensures HasKey(t, k) {
      if k == e.key {
        assert t[i].key == k;
      } else {
        assert HasKey(s, k);
        var j :| 0 <= j < |s| && s[j].valid && s[j].key == k;
        assert t[j] == s[j];
      }
    }
  }

  /** The slot d steps after c. */
  function Slot(c: nat, d: nat): nat {
    if c + d < DHT_NUM_MAX then c + d else c + d - DHT_NUM_MAX
  }

  function Around(c: nat, d: nat): nat {
    (c + d) % DHT_NUM_BUILTIN
  }

  /** Position j is among the first d from c on, all around. */
  predicate Passed(c: nat, d: nat, j: nat) {
    if c + d <= DHT_NUM_BUILTIN then c <= j < c + d else j >= c || j < c + d - DHT_NUM_BUILTIN
  }

  predicate Misses<T>(e: Entry<T>, key: (int, int)) {
    !(e.valid && e.key == key)
  }

  lemma FoundAt<T(!new)>(s: seq<Entry<T>>, m: map<(int, int), T>, i: nat)
    requires Holds(s, m) && i < |s| && s[i].valid
    ensures s[i].key in m && m[s[i].key] == s[i].dht
  {
  }

  /** All the way around without a hit. */
  lemma NotFound<T(!new)>(s: seq<Entry<T>>, m: map<(int, int), T>, start: nat, key: (int, int))
    requires Holds(s, m) && |s| == DHT_NUM_MAX && start < DHT_NUM_MAX
    requires forall d :: 0 <= d < DHT_NUM_MAX ==> Misses(s[Slot(start, d)], key)
    ensures key !in m && !HasKey(s, key)
  {
    forall j | 0 <= j < |s| ensures Misses(s[j], key) {
      assert Misses(s[Slot(start, if j >= start then j - start else j + DHT_NUM_MAX - start)], key);
    }
  }

  class DhtTab<T(!new)> {
    const builtin: array<Entry<T>>
    const cache: array<Entry<T>>
    var lastUsedBuiltinIdx: int
    var lastCacheIdx: int
    var lastUsedEntry: Option<Ref>
    var nbytesAccumulated: nat
    var clock: nat

    ghost predicate Shape()
      reads this
    {
      && builtin.Length == DHT_NUM_BUILTIN == 35 && cache.Length == DHT_NUM_MAX == 128 && builtin != cache
      && clock < DHT_NUM_MAX && lastUsedBuiltinIdx < DHT_NUM_BUILTIN && lastCacheIdx < DHT_NUM_MAX
      && match lastUsedEntry {
           case None => true
           case Some(Builtin(i)) => i < DHT_NUM_BUILTIN
           case Some(Cached(i)) => i < DHT_NUM_MAX
         }
    }

    /** The cache is a map from keys to tables. */
    ghost predicate Valid(m: map<(int, int), T>)
      reads this, cache
    {
      Shape() && Distinct(cache[..]) && Holds(cache[..], m)
    }

    /** dht_begin5, with the built-in tables. */
    constructor (builtin: array<Entry<T>>, none: T)
      requires builtin.Length == DHT_NUM_BUILTIN
      ensures Valid(map[]) && this.builtin == builtin && fresh(cache) && lastUsedEntry == None
      ensures lastUsedBuiltinIdx == lastCacheIdx == -1 && nbytesAccumulated == clock == 0
      ensures forall i :: 0 <= i < cache.Length ==> cache[i] == Entry(false, false, (0, 0), none)
    {
      this.builtin := builtin;
      cache := new Entry<T>[DHT_NUM_MAX](_ => Entry(false, false, (0, 0), none));
      lastUsedBuiltinIdx, lastCacheIdx, lastUsedEntry := -1, -1, None;
      nbytesAccumulated, clock := 0, 0;
    }

    function EntryAt(r: Ref): Entry<T>
      reads this, cache, builtin
      requires Shape() && match r { case Builtin(i) => i < DHT_NUM_BUILTIN case Cached(i) => i < DHT_NUM_MAX }
    {
      match r case Builtin(i) => builtin[i] case Cached(i) => cache[i]
    }

    /** The last entry used holds the table, and the clock will spare it once. */
    ghost predicate UsedNow(dht: T)
      reads this, cache, builtin
      requires Shape()
    {
      && lastUsedEntry.Some? && EntryAt(lastUsedEntry.value).dht == dht
      && match lastUsedEntry.value { case Builtin(_) => true case Cached(i) => cache[i].valid && cache[i].accessed }
    }

    ghost predicate HasBuiltin(key: (int, int), dht: T)
      reads this, builtin
      requires Shape()
    {
      exists i :: 0 <= i < DHT_NUM_BUILTIN && builtin[i].valid && builtin[i].key == key && builtin[i].dht == dht
    }

    /** dht_search_cache: from the last hit around. */
    method SearchCache(key: (int, int), ghost m: map<(int, int), T>) returns (found: Option<T>)
      requires Valid(m)
      modifies this`lastCacheIdx, this`lastUsedEntry, cache
      ensures Valid(m) && SameTables(old(cache[..]), cache[..])
      ensures found == if key in m then Some(m[key]) else None
      ensures found.Some? ==> UsedNow(found.value)
      ensures found.None? ==>
        !HasKey(cache[..], key) && cache[..] == old(cache[..]) && lastUsedEntry == old(lastUsedEntry)
    {
      hide Holds, HasKey;
      ghost var s := cache[..];
      var start := if lastCacheIdx < 0 then 0 else lastCacheIdx;
      var sidx := start;
      for i := 0 to DHT_NUM_MAX
        invariant cache[..] == s && lastUsedEntry == old(lastUsedEntry) && Shape()
        invariant sidx == Slot(start, i)  % DHT_NUM_MAX
        invariant forall d :: 0 <= d < i ==> Misses(s[Slot(start, d)], key)
      {
        var e := cache[sidx];
        if e.valid && e.key == key {
          FoundAt(s, m, sidx);
          cache[sidx] := e.(accessed := true);
          lastCacheIdx, lastUsedEntry := sidx, Some(Cached(sidx));
          SameTablesHold(s, cache[..], m);
          return Some(e.dht);
        }
        sidx := (sidx + 1) % DHT_NUM_MAX;
      }
      NotFound(s, m, start, key);
      found := None;
    }

    lemma IsBuiltin(i: nat)
      requires Shape() && i < DHT_NUM_BUILTIN && builtin[i].valid
      ensures HasBuiltin(builtin[i].key, builtin[i].dht)
    {
    }

    /** Entry i is the first of the built-in ones with this key from `start` around. */
    ghost predicate FirstFrom(start: nat, i: nat, key: (int, int))
      reads this, builtin
      requires Shape() && start < 35 && i < 35
    {
      && builtin[i].valid && builtin[i].key == key
      && forall j :: 0 <= j < DHT_NUM_BUILTIN && Passed(start, if i >= start then i - start else i + 35 - start, j) ==>
           Misses(builtin[j], key)
    }

    /** dht_search_builtin: the built-in tables in turn, from the last one used. */
    method SearchBuiltin(key: (int, int)) returns (found: Option<T>)
      requires Shape()
      modifies this`lastUsedBuiltinIdx, this`lastUsedEntry
      ensures Shape()
      ensures found.None? ==> !HasKey(builtin[..], key)
      ensures found.Some? ==> HasBuiltin(key, found.value) && UsedNow(found.value)
      ensures found.Some? ==>
        && lastUsedBuiltinIdx >= 0 && lastUsedEntry == Some(Builtin(lastUsedBuiltinIdx))
        && FirstFrom(if old(lastUsedBuiltinIdx) < 0 then 0 else old(lastUsedBuiltinIdx), lastUsedBuiltinIdx, key)
    {
      hide HasBuiltin;
      var start := if lastUsedBuiltinIdx < 0 then 0 else lastUsedBuiltinIdx;
      var sidx := start;
      for i := 0 to DHT_NUM_BUILTIN
        invariant Shape()
        invariant sidx == Around(start, i)
        invariant forall j :: 0 <= j < DHT_NUM_BUILTIN && Passed(start, i, j) ==> Misses(builtin[j], key)
      {
        var e := builtin[sidx];
        if e.valid && e.key == key {
          lastUsedBuiltinIdx, lastUsedEntry := sidx, Some(Builtin(sidx));
          IsBuiltin(sidx);
          return Some(e.dht);
        }
        sidx := (sidx + 1) % DHT_NUM_BUILTIN;
      }
      found := None;
    }

    /** There is a last table. */
    predicate HasLast()
      reads this, cache, builtin
      requires Shape()
    {
      lastUsedEntry.Some? && EntryAt(lastUsedEntry.value).valid
    }

    /** The last table is used again: the last job used some input, and all jobs with it less than 512 KB. */
    predicate Serves(sourceBytes: nat)
      reads this, cache, builtin
      requires Shape()
    {
      HasLast() && sourceBytes > 0 && nbytesAccumulated + sourceBytes < 524288
    }

    /** dht_use_last: the last table again, until it has served enough bytes. */
    method UseLast(sourceBytes: nat, ghost m: map<(int, int), T>) returns (found: Option<T>)
      requires Valid(m)
      modifies this`lastUsedEntry, this`nbytesAccumulated, cache, builtin
      ensures Valid(m) && SameTables(old(cache[..]), cache[..]) && SameTables(old(builtin[..]), builtin[..])
      ensures found.Some? ==>
        lastUsedEntry == old(lastUsedEntry) && lastUsedEntry.Some? && found.value == EntryAt(lastUsedEntry.value).dht
      ensures found.Some? <==> old(Serves(sourceBytes))
      ensures found.Some? ==> UsedNow(found.value) && EntryAt(lastUsedEntry.value).accessed
      ensures nbytesAccumulated ==
        if !old(HasLast()) then old(nbytesAccumulated)
        else if found.Some? then old(nbytesAccumulated) + sourceBytes
        else sourceBytes
      ensures found.None? ==> lastUsedEntry == if old(HasLast()) then None else old(lastUsedEntry)
      ensures found.None? ==> cache[..] == old(cache[..]) && builtin[..] == old(builtin[..])
    {
      if lastUsedEntry.None? {
        return None;
      }
      var r := lastUsedEntry.value;
      var e := match r { case Builtin(i) => builtin[i] case Cached(i) => cache[i] };
      if !e.valid {
        return None;
      }
      nbytesAccumulated := nbytesAccumulated + sourceBytes;
      if sourceBytes == 0 || nbytesAccumulated >= DHT_NUM_SRC_BYTES {
        lastUsedEntry, nbytesAccumulated := None, sourceBytes;
        return None;
      }
      match r {
        case Builtin(i) => builtin[i] := e.(accessed := true);
        case Cached(i) => cache[i] := e.(accessed := true);
      }
      SameTablesHold(old(cache[..]), cache[..], m);
      found := Some(e.dht);
    }

    /**
      The clock sweep: the first entry not accessed since the hand last passed it.
      The hand passes every entry at most once before it finds one.
      */
    method Sweep(ghost m: map<(int, int), T>) returns (slot: nat, ghost steps: nat)
      requires Valid(m)
      modifies this`clock, cache
      ensures Valid(m) && SameTables(old(cache[..]), cache[..])
      ensures 1 <= steps <= DHT_NUM_MAX + 1 && slot == Slot(old(clock), steps - 1) && clock == (slot + 1) % DHT_NUM_MAX
      ensures !cache[slot].accessed && (steps <= DHT_NUM_MAX ==> !old(cache[..])[slot].accessed)
      ensures forall d :: 0 <= d < steps - 1 ==>
        old(cache[..])[Slot(old(clock), d)].accessed && !cache[Slot(old(clock), d)].accessed
      ensures forall j :: 0 <= j < DHT_NUM_MAX && (forall d :: 0 <= d < steps - 1 ==> Slot(old(clock), d) != j) ==>
        cache[j] == old(cache[..])[j]
    {
      hide Holds, HasKey, Distinct;
      ghost var s, start := cache[..], clock;
      steps := 0;
      while true
        invariant steps <= DHT_NUM_MAX && clock == Slot(start, steps) && Shape()
        invariant SameTables(s, cache[..])
        invariant forall d :: 0 <= d < steps ==> s[Slot(start, d)].accessed && !cache[Slot(start, d)].accessed
        invariant forall j :: 0 <= j < DHT_NUM_MAX && (forall d :: 0 <= d < steps ==> Slot(start, d) != j) ==>
          cache[j] == s[j]
        decreases DHT_NUM_MAX - steps
      {
        slot := clock;
        clock := (clock + 1) % DHT_NUM_MAX;
        steps := steps + 1;
        if !cache[slot].accessed {
          break;
        }
        cache[slot] := cache[slot].(accessed := false);
      }
      SameTablesHold(s, cache[..], m);
    }

    /** A generated table takes the place of the entry that the clock finds. */
    method Insert(key: (int, int), generated: T, ghost m: map<(int, int), T>) returns (ghost m': map<(int, int), T>)
      requires Valid(m) && !HasKey(cache[..], key)
      modifies this`clock, this`lastCacheIdx, this`lastUsedEntry, cache
      ensures Valid(m') && Inserted(m, m', key, generated) && UsedNow(generated)
    {
      ghost var s := cache[..];
      var slot, steps := Sweep(m);
      ghost var t := cache[..];
      var e := Entry(true, true, key, generated);
      SameKeys(s, t, key);
      ReplaceHolds(t, m, slot, e);
      m' := Replaced(m, t[slot], key, generated);
      if t[slot].valid { assert HasKey(t, t[slot].key); }
      cache[slot] := e;
      assert cache[..] == t[slot := e];
      lastCacheIdx, lastUsedEntry := slot, Some(Cached(slot));
    }

    /** dht_lookup5: where the table to compress with comes from, and what the cache holds afterwards. */
    method Lookup(request: Request, counts: seq<nat>, scanLengths: bool, sourceBytes: nat, generated: T,
                  ghost m: map<(int, int), T>)
      returns (dht: T, how: Origin, ghost key: (int, int), ghost m': map<(int, int), T>)
      requires Valid(m) && |counts| >= LLSZ
      modifies this, cache, builtin
      ensures Valid(m') && (request != Gen ==> UsedNow(dht))
      ensures request == Default ==> how == TheDefault && dht == builtin[0].dht && m' == m
      ensures request == Gen ==> how == Generated && dht == generated && m' == m && cache[..] == old(cache[..])
      ensures request == Search ==> (how == TheLast <==> old(Serves(sourceBytes)))
      ensures request == Search && how != TheLast ==> IsKey(counts, scanLengths, key)
      ensures request == Search ==> match how {
        case TheDefault => false
        case TheLast => m' == m && old(lastUsedEntry).Some? && dht == old(EntryAt(lastUsedEntry.value).dht)
        case FromCache => m' == m && key in m && dht == m[key]
        case FromBuiltin => m' == m && key !in m && HasBuiltin(key, dht)
        case Generated => !HasKey(builtin[..], key) && dht == generated && Inserted(m, m', key, dht)
      }
    {
      m', key := m, (-1, -1);
      if request == Default {
        lastUsedEntry := Some(Builtin(0));
        return builtin[0].dht, TheDefault, key, m';
      }
      if request == Gen {
        return generated, Generated, key, m';
      }
      var last := UseLast(sourceBytes, m);
      if last.Some? {
        return last.value, TheLast, key, m';
      }
      dht, how, key, m' := SearchOrInsert(counts, scanLengths, generated, m);
    }

    method SearchOrInsert(counts: seq<nat>, scanLengths: bool, generated: T, ghost m: map<(int, int), T>)
      returns (dht: T, how: Origin, ghost key: (int, int), ghost m': map<(int, int), T>)
      requires Valid(m) && |counts| >= LLSZ
      modifies this, cache
      ensures Valid(m') && IsKey(counts, scanLengths, key) && UsedNow(dht)
      ensures match how {
        case TheDefault => false
        case TheLast => false
        case FromCache => m' == m && key in m && dht == m[key]
        case FromBuiltin => m' == m && key !in m && HasBuiltin(key, dht)
        case Generated => !HasKey(builtin[..], key) && dht == generated && Inserted(m, m', key, dht)
      }
    {
      var k := DhtSort(counts, scanLengths);
      key, m' := k, m;
      var cached := SearchCache(k, m);
      if cached.Some? {
        return cached.value, FromCache, key, m';
      }
      var found := SearchBuiltin(k);
      if found.Some? {
        return found.value, FromBuiltin, key, m';
      }
      m' := Insert(k, generated, m);
      return generated, Generated, key, m';
    }
  }

  /** The new table is in the map, in place of at most one other. */
  ghost predicate Inserted<T>(m: map<(int, int), T>, m': map<(int, int), T>, key: (int, int), dht: T) {
    key !in m && (m' == m[key := dht] || exists e :: e in m && m' == (m - {e})[key := dht])
  }

  datatype Origin = TheDefault | TheLast | FromCache | FromBuiltin | Generated

  /** The two most frequent symbols, in order. */
  ghost predicate IsKey(counts: seq<nat>, scanLengths: bool, key: (int, int))
    requires |counts| >= LLSZ
  {
    var n := if scanLengths then 286 else 256;
    IsTop(counts, n, -1, key.0) && IsTop(counts, n, key.0, key.1)
  }

  lemma SameKeys<T>(s: seq<Entry<T>>, t: seq<Entry<T>>, k: (int, int))
    requires SameTables(s, t) && !HasKey(s, k)
    ensures !HasKey(t, k)
  {
  }
}
