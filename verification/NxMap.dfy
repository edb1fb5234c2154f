/**
  The open-addressed map of lib/nx_map.c. Look-ups scan the whole table, so a
  removed entry leaves nothing behind. The index that probing starts from is any
  function of the key and the size. The locks are not modelled.
  */
module NxMap {

  /** A pointer; 0 is NULL. */
  type Ptr = nat

  const NULL: Ptr := 0

  const MAP_INIT_SIZE := 32

  datatype Entry = Entry(key: Ptr, val: Ptr)

  const EMPTY := Entry(NULL, NULL)

  // ---------- What a table holds ----------

  function One(e: Entry): multiset<Entry> {
    if e.key == NULL then multiset{} else multiset{e}
  }

  /** The entries of the occupied slots below n. */
  function ItemsTo(s: seq<Entry>, n: nat): multiset<Entry>
    requires n <= |s|
  {
    if n == 0 then multiset{} else ItemsTo(s, n - 1) + One(s[n - 1])
  }

  /** The entries of the occupied slots. */
  function Items(s: seq<Entry>): multiset<Entry> {
    ItemsTo(s, |s|)
  }

  /** How many of the slots below n are occupied. */
  function TakenTo(s: seq<Entry>, n: nat): nat
    requires n <= |s|
  {
    if n == 0 then 0 else TakenTo(s, n - 1) + Size(s[n - 1])
  }

  function Size(e: Entry): nat {
    if e.key == NULL then 0 else 1
  }

  function Taken(s: seq<Entry>): nat {
    TakenTo(s, |s|)
  }

  lemma Swapped(a: multiset<Entry>, b: multiset<Entry>, z: Entry, o: Entry, e: Entry)
    requires a + One(o) == b + One(e)
    ensures (a + One(z)) + One(o) == (b + One(z)) + One(e)
  {
    var x, y, w := One(z), One(o), One(e);
    assert (a + x) + y == (a + y) + x;
    assert (b + x) + w == (b + w) + x;
  }

  lemma EitherOrder(a: multiset<Entry>, o: Entry, e: Entry)
    ensures (a + One(e)) + One(o) == (a + One(o)) + One(e)
  {
  }

  /** A slot above is overwritten. */
  lemma {:induction false} ItemsBelow(s: seq<Entry>, t: seq<Entry>, n: nat)
    requires n <= |s| == |t| && forall k :: 0 <= k < n ==> s[k] == t[k]
    ensures ItemsTo(t, n) == ItemsTo(s, n)
    decreases n
  {
    if n > 0 { ItemsBelow(s, t, n - 1); }
  }

  /** One slot is overwritten. */
  lemma {:induction false} ItemsToUpdate(s: seq<Entry>, i: nat, e: Entry, n: nat)
    requires i < n <= |s|
    ensures ItemsTo(s[i := e], n) + One(s[i]) == ItemsTo(s, n) + One(e)
    decreases n
  {
    var t := s[i := e];
    if i == n - 1 {
      ItemsBelow(s, t, n - 1);
      EitherOrder(ItemsTo(s, n - 1), s[i], e);
    } else {
      ItemsToUpdate(s, i, e, n - 1);
      Swapped(ItemsTo(t, n - 1), ItemsTo(s, n - 1), s[n - 1], s[i], e);
    }
  }

  lemma {:induction false} TakenToUpdate(s: seq<Entry>, i: nat, e: Entry, n: nat)
    requires i < |s| && n <= |s|
    ensures i >= n ==> TakenTo(s[i := e], n) == TakenTo(s, n)
    ensures i < n ==> TakenTo(s[i := e], n) + Size(s[i]) == TakenTo(s, n) + Size(e)
    decreases n
  {
    if n > 0 { TakenToUpdate(s, i, e, n - 1); }
  }

  lemma SlotUpdate(s: seq<Entry>, i: nat, e: Entry)
    requires i < |s|
    ensures Items(s[i := e]) + One(s[i]) == Items(s) + One(e)
    ensures Taken(s[i := e]) + Size(s[i]) == Taken(s) + Size(e)
  {
    ItemsToUpdate(s, i, e, |s|);
    TakenToUpdate(s, i, e, |s|);
  }

  lemma {:induction false} SlotInItemsTo(s: seq<Entry>, i: nat, n: nat)
    requires i < n <= |s| && s[i].key != NULL
    ensures s[i] in ItemsTo(s, n)
  {
    if i < n - 1 { SlotInItemsTo(s, i, n - 1); }
  }

  lemma SlotInItems(s: seq<Entry>, i: nat)
    requires i < |s| && s[i].key != NULL
    ensures s[i] in Items(s)
  {
    SlotInItemsTo(s, i, |s|);
  }

  lemma {:induction false} ItemInSlot(s: seq<Entry>, e: Entry, n: nat)
    requires n <= |s| && e in ItemsTo(s, n)
    ensures e.key != NULL && exists i :: 0 <= i < n && s[i] == e
  {
    if e !in One(s[n - 1]) { ItemInSlot(s, e, n - 1); }
  }

  lemma {:induction false} TakenToFits(s: seq<Entry>, n: nat)
    requires n <= |s|
    ensures TakenTo(s, n) <= n
    ensures TakenTo(s, n) == n ==> forall i :: 0 <= i < n ==> s[i].key != NULL
    ensures TakenTo(s, n) < n ==> exists i :: 0 <= i < n && s[i].key == NULL
  {
    if n > 0 { TakenToFits(s, n - 1); }
  }

  lemma {:induction false} NothingTaken(s: seq<Entry>, n: nat)
    requires n <= |s| && forall i :: 0 <= i < n ==> s[i].key == NULL
    ensures ItemsTo(s, n) == multiset{} && TakenTo(s, n) == 0
  {
    if n > 0 { NothingTaken(s, n - 1); }
  }

  // ---------- Maps ----------

  function Graph(m: map<Ptr, Ptr>): set<Entry> {
    set k | k in m :: Entry(k, m[k])
  }

  /** The table holds the map m, each key once. */
  predicate Represents(s: seq<Entry>, m: map<Ptr, Ptr>) {
    Items(s) == multiset(Graph(m))
  }

  lemma GraphHas(m: map<Ptr, Ptr>, e: Entry)
    ensures e in Graph(m) <==> e.key in m && m[e.key] == e.val
  {
    if e in Graph(m) { assert e == Entry(e.key, m[e.key]); }
  }

  /** A table holds one map at most. */
  lemma RepresentsOne(s: seq<Entry>, m: map<Ptr, Ptr>, n: map<Ptr, Ptr>)
    requires Represents(s, m) && Represents(s, n)
    ensures m == n
  {
    assert forall e :: e in Graph(m) <==> e in multiset(Graph(m));
    assert forall e :: e in Graph(n) <==> e in multiset(Graph(n));
    forall k | k in m ensures k in n && n[k] == m[k] {
      GraphHas(m, Entry(k, m[k]));
      assert Entry(k, m[k]) in Items(s);
      GraphHas(n, Entry(k, m[k]));
    }
    forall k | k in n ensures k in m {
      GraphHas(n, Entry(k, n[k]));
      assert Entry(k, n[k]) in Items(s);
      GraphHas(m, Entry(k, n[k]));
    }
  }

  lemma GraphAdds(m: map<Ptr, Ptr>, k: Ptr, v: Ptr)
    requires k !in m
    ensures multiset(Graph(m[k := v])) == multiset(Graph(m)) + multiset{Entry(k, v)}
  {
    var n := m[k := v];
    forall e ensures e in Graph(n) <==> e in Graph(m) || e == Entry(k, v) {
      GraphHas(m, e);
      GraphHas(n, e);
    }
    GraphHas(m, Entry(k, v));
    assert Graph(n) == Graph(m) + {Entry(k, v)};
  }

  lemma GraphDrops(m: map<Ptr, Ptr>, k: Ptr)
    requires k in m
    ensures multiset(Graph(m)) == multiset(Graph(m - {k})) + multiset{Entry(k, m[k])}
  {
    var n := m - {k};
    GraphAdds(n, k, m[k]);
    assert n[k := m[k]] == m;
  }

  lemma {:induction false} GraphSize(m: map<Ptr, Ptr>)
    ensures |Graph(m)| == |m|
    decreases |m|
  {
    if m.Keys == {} {
      assert Graph(m) == {};
    } else {
      var k :| k in m;
      var n := m - {k};
      assert n.Keys == m.Keys - {k};
      assert |n| == |n.Keys| && |m| == |m.Keys|;
      GraphSize(n);
      GraphDrops(m, k);
      assert |multiset(Graph(m))| == |multiset(Graph(n))| + 1;
      assert |multiset(Graph(m))| == |Graph(m)| && |multiset(Graph(n))| == |Graph(n)|;
    }
  }

  /** Adding an entry for k adds to the map exactly when k was not there. */
  lemma AddsWhenAbsent(s: seq<Entry>, t: seq<Entry>, m: map<Ptr, Ptr>, k: Ptr, v: Ptr)
    requires Represents(s, m) && Items(t) == Items(s) + multiset{Entry(k, v)}
    ensures Represents(t, m[k := v]) <==> k !in m
  {
    if k !in m {
      GraphAdds(m, k, v);
    } else {
      var n := m[k := v];
      assert n.Keys == m.Keys;
      assert |n| == |n.Keys| && |m| == |m.Keys|;
      GraphSize(m);
      GraphSize(n);
      assert |Items(t)| == |Graph(m)| + 1;
      assert |multiset(Graph(n))| == |Graph(n)|;
    }
  }

  // ---------- Probing ----------

  /** The slot of the c-th probe. */
  function Probe(start: nat, c: nat, size: nat): nat {
    if start + c < size then start + c else start + c - size
  }

  /** Every slot is probed in time. */
  lemma ProbedAll(start: nat, size: nat, j: nat) returns (c: nat)
    requires start < size && j < size
    ensures c < size && Probe(start, c, size) == j
  {
    c := if j >= start then j - start else j + size - start;
  }

  /** The first c probes find no entry with key k. */
  ghost predicate Missed(s: seq<Entry>, start: nat, c: nat, k: Ptr) {
    start < |s| && c <= |s| && forall d :: 0 <= d < c ==> s[Probe(start, d, |s|)].key != k
  }

  lemma MissedAll(s: seq<Entry>, start: nat, k: Ptr)
    requires Missed(s, start, |s|, k)
    ensures forall j :: 0 <= j < |s| ==> s[j].key != k
  {
    forall j | 0 <= j < |s| ensures s[j].key != k {
      var c := ProbedAll(start, |s|, j);
    }
  }

  lemma AbsentKey(s: seq<Entry>, m: map<Ptr, Ptr>, k: Ptr)
    requires Represents(s, m) && forall j :: 0 <= j < |s| ==> s[j].key != k
    ensures k !in m
  {
    if k in m {
      GraphHas(m, Entry(k, m[k]));
      assert Entry(k, m[k]) in multiset(Graph(m));
      ItemInSlot(s, Entry(k, m[k]), |s|);
    }
  }

  lemma PresentWhenFound(s: seq<Entry>, m: map<Ptr, Ptr>, i: nat)
    requires Represents(s, m) && i < |s| && s[i].key != NULL
    ensures s[i].key in m && m[s[i].key] == s[i].val
  {
    SlotInItems(s, i);
    assert s[i] in multiset(Graph(m));
    GraphHas(m, s[i]);
  }

  const SIZE_MAX := 0xffff_ffff_ffff_ffff

  /** What a size_t holds of n. */
  function Wrapped(n: nat): (w: nat)
    ensures w <= SIZE_MAX && (n <= SIZE_MAX ==> w == n)
  {
    if n <= SIZE_MAX then n else Wrapped(n - SIZE_MAX - 1)
  }

  function Increment(n: nat): nat {
    if n < SIZE_MAX then n + 1 else 0
  }

  function Decrement(n: nat): nat {
    if n > 0 then n - 1 else SIZE_MAX
  }

  lemma {:induction false} WrapNext(n: nat)
    ensures Wrapped(n + 1) == Increment(Wrapped(n))
  {
    if n > SIZE_MAX { WrapNext(n - SIZE_MAX - 1); }
  }

  /** get_index gives a slot. */
  predicate Lands(index: (Ptr, nat) -> nat, k: Ptr, n: nat) {
    n > 0 ==> index(k, n) < n
  }

  ghost predicate AlwaysLands(index: (Ptr, nat) -> nat) {
    forall k: Ptr, n: nat :: Lands(index, k, n)
  }

  /** The slot is empty and the first such from the start on. */
  ghost predicate FirstEmpty(s: seq<Entry>, start: nat, slot: nat) {
    slot < |s| && s[slot].key == NULL
    && exists c: nat :: c < |s| && Missed(s, start, c, NULL) && slot == Probe(start, c, |s|)
  }

  class Map {
    /** get_index */
    const index: (Ptr, nat) -> nat
    var size: nat
    /** A size_t, not always the number of entries. */
    var nbEntries: nat
    var slots: array<Entry>

    ghost predicate Shape()
      reads this, slots
    {
      slots.Length == size && 1 < size && 16 * size <= SIZE_MAX && nbEntries <= SIZE_MAX && AlwaysLands(index)
    }

    /** At most half of the slots are taken, and nbEntries counts neither too few nor more than the slots. */
    ghost predicate Valid()
      reads this, slots
    {
      Shape() && 2 * Taken(slots[..]) <= size && Taken(slots[..]) <= nbEntries <= size
    }

    ghost predicate Holds(m: map<Ptr, Ptr>)
      reads this, slots
    {
      Represents(slots[..], m)
    }

    constructor (index: (Ptr, nat) -> nat)
      requires AlwaysLands(index)
      ensures Valid() && Holds(map[]) && Items(slots[..]) == multiset{} && Taken(slots[..]) == 0
      ensures nbEntries == 0 && size == 32 && fresh(slots)
      ensures forall i :: 0 <= i < size ==> slots[i].key == NULL
      ensures this.index == index
    {
      this.index := index;
      size, nbEntries := MAP_INIT_SIZE, 0;
      slots := new Entry[MAP_INIT_SIZE](_ => EMPTY);
      new;
      NothingTaken(slots[..], size);
      assert Graph(map[]) == {};
    }

    function Start(k: Ptr): (i: nat)
      reads this, slots
      requires Shape()
      ensures i < size
    {
      assert Lands(index, k, size);
      index(k, size)
    }

    /** The probing loop of every operation: the first slot whose key is k, from the given start. */
    method Find(start: nat, k: Ptr) returns (i: nat, cnt: nat)
      requires Shape() && start < size
      ensures cnt <= size && Missed(slots[..], start, cnt, k)
      ensures i == Probe(start, cnt, size) && i < size && (cnt < size ==> slots[i].key == k)
    {
      i, cnt := start, 0;
      while cnt < size
        invariant cnt <= size && i == Probe(start, cnt, size)
        invariant Missed(slots[..], start, cnt, k)
      {
        if slots[i].key == k {
          break;
        }
        i := i + 1;
        if i >= size { i := 0; }
        cnt := cnt + 1;
      }
    }

    /** nx_map_get: the first entry for the key in probing order. A NULL key is found in an empty slot. */
    method Get(key: Ptr, ghost m: map<Ptr, Ptr>) returns (ok: bool, val: Ptr, ghost c: nat)
      requires Shape()
      ensures Missed(slots[..], Start(key), c, key)
      ensures if ok then c < size && slots[Probe(Start(key), c, size)] == Entry(key, val) else c == size && val == NULL
      ensures Holds(m) && key != NULL ==> (ok <==> key in m) && (ok ==> val == m[key])
      ensures key == NULL ==> (ok <==> Taken(slots[..]) < size)
    {
      var i, cnt := Find(Start(key), key);
      ok, c := cnt < size, cnt;
      val := if ok then slots[i].val else NULL;
      if key == NULL { EmptySlots(slots[..], Start(key), cnt); }
      if Holds(m) && key != NULL { GetIsLookup(slots[..], m, Start(key), key, cnt); }
    }

    /** insert_entry: the first empty slot in probing order; a full table loses the entry at the start. */
    method InsertEntry(key: Ptr, val: Ptr) returns (ghost slot: nat)
      requires Shape()
      modifies this`nbEntries, slots
      ensures Shape() && nbEntries == Increment(old(nbEntries))
      ensures slot < size && slots[..] == old(slots[..])[slot := Entry(key, val)]
      ensures old(Taken(slots[..])) < size ==> old(FirstEmpty(slots[..], Start(key), slot))
      ensures old(Taken(slots[..])) == size ==> slot == old(Start(key)) && old(slots[..])[slot].key != NULL
    {
      var i, cnt := Find(Start(key), NULL);
      EmptySlots(slots[..], Start(key), cnt);
      slot := i;
      slots[i] := Entry(key, val);
      assert slots[..] == old(slots[..])[i := Entry(key, val)];
      nbEntries := Increment(nbEntries);
    }

    /** insert_entry where there is room. */
    method InsertFree(key: Ptr, val: Ptr) returns (ghost slot: nat)
      requires Shape() && Taken(slots[..]) < size
      modifies this`nbEntries, slots
      ensures Shape() && nbEntries == Increment(old(nbEntries))
      ensures slot < size && slots[..] == old(slots[..])[slot := Entry(key, val)]
      ensures old(FirstEmpty(slots[..], Start(key), slot)) && Added(old(slots[..]), key, val)
    {
      ghost var s := slots[..];
      slot := InsertEntry(key, val);
      SlotUpdate(s, slot, Entry(key, val));
    }

    /** The table holds one entry more than s. */
    ghost predicate Added(s: seq<Entry>, key: Ptr, val: Ptr)
      reads this, slots
    {
      Items(slots[..]) == Items(s) + One(Entry(key, val)) && Taken(slots[..]) == Taken(s) + Size(Entry(key, val))
    }

    /** rehash_entries: every entry of the old table is inserted, and counted again. */
    method RehashEntries(old_: array<Entry>)
      requires Shape() && old_ != slots && Copied(old_[..], 0, nbEntries)
      modifies this`nbEntries, slots
      ensures Shape() && Copied(old(old_[..]), old_.Length, old(nbEntries))
    {
      ghost var s, n := old_[..], nbEntries;
      for i := 0 to old_.Length
        invariant Shape() && old_[..] == s && Copied(s, i, n)
      {
        var e := old_[i];
        assert e == s[i];
        RehashEntry(e, s, i, n);
      }
    }

    /** The first i slots of s are here, counted on top of n. */
    ghost predicate Copied(s: seq<Entry>, i: nat, n: nat)
      reads this, slots
    {
      && i <= |s| && |s| < size && Items(slots[..]) == ItemsTo(s, i) && Taken(slots[..]) == TakenTo(s, i)
      && nbEntries == Wrapped(n + TakenTo(s, i))
    }

    method RehashEntry(e: Entry, ghost s: seq<Entry>, ghost i: nat, ghost n: nat)
      requires Shape() && i < |s| && e == s[i] && Copied(s, i, n)
      modifies this`nbEntries, slots
      ensures Shape() && Copied(s, i + 1, n)
    {
      TakenToFits(s, i);
      if e.key != NULL {
        WrapNext(n + TakenTo(s, i));
        var _ := InsertFree(e.key, e.val);
      }
    }

    /** A larger table can be had: calloc refuses one whose bytes a size_t cannot count. */
    method Resize(alloc: bool) returns (ok: bool)
      requires Shape()
      modifies this`size, this`slots, this`nbEntries
      ensures Shape() && (ok <==> alloc && 32 * old(size) <= SIZE_MAX)
      ensures ok ==> fresh(slots) && size == 2 * old(size) && SameEntries(old(slots[..]))
      ensures ok ==> nbEntries == Wrapped(old(nbEntries) + old(Taken(slots[..])))
      ensures !ok ==> size == old(size) && slots == old(slots) && nbEntries == old(nbEntries)
    {
      ok := alloc && 2 * size * 16 <= SIZE_MAX;
      if ok {
        var old_ := slots;
        ghost var s := slots[..];
        ClearTable(2 * size);
        assert old_[..] == s && Copied(s, 0, nbEntries);
        RehashEntries(old_);
      }
    }

    ghost predicate SameEntries(s: seq<Entry>)
      reads this, slots
    {
      Items(slots[..]) == Items(s) && Taken(slots[..]) == Taken(s)
    }

    method ClearTable(n: nat)
      requires Shape() && size < n && 16 * n <= SIZE_MAX
      modifies this`size, this`slots
      ensures Shape() && size == n && fresh(slots) && Items(slots[..]) == multiset{} && Taken(slots[..]) == 0
    {
      size := n;
      slots := new Entry[n](_ => EMPTY);
      NothingTaken(slots[..], n);
    }

    /** The table grows first if the count says that half of it is taken. */
    method MakeRoom(alloc: bool) returns (ok: bool)
      requires Shape()
      modifies this`size, this`slots, this`nbEntries
      ensures Shape() && SameEntries(old(slots[..]))
      ensures !ok <==> old(nbEntries) >= old(size) / 2 && !(alloc && 32 * old(size) <= SIZE_MAX)
      ensures ok && old(nbEntries) >= old(size) / 2 ==> fresh(slots) && size == 2 * old(size)
      ensures !ok || old(nbEntries) < old(size) / 2 ==> slots == old(slots) && size == old(size)
      ensures nbEntries == if !ok then old(nbEntries) else Wrapped(old(Grown()))
    {
      ok := true;
      if nbEntries >= size / 2 {
        ok := Resize(alloc);
      }
    }

    /** The count after the table has grown, if it needs to. */
    ghost function Grown(): nat
      reads this, slots
    {
      nbEntries + if nbEntries >= size / 2 then Taken(slots[..]) else 0
    }

    /**
      nx_map_put, in any state. The entry is added, which is what a map does exactly when the
      key is not there yet; from a valid table no count wraps and the table stays valid.
      */
    method Put(key: Ptr, val: Ptr, alloc: bool, ghost m: map<Ptr, Ptr>) returns (ok: bool, ghost slot: nat)
      requires Shape()
      modifies this`size, this`slots, this`nbEntries, slots
      ensures Shape() && (slots == old(slots) || fresh(slots)) && (old(Valid()) ==> Valid())
      ensures !ok <==> old(nbEntries) >= old(size) / 2 && !(alloc && 32 * old(size) <= SIZE_MAX)
      ensures !ok ==> slots == old(slots) && slots[..] == old(slots[..]) && nbEntries == old(nbEntries)
      ensures ok ==> nbEntries == Wrapped(old(Grown()) + 1)
      ensures ok && old(Taken(slots[..])) < size ==> Added(old(slots[..]), key, val)
      ensures ok && old(Taken(slots[..])) < size && old(Holds(m)) && key != NULL ==>
        (Holds(m[key := val]) <==> key !in m)
      ensures ok && old(nbEntries) < old(size) / 2 ==> InPlace(old(slots[..]), key, val, slot) && size == old(size)
    {
      ghost var s, n := slots[..], Grown();
      TakenToFits(s, |s|);
      slot := 0;
      ok := MakeRoom(alloc);
      if ok {
        WrapNext(n);
        slot := AddEntry(key, val, s, m);
      }
    }

    /** The entry is in a slot of s that was the first empty one, if there was one. */
    ghost predicate InPlace(s: seq<Entry>, key: Ptr, val: Ptr, slot: nat)
      reads this, slots
    {
      && slot < |s| == size && slots[..] == s[slot := Entry(key, val)]
      && (Taken(s) < size ==> size > 0 && FirstEmpty(s, index(key, size), slot))
    }

    /** The entry goes into the table that holds what s holds. */
    method AddEntry(key: Ptr, val: Ptr, ghost s: seq<Entry>, ghost m: map<Ptr, Ptr>) returns (ghost slot: nat)
      requires Shape() && SameEntries(s)
      modifies this`nbEntries, slots
      ensures Shape() && nbEntries == Increment(old(nbEntries)) && InPlace(old(slots[..]), key, val, slot)
      ensures Taken(s) < size ==> Added(s, key, val)
      ensures Taken(s) < size && Represents(s, m) && key != NULL ==> (Holds(m[key := val]) <==> key !in m)
    {
      ghost var t := slots[..];
      slot := InsertEntry(key, val);
      SlotUpdate(t, slot, Entry(key, val));
      if Taken(s) < size && Represents(s, m) && key != NULL { AddsWhenAbsent(s, slots[..], m, key, val); }
    }

    /** The first slot with the key, if any, is emptied. The count is a size_t: below zero it wraps. */
    method TakeOut(key: Ptr) returns (val: Ptr, ghost slot: nat)
      requires Shape()
      modifies this`nbEntries, slots
      ensures Shape() && (key == NULL ==> (slot < size <==> old(Taken(slots[..])) < size))
      ensures slot >= size ==> slots[..] == old(slots[..]) && nbEntries == old(nbEntries) && val == NULL
      ensures slot >= size ==> forall j :: 0 <= j < size ==> slots[j].key != key
      ensures slot < size ==> old(slots[..])[slot] == Entry(key, val) && slots[..] == old(slots[..])[slot := EMPTY]
      ensures slot < size ==> nbEntries == Decrement(old(nbEntries))
    {
      var i, cnt := Find(Start(key), key);
      val, slot := NULL, size;
      if key == NULL { EmptySlots(slots[..], Start(key), cnt); }
      if cnt < size {
        slot := i;
        val := slots[i].val;
        slots[i] := EMPTY;
        assert slots[..] == old(slots[..])[i := EMPTY];
        nbEntries := Decrement(nbEntries);
      } else {
        MissedAll(slots[..], Start(key), key);
      }
    }

    /**
      nx_map_remove takes the key out of the map. A NULL key is found in an empty slot: nothing is
      taken out, but the count drops, and the table stays valid exactly if it was too high before.
      */
    method Remove(key: Ptr, ghost m: map<Ptr, Ptr>) returns (val: Ptr)
      requires Shape()
      modifies this`nbEntries, slots
      ensures Shape() && (old(Valid()) ==> (Valid() <==> key != NULL || old(Taken(slots[..])) < old(nbEntries)))
      ensures old(Holds(m)) && key != NULL ==> Holds(m - {key}) && val == if key in m then m[key] else NULL
      ensures key == NULL ==> SameEntries(old(slots[..]))
      ensures key == NULL && old(Taken(slots[..])) < size ==> nbEntries == Decrement(old(nbEntries))
    {
      ghost var s := slots[..];
      ghost var i: nat;
      val, i := TakeOut(key);
      if i < size {
        SlotUpdate(s, i, EMPTY);
        if key != NULL { RemovesKey(s, slots[..], m, i); } else { EmptyForEmpty(s, slots[..], i); }
      } else {
        assert slots[..] == s;
        RemovesNothing(s, m, key);
      }
    }
  }

  /** An empty slot is found unless there is none. */
  lemma EmptySlots(s: seq<Entry>, start: nat, cnt: nat)
    requires start < |s| && cnt <= |s| && Missed(s, start, cnt, NULL)
    requires cnt < |s| ==> s[Probe(start, cnt, |s|)].key == NULL
    ensures (cnt < |s| <==> Taken(s) < |s|) && Taken(s) <= |s|
    ensures cnt < |s| ==> FirstEmpty(s, start, Probe(start, cnt, |s|))
    ensures cnt == |s| ==> forall j :: 0 <= j < |s| ==> s[j].key != NULL
  {
    TakenToFits(s, |s|);
    if cnt == |s| { MissedAll(s, start, NULL); }
  }

  lemma GetIsLookup(s: seq<Entry>, m: map<Ptr, Ptr>, start: nat, k: Ptr, cnt: nat)
    requires Represents(s, m) && k != NULL && start < |s| && cnt <= |s| && Missed(s, start, cnt, k)
    requires cnt < |s| ==> s[Probe(start, cnt, |s|)].key == k
    ensures cnt < |s| <==> k in m
    ensures cnt < |s| ==> m[k] == s[Probe(start, cnt, |s|)].val
  {
    if cnt < |s| {
      PresentWhenFound(s, m, Probe(start, cnt, |s|));
    } else {
      MissedAll(s, start, k);
      AbsentKey(s, m, k);
    }
  }

  lemma EmptyForEmpty(s: seq<Entry>, t: seq<Entry>, i: nat)
    requires i < |s| && s[i].key == NULL && Items(t) + One(s[i]) == Items(s) + One(EMPTY)
    ensures Items(t) == Items(s)
  {
    assert Items(t) + multiset{} == Items(t) && Items(s) + multiset{} == Items(s);
  }

  lemma Cancel(a: multiset<Entry>, b: multiset<Entry>, e: Entry)
    requires a + multiset{e} == b + multiset{e}
    ensures a == b
  {
    assert a == (a + multiset{e}) - multiset{e};
  }

  lemma RemovesKey(s: seq<Entry>, t: seq<Entry>, m: map<Ptr, Ptr>, i: nat)
    requires i < |s| && s[i].key != NULL && Items(t) + One(s[i]) == Items(s)
    ensures Represents(s, m) ==> s[i].key in m && m[s[i].key] == s[i].val && Represents(t, m - {s[i].key})
  {
    if Represents(s, m) {
      PresentWhenFound(s, m, i);
      GraphDrops(m, s[i].key);
      Cancel(Items(t), multiset(Graph(m - {s[i].key})), s[i]);
    }
  }

  lemma RemovesNothing(s: seq<Entry>, m: map<Ptr, Ptr>, k: Ptr)
    requires forall j :: 0 <= j < |s| ==> s[j].key != k
    ensures Represents(s, m) ==> k !in m && m - {k} == m
  {
    if Represents(s, m) { AbsentKey(s, m, k); }
  }

  /** A key put twice keeps its first value, whatever slot its probing starts from. */
  method PutTwice(index: (Ptr, nat) -> nat, key: Ptr, a: Ptr, b: Ptr) returns (val: Ptr)
    requires AlwaysLands(index) && key != NULL
    ensures val == a
  {
    var t := new Map(index);
    ghost var start := t.Start(key);
    ghost var empty := t.slots[..];
    var ok0, s0 := t.Put(key, a, true, map[]);
    StartsEmpty(empty, start, s0);
    ghost var one := t.slots[..];
    var ok1, s1 := t.Put(key, b, true, map[]);
    NotAtStart(one, start, s1);
    assert t.slots[..][start] == Entry(key, a);
    var ok, v, c := t.Get(key, map[]);
    FoundAtStart(t.slots[..], start, c, key);
    val := v;
  }

  lemma StartsEmpty(s: seq<Entry>, start: nat, slot: nat)
    requires (forall i :: 0 <= i < |s| ==> s[i].key == NULL) && start < |s| && FirstEmpty(s, start, slot)
    ensures slot == start
  {
    var c: nat :| c < |s| && Missed(s, start, c, NULL) && slot == Probe(start, c, |s|);
    assert Probe(start, 0, |s|) == start;
  }

  lemma NotAtStart(s: seq<Entry>, start: nat, slot: nat)
    requires start < |s| && s[start].key != NULL && FirstEmpty(s, start, slot)
    ensures slot != start
  {
  }

  lemma FoundAtStart(s: seq<Entry>, start: nat, c: nat, k: Ptr)
    requires Missed(s, start, c, k) && s[start].key == k
    ensures c == 0
  {
    assert Probe(start, 0, |s|) == start;
  }

  /** A NULL key removed from a new map: the count wraps, and after one put it is zero with an entry in the table. */
  method CountLost(index: (Ptr, nat) -> nat, key: Ptr, val: Ptr) returns (wrapped: nat, count: nat, found: Ptr)
    requires AlwaysLands(index) && key != 0
    ensures wrapped == 0xffff_ffff_ffff_ffff && count == 0 && found == val
  {
    var t := new Map(index);
    var gone := t.Remove(0, map[]);
    wrapped := t.nbEntries;
    var ok, slot := t.Put(key, val, true, map[]);
    count := t.nbEntries;
    var there, v, c := t.Get(key, map[key := val]);
    found := v;
  }
}
