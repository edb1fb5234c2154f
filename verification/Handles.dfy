/**
  Reuse of device handles in one process (nx_open and nx_close of lib/nx_zlib.c).
  A mutex makes each call one step; whether memory, a window or credits can be had
  is decided by the caller of the model.
  */
module Handles {

  class Handle {
    var openCnt: int
    var useCnt: nat

    constructor ()
      ensures openCnt == 1 && useCnt == 1
    {
      openCnt, useCnt := 1, 1;
    }
  }

  class Pool {
    /** How often a handle may be reused; not zero. */
    const maxReuse: nat
    var saved: Handle?
    /** The handles not freed yet, and one element for each time one is held. */
    ghost var live: set<Handle>
    ghost var held: multiset<Handle>

    /** Counts are right, no held handle is freed, and the saved handle is not freed. */
    ghost predicate Valid()
      reads this, live
    {
      && (saved != null ==> saved in live)
      && (forall h :: h in held ==> h in live)
      && (forall h :: h in live ==> h.openCnt == held[h] && 1 <= h.useCnt <= maxReuse + 1)
    }

    /** Every live handle can still be reached. */
    ghost predicate NoLeak()
      reads this
    {
      forall h :: h in live ==> h == saved || h in held
    }

    constructor (maxReuse: nat)
      ensures Valid() && NoLeak() && live == {} && held == multiset{} && saved == null && this.maxReuse == maxReuse
    {
      this.maxReuse := maxReuse;
      saved, live, held := null, {}, multiset{};
    }

    predicate CanReuse()
      reads this, saved
    {
      saved != null && saved.useCnt <= maxReuse
    }

    method Reuse() returns (h: Handle)
      requires Valid() && CanReuse()
      modifies this`held, saved
      ensures Valid() && h == saved && held == old(held) + multiset{h}
      ensures h.useCnt == old(saved.useCnt) + 1
    {
      saved.useCnt := saved.useCnt + 1;
      saved.openCnt := saved.openCnt + 1;
      held := held + multiset{saved};
      h := saved;
    }

    /** A new handle is saved; the old saved one is freed if nobody holds it. */
    method Replace() returns (h: Handle)
      requires Valid()
      modifies this`saved, this`live, this`held
      ensures Valid() && fresh(h) && saved == h && held == old(held) + multiset{h} && h.useCnt == 1
      ensures live == old(live) + {h} - (if old(saved) != null && old(saved) !in old(held) then {old(saved)} else {})
    {
      h := new Handle();
      assert h !in live && h !in held;
      if saved != null && saved.openCnt == 0 {
        live := live - {saved};
      }
      saved := h;
      live, held := live + {h}, held + multiset{h};
    }

    /** nx_open: the saved handle again, or a new one that is saved in its place. */
    method Open(lowCredits: bool, alloc: bool, begin: bool) returns (h: Handle?)
      requires Valid()
      modifies this`saved, this`live, this`held, saved
      ensures Valid() && (old(NoLeak()) ==> NoLeak())
      ensures old(CanReuse()) <==> old(saved) != null && old(saved.useCnt) <= maxReuse
      ensures h == null <==> lowCredits || (!old(CanReuse()) && !(alloc && begin))
      ensures h == null ==> live == old(live) && held == old(held) && saved == old(saved)
      ensures (h == null || !old(CanReuse())) && old(saved) != null ==> unchanged(old(saved))
      ensures h != null ==> held == old(held) + multiset{h} && saved == h
      ensures h != null && old(CanReuse()) ==> h == old(saved) && live == old(live) && h.useCnt == old(saved.useCnt) + 1
      ensures h != null && !old(CanReuse()) ==> fresh(h) && h.useCnt == 1
      ensures h != null && !old(CanReuse()) ==>
        live == old(live) + {h} - (if old(saved) != null && old(saved) !in old(held) then {old(saved)} else {})
    {
      if lowCredits {
        return null;
      }
      if CanReuse() {
        h := Reuse();
        return;
      }
      if !alloc || !begin {
        return null;
      }
      h := Replace();
    }

    /** What nx_close does wrong: it forgets a saved handle that nobody holds. */
    ghost predicate Forgets(h: Handle, outOfCredits: bool)
      reads this, h, saved
    {
      outOfCredits && h.openCnt == 1 && saved != null && saved != h && saved.openCnt == 0
    }

    /** One holder less. */
    method Release(h: Handle)
      requires Valid() && h in held
      modifies this`held, h`openCnt
      ensures Valid() && held == old(held) - multiset{h} && h.openCnt == held[h]
    {
      h.openCnt := h.openCnt - 1;
      held := held - multiset{h};
    }

    /** The handle that nobody holds is freed; without credits there is no saved handle any more. */
    method Free(h: Handle, outOfCredits: bool)
      requires Valid() && h in live && h !in held && (outOfCredits || h != saved)
      modifies this`saved, this`live
      ensures Valid() && live == old(live) - {h} && saved == if outOfCredits then null else old(saved)
    {
      if outOfCredits {
        saved := null;
      }
      live := live - {h};
    }

    /** nx_close by a holder of h. A live handle becomes unreachable exactly in one case. */
    method Close(h: Handle, outOfCredits: bool)
      requires Valid() && h in held
      modifies this`saved, this`live, this`held, h
      ensures Valid() && held == old(held) - multiset{h}
      ensures live == if h !in held && (outOfCredits || h != old(saved)) then old(live) - {h} else old(live)
      ensures saved == if h !in held && outOfCredits then null else old(saved)
      ensures h.useCnt == old(h.useCnt)
      ensures old(NoLeak()) ==> (NoLeak() <==> !old(Forgets(h, outOfCredits)))
    {
      ghost var s := saved;
      assert s != null ==> (s.openCnt > 0 <==> s in held);
      Release(h);
      if h.openCnt == 0 {
        if outOfCredits || h != saved {
          Free(h, outOfCredits);
        }
      }
    }
  }

  /** A new handle serves its first open and maxReuse more, held all the time or not, and then a new one does. */
  method Served(maxReuse: nat, closed: nat -> bool) returns (pool: Pool, first: Handle, next: Handle)
    ensures pool.Valid() && pool.NoLeak() && next != first && pool.saved == next && next.useCnt == 1
    ensures first in pool.live ==> first.useCnt == 1 + maxReuse
  {
    pool := new Pool(maxReuse);
    first := pool.Open(false, true, true);
    for n := 0 to maxReuse
      invariant pool.Valid() && pool.NoLeak() && fresh(pool) && fresh(first) && pool.maxReuse == maxReuse
      invariant pool.saved == first && first.useCnt == 1 + n && first in pool.live && pool.live == {first}
    {
      if closed(n) && first.openCnt > 0 {
        assert pool.held[first] > 0;
        pool.Close(first, false);
      }
      var h := pool.Open(false, true, true);
      assert h == first;
    }
    next := pool.Open(false, true, true);
  }

  /** One run that leaves a window open for good. */
  method Forgotten() returns (pool: Pool, lost: Handle)
    ensures pool.Valid() && lost in pool.live && lost != pool.saved && lost !in pool.held
  {
    pool := new Pool(1);
    var a := pool.Open(false, true, true);
    var b := pool.Open(false, true, true);
    pool.Close(a, false);
    var c := pool.Open(false, true, true);
    pool.Close(c, false);
    assert c in pool.live && c !in pool.held && pool.saved == c && c != a;
    pool.Close(a, true);
    lost := c;
  }
}
