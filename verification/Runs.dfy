/** Runs of legal calls, and what holds after every one of them. */
module Runs {
  import opened Blocks
  import opened Pools
  import opened Memory
  import opened Heap
  import opened HeapFacts
  import opened Fit
  import opened Image
  import opened Joins

  function Start(head: int, limit: int): Heap {
    Heap(head, limit, [], [], [], Control(false, false, false, 0, 0), Stats(0, 0, 0, 0, 0, 0, 0, 0))
  }

  predicate Arena(head: int, limit: int) {
    && 0 < head && head % 4 == 0 && head + BFH <= limit
    && limit <= WORD_SPAN && limit % 4 == 0
  }

  // ----- the invariant over runs

  lemma StartHolds(head: int, limit: int)
    requires Arena(head, limit)
    ensures Inv(Start(head, limit))
  {
  }

  lemma StartIs(head: int, limit: int)
    ensures Start(head, limit)
            == Heap(head, limit, [], [], [], Control(false, false, false, 0, 0), Stats(0, 0, 0, 0, 0, 0, 0, 0))
  {
  }

  /** A list head that is its own neighbour shows the heap before the first call. */
  lemma StartImage(m: Words, head: int, limit: int)
    requires At(m, head + FLINK) == head && At(m, head + BLINK) == head
    ensures ImageOf(m, Start(head, limit))
  {
    assert Circle(head, []) == [head, head];
  }

  lemma ReleasableLive(h: Heap, buf: int)
    requires CanRelease(h, buf)
    ensures IsLive(h, buf)
  {
  }

  /** Whatever the call-backs do, as long as they play by the rules, `bget` keeps the invariant. */
  lemma {:induction false} GetKeeps(h: Heap, size: int, plan: seq<Answer>, acquired: int)
    requires Inv(h) && Requested(size) && GetLegal(h, size, plan, acquired)
    ensures Inv(Get(h, size, plan, acquired).0)
    decreases plan
  {
    hide Inv, TakeBest, Expand, Best, Run, RunLegal, AcquiredLegal, Get, GetLegal, PlanTouched, RunTouched, Requested;
    if Best(h, size) >= 0 {
      GetFits(h, size, plan, acquired);
      TakeBestHolds(h, size);
    } else if h.ctl.compact && plan != [] {
      GetCompacts(h, size, plan, acquired);
      var h1 := Run(h, plan[0].calls);
      RunKeeps(h, plan[0].calls);
      if plan[0].again {
        GetKeeps(h1, size, plan[1..], acquired);
      } else {
        ExpandKeeps(h1, size, acquired);
      }
    } else {
      GetExpands(h, size, plan, acquired);
      ExpandKeeps(h, size, acquired);
    }
  }

  lemma TakeBestHolds(h: Heap, size: int)
    requires Inv(h) && Requested(size)
    ensures Inv(TakeBest(h, size).0)
  {
    hide Inv, TakeBest, Best;
    TakeBestKeeps(h, size);
  }

  lemma {:induction false} DoKeeps(h: Heap, c: Call)
    requires Inv(h) && Legal(h, c)
    ensures Inv(Do(h, c))
    decreases c
  {
    hide Inv, Get, GetLegal, Rel, AddPool, Need, CanRelease, PoolRegion, PlanTouched, Requested, IsLive, Usable;
    match c
    case CallGet(r, plan, acquired, _) =>
      NeedFits(r);
      GetKeeps(h, Need(r), plan, acquired);
    case CallGetr(buf, r, plan, acquired) =>
      NeedFits(r);
      GetKeeps(h, Need(r), plan, acquired);
      var (h1, nbuf) := Get(h, Need(r), plan, acquired);
      if nbuf != 0 && buf != 0 {
        ReleasableLive(h1, buf);
        RelKeeps(h1, buf);
      }
    case CallRel(buf) =>
      ReleasableLive(h, buf);
      RelKeeps(h, buf);
    case CallPool(base, len) => AddPoolKeeps(h, base, len);
    case CallCtl(_, _, _, _) => CtlKeeps(h, Do(h, c));
    case CallWrite(_, _, _) =>
  }

  /**
   One invariant, over every run of legal calls.  Compaction functions are runs themselves: they
   may allocate, reallocate, release, add pools, change the call-backs and write their data.
   */
  lemma {:induction false} RunKeeps(h: Heap, calls: seq<Call>)
    requires Inv(h) && RunLegal(h, calls)
    ensures Inv(Run(h, calls))
    decreases calls
  {
    hide Inv, Do, Legal;
    if calls != [] {
      DoKeeps(h, calls[0]);
      RunKeeps(Do(h, calls[0]), calls[1..]);
    }
  }

  lemma ReachableHolds(head: int, limit: int, calls: seq<Call>)
    requires Arena(head, limit) && RunLegal(Start(head, limit), calls)
    ensures Inv(Run(Start(head, limit), calls))
  {
    hide Inv, Run, RunLegal;
    StartHolds(head, limit);
    RunKeeps(Start(head, limit), calls);
  }

  // ----- no pool is ever handed back once lengths differ

  /** The pools of `h`, in order, with the lengths they had, come first in `h'`. */
  predicate PoolsStay(h: Heap, h': Heap) {
    && |h.pools| <= |h'.pools|
    && forall k :: 0 <= k < |h.pools| ==>
         h'.pools[k].base == h.pools[k].base && h'.pools[k].Len() == h.pools[k].Len()
  }

  /** Lengths have differed, and every pool of `h` is still there. */
  predicate Stuck(h: Heap, h': Heap) {
    h'.ctl.poolLen == -1 && PoolsStay(h, h') && h'.stats.numprel == h.stats.numprel
  }

  lemma StuckTrans(h: Heap, h1: Heap, h2: Heap)
    requires Stuck(h, h1) && Stuck(h1, h2)
    ensures Stuck(h, h2)
  {
  }

  lemma SpliceStuck(h: Heap, h': Heap, k: nat, i: nat, j: nat, mid: seq<Block>)
    requires Placed(h) && Spliceable(h.pools, h.limit, k, i, j, mid) && h.ctl.poolLen == -1
    requires h'.pools == SplicePools(h.pools, k, i, j, mid) && h'.ctl == h.ctl && h'.stats.numprel == h.stats.numprel
    ensures Stuck(h, h')
  {
    hide Sum, WellFormed, Layout;
    SpliceArranged(h.pools, h.limit, k, i, j, mid);
  }

  lemma CarveStuck(h: Heap, f: int, size: int)
    requires Inv(h) && Carvable(h, f, size) && h.ctl.poolLen == -1
    ensures Stuck(h, Carve(h, f, size).0)
  {
    hide All, PoolOf, BlockOf, Layout, Sum, WellFormed, Remove, Counted, LengthsAgree, Stuck;
    CarveSplices(h, f, size);
    SpliceStuck(h, Carve(h, f, size).0, PoolOf(h.pools, f), BlockOf(h.pools, f), BlockOf(h.pools, f) + 1,
                CarveRun(h, f, size));
  }

  lemma RelStuck(h: Heap, buf: int)
    requires Inv(h) && IsLive(h, buf) && h.ctl.poolLen == -1
    ensures Stuck(h, Rel(h, buf))
  {
    hide All, PoolOf, BlockOf, Layout, Sum, WellFormed, Remove, Counted, LengthsAgree, Stuck, JoinList, RelPooled,
         DirectOf;
    if LivePooled(h, buf) {
      var a := buf - BH;
      RelPooledCases(h, a);
      JoinStats(h, a);
      JoinSplices(h, a);
      var k, i := PoolOf(h.pools, a), BlockOf(h.pools, a);
      var bs := h.pools[k].blocks;
      SpliceStuck(h, JoinBlock(h, a), k, JoinFrom(bs, i), JoinTo(bs, i), [Free(Sum(Joined(bs, i)))]);
    } else {
      SameStuck(h, Rel(h, buf));
    }
  }

  lemma SameStuck(h: Heap, h': Heap)
    requires h'.pools == h.pools && h'.ctl.poolLen == h.ctl.poolLen == -1 && h'.stats.numprel == h.stats.numprel
    ensures Stuck(h, h')
  {
  }

  lemma AddPoolStuck(h: Heap, base: int, len: int)
    requires h.ctl.poolLen == -1 && Mask(len) > 0
    ensures Stuck(h, AddPool(h, base, len))
  {
  }

  lemma StuckLength(h: Heap, h': Heap)
    requires Stuck(h, h')
    ensures h'.ctl.poolLen == -1
  {
  }

  lemma TakeBestStuck(h: Heap, size: int)
    requires Inv(h) && Requested(size) && h.ctl.poolLen == -1
    ensures Stuck(h, TakeBest(h, size).0)
  {
    hide Inv, Stuck, Carve, Carvable, Best, Requested;
    if Best(h, size) >= 0 {
      BestCarvable(h, size);
      CarveStuck(h, h.free[Best(h, size)], size);
    } else {
      SameStuck(h, h);
    }
  }

  lemma ExpandStuck(h: Heap, size: int, acquired: int)
    requires Inv(h) && Requested(size) && AcquiredLegal(h, size, acquired) && h.ctl.poolLen == -1
    ensures Stuck(h, Expand(h, size, acquired).0)
  {
    hide Inv, Stuck, TakeBest, AddPool, FitsExpansion, Requested, AcquiredLegal, Best;
    if !h.ctl.acquire || acquired == 0 {
      SameStuck(h, h);
    } else {
      ExpandCases(h, size, acquired);
      if FitsExpansion(h, size) {
        var h1 := AddPool(h, acquired, h.ctl.expIncr);
        AddPoolKeeps(h, acquired, h.ctl.expIncr);
        AddPoolStuck(h, acquired, h.ctl.expIncr);
        StuckLength(h, h1);
        TakeBestStuck(h1, size);
        StuckTrans(h, h1, TakeBest(h1, size).0);
      } else {
        SameStuck(h, Expand(h, size, acquired).0);
      }
    }
  }

  lemma {:induction false} GetStuck(h: Heap, size: int, plan: seq<Answer>, acquired: int)
    requires Inv(h) && Requested(size) && GetLegal(h, size, plan, acquired) && h.ctl.poolLen == -1
    ensures Stuck(h, Get(h, size, plan, acquired).0)
    decreases plan
  {
    hide Inv, Stuck, TakeBest, Expand, Best, Run, RunLegal, AcquiredLegal, Get, GetLegal, PlanTouched, RunTouched,
         Requested;
    if Best(h, size) >= 0 {
      GetFits(h, size, plan, acquired);
      TakeBestStuck(h, size);
    } else if h.ctl.compact && plan != [] {
      GetCompacts(h, size, plan, acquired);
      var h1 := Run(h, plan[0].calls);
      RunKeeps(h, plan[0].calls);
      NeverHandsBack(h, plan[0].calls);
      StuckLength(h, h1);
      if plan[0].again {
        GetStuck(h1, size, plan[1..], acquired);
      } else {
        ExpandStuck(h1, size, acquired);
      }
      StuckTrans(h, h1, Get(h, size, plan, acquired).0);
    } else {
      GetExpands(h, size, plan, acquired);
      ExpandStuck(h, size, acquired);
    }
  }

  lemma {:induction false} DoStuck(h: Heap, c: Call)
    requires Inv(h) && Legal(h, c) && h.ctl.poolLen == -1
    ensures Stuck(h, Do(h, c))
    decreases c
  {
    hide Inv, Get, GetLegal, Rel, AddPool, Need, CanRelease, PlanTouched, Requested, IsLive, Usable, Stuck;
    match c
    case CallGet(r, plan, acquired, _) =>
      NeedFits(r);
      GetStuck(h, Need(r), plan, acquired);
    case CallGetr(buf, r, plan, acquired) =>
      NeedFits(r);
      GetStuck(h, Need(r), plan, acquired);
      var (h1, nbuf) := Get(h, Need(r), plan, acquired);
      if nbuf != 0 && buf != 0 {
        GetKeeps(h, Need(r), plan, acquired);
        ReleasableLive(h1, buf);
        StuckLength(h, h1);
        RelStuck(h1, buf);
        StuckTrans(h, h1, Rel(h1, buf));
      }
    case CallRel(buf) =>
      ReleasableLive(h, buf);
      RelStuck(h, buf);
    case CallPool(base, len) => AddPoolStuck(h, base, len);
    case CallCtl(_, _, _, _) => SameStuck(h, Do(h, c));
    case CallWrite(_, _, _) => SameStuck(h, h);
  }

  /**
   Once two pools have had different lengths, `pool_len` is -1 for good, and no run, whatever
   release function is set on the way, hands back a pool.
   */
  lemma {:induction false} NeverHandsBack(h: Heap, calls: seq<Call>)
    requires Inv(h) && RunLegal(h, calls) && h.ctl.poolLen == -1
    ensures Stuck(h, Run(h, calls))
    decreases calls
  {
    hide Inv, Do, Legal, Stuck;
    if calls == [] {
      SameStuck(h, h);
    } else {
      DoKeeps(h, calls[0]);
      DoStuck(h, calls[0]);
      StuckLength(h, Do(h, calls[0]));
      NeverHandsBack(Do(h, calls[0]), calls[1..]);
      StuckTrans(h, Do(h, calls[0]), Run(h, calls));
    }
  }
}
