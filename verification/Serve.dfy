/** What a client gets: the allocator against a map from live buffers to their sizes. */
module Serve {
  import opened Blocks
  import opened Pools
  import opened Heap
  import opened HeapFacts
  import opened Live
  import opened Fit
  import opened Runs

  lemma SameRefl(h: Heap)
    ensures forall but :: SameLive(h, h, but)
  {
    hide LivePooled, LiveDirect, Usable;
  }

  lemma SameTrans(h: Heap, h1: Heap, h2: Heap, but: set<int>, but': set<int>)
    requires SameLive(h, h1, but) && SameLive(h1, h2, but')
    ensures SameLive(h, h2, but + but')
  {
    hide LivePooled, LiveDirect, Usable;
    forall b | b !in but + but' ensures SameBuffer(h, h2, b) {
      assert SameBuffer(h, h1, b) && SameBuffer(h1, h2, b);
    }
  }

  /** A new buffer of at least `n` and at most `n + slack` usable bytes, and no other change. */
  ghost predicate Served(h: Heap, h': Heap, buf: int, n: int, slack: int, gone: set<int>) {
    && buf > 0 && IsLive(h', buf)
    && n <= Usable(h', buf) <= n + slack
    && (IsLive(h, buf) ==> buf in gone)
    && SameLive(h, h', gone + {buf})
  }

  /** A block that is not split is at most this much longer than the request needs. */
  const SLACK := SIZEQ + BH

  lemma TakeBestServes(h: Heap, size: int)
    requires Inv(h) && Requested(size)
    ensures var (h', buf) := TakeBest(h, size);
            if Best(h, size) < 0 then h' == h && buf == 0
            else buf != 0 && Served(h, h', buf, size - BH, SLACK, {}) && LivePooled(h', buf)
  {
    hide Inv, Carvable, Best, Carve, SameBuffer, LivePooled, LiveDirect, Usable, SizeAt, Requested;
    if Best(h, size) >= 0 {
      BestCarvable(h, size);
      var f := h.free[Best(h, size)];
      CarveLive(h, f, size);
      assert BFH <= size <= SizeAt(h.pools, f) by { CarvableSize(h, f, size); }
      assert {} + {Carve(h, f, size).1} == {Carve(h, f, size).1};
    }
  }

  lemma CarvableSize(h: Heap, f: int, size: int)
    requires Carvable(h, f, size)
    ensures BFH <= size <= SizeAt(h.pools, f)
  {
  }

  lemma ExpandServes(h: Heap, size: int, acquired: int)
    requires Inv(h) && Requested(size) && AcquiredLegal(h, size, acquired)
    ensures var (h', buf) := Expand(h, size, acquired);
            if !h.ctl.acquire || acquired == 0 then h' == h && buf == 0
            else buf != 0 && Served(h, h', buf, size - BH, SLACK, {})
  {
    hide Inv, AddPool, AddDirect, TakeBest, Best, SameBuffer, LivePooled, LiveDirect, Usable, PoolRegion,
         DirectRegion, FitsExpansion, Requested, AcquiredLegal, SameLive, Expand;
    if !h.ctl.acquire || acquired == 0 {
      ExpandNothing(h, size, acquired);
    } else {
      ExpandCases(h, size, acquired);
      if FitsExpansion(h, size) {
        var h1 := AddPool(h, acquired, h.ctl.expIncr);
        AddPoolKeeps(h, acquired, h.ctl.expIncr);
        AddPoolLive(h, acquired, h.ctl.expIncr);
        TakeBestServes(h1, size);
        var none: set<int> := {};
        ServedAfter(h, h1, TakeBest(h1, size).0, TakeBest(h1, size).1, size - BH, SLACK, none, none);
        assert none + none == none;

      } else {
        AddDirectLive(h, acquired, size + (BDH - BH));
        AcquiredPositive(h, acquired, size + (BDH - BH));
        assert {} + {acquired + BDH} == {acquired + BDH};
      }
    }
  }

  lemma ExpandNothing(h: Heap, size: int, acquired: int)
    requires !h.ctl.acquire || acquired == 0
    ensures Expand(h, size, acquired) == (h, 0)
  {
  }

  lemma AcquiredPositive(h: Heap, addr: int, size: int)
    requires DirectRegion(h, addr, size)
    ensures addr > 0
  {
  }

  lemma ServedAfter(h: Heap, h1: Heap, h2: Heap, buf: int, n: int, slack: int, gone: set<int>, gone': set<int>)
    requires SameLive(h, h1, gone) && Served(h1, h2, buf, n, slack, gone')
    ensures Served(h, h2, buf, n, slack, gone + gone')
  {
    hide LivePooled, LiveDirect, Usable;
    SameTrans(h, h1, h2, gone, gone' + {buf});
    assert gone + (gone' + {buf}) == gone + gone' + {buf};
    if buf !in gone { assert SameBuffer(h, h1, buf); }
  }

  /**
   The whole of `bget`, call-backs and all: either it returns null, or it returns a new
   buffer that is long enough and not much longer; the only other buffers that come or go are
   those the compaction function releases or is handed.
   */
  lemma {:induction false} GetServes(h: Heap, size: int, plan: seq<Answer>, acquired: int)
    requires Inv(h) && Requested(size) && GetLegal(h, size, plan, acquired)
    ensures var (h', buf) := Get(h, size, plan, acquired);
            && (buf != 0 ==> Served(h, h', buf, size - BH, SLACK, PlanTouched(h, size, plan, false)))
            && (buf == 0 ==> SameLive(h, h', PlanTouched(h, size, plan, false)))
    decreases plan, 0
  {
    hide Inv, TakeBest, Expand, Best, Run, RunLegal, RunTouched, AcquiredLegal, Served, SameLive, Get, GetLegal,
         PlanTouched, Requested;
    if Best(h, size) >= 0 {
      GetFits(h, size, plan, acquired);
      TakeBestServes(h, size);
    } else if h.ctl.compact && plan != [] {
      GetCompacts(h, size, plan, acquired);
      var h1, touched := Run(h, plan[0].calls), RunTouched(h, plan[0].calls, false);
      RunKeeps(h, plan[0].calls);
      RunLive(h, plan[0].calls);
      if plan[0].again {
        GetServes(h1, size, plan[1..], acquired);
        GoneBefore(h, h1, Get(h1, size, plan[1..], acquired), size - BH, touched,
                   PlanTouched(h1, size, plan[1..], false));
      } else {
        ExpandServes(h1, size, acquired);
        SameRefl(h1);
        GoneBefore(h, h1, Expand(h1, size, acquired), size - BH, touched, {});
      }
    } else {
      GetExpands(h, size, plan, acquired);
      ExpandServes(h, size, acquired);
      SameRefl(h);
    }
  }

  /** The same for the buffers, whether or not there is a new one. */
  lemma {:induction false} GetLive(h: Heap, size: int, plan: seq<Answer>, acquired: int)
    requires Inv(h) && Requested(size) && GetLegal(h, size, plan, acquired)
    ensures var (h', buf) := Get(h, size, plan, acquired);
            SameLive(h, h', PlanTouched(h, size, plan, false) + {buf})
    decreases plan, 1
  {
    hide Inv, Get, GetLegal, PlanTouched, Requested, SameLive;
    GetServes(h, size, plan, acquired);
    var (h', buf) := Get(h, size, plan, acquired);
    var touched := PlanTouched(h, size, plan, false);
    if buf == 0 { SameWiden(h, h', touched, touched + {buf}); }
  }

  /** When a reallocation has its new buffer, the old one is still there, and it is another. */
  lemma GetrServes(h: Heap, buf: int, request: int, plan: seq<Answer>, acquired: int)
    requires Inv(h) && Legal(h, CallGetr(buf, request, plan, acquired))
    requires buf != 0 && Get(h, Need(request), plan, acquired).1 != 0
    ensures var (h1, nbuf) := Get(h, Need(request), plan, acquired);
            && IsLive(h1, buf) && Usable(h1, buf) == Usable(h, buf)
            && nbuf != buf && IsLive(h1, nbuf) && request <= Usable(h1, nbuf)
  {
    hide Inv, Get, GetLegal, Need, PlanTouched, CanRelease, Requested, LivePooled, LiveDirect, Usable;
    NeedFits(request);
    GetServes(h, Need(request), plan, acquired);
    assert SameBuffer(h, Get(h, Need(request), plan, acquired).0, buf);
  }

  /** A call changes the liveness of no buffer but those it releases or hands out. */
  lemma {:induction false} DoLive(h: Heap, c: Call)
    requires Inv(h) && Legal(h, c)
    ensures SameLive(h, Do(h, c), Touched(h, c, false))
    decreases c
  {
    hide Inv, Get, GetLegal, Need, PlanTouched, Rel, AddPool, CanRelease, PoolRegion, Requested, IsLive, SameLive,
         Usable;
    match c
    case CallGet(r, plan, acquired, _) =>
      NeedFits(r);
      GetLive(h, Need(r), plan, acquired);
    case CallGetr(buf, r, plan, acquired) =>
      NeedFits(r);
      GetLive(h, Need(r), plan, acquired);
      var (h1, nbuf) := Get(h, Need(r), plan, acquired);
      var touched := PlanTouched(h, Need(r), plan, false) + {nbuf};
      if nbuf != 0 && buf != 0 {
        GetKeeps(h, Need(r), plan, acquired);
        ReleasableLive(h1, buf);
        RelLive(h1, buf);
        SameTrans(h, h1, Rel(h1, buf), touched, {buf});
      } else {
        SameWiden(h, h1, touched, Touched(h, c, false));
      }
    case CallRel(buf) =>
      ReleasableLive(h, buf);
      RelLive(h, buf);
    case CallPool(base, len) => AddPoolLive(h, base, len);
    case CallCtl(_, _, _, _) => CtlLive(h, Do(h, c));
    case CallWrite(_, _, _) => SameRefl(h);
  }

  lemma {:induction false} RunLive(h: Heap, calls: seq<Call>)
    requires Inv(h) && RunLegal(h, calls)
    ensures SameLive(h, Run(h, calls), RunTouched(h, calls, false))
    decreases calls
  {
    hide Inv, Do, Legal, Touched, SameLive;
    if calls == [] {
      SameRefl(h);
    } else {
      DoKeeps(h, calls[0]);
      DoLive(h, calls[0]);
      RunLive(Do(h, calls[0]), calls[1..]);
      SameTrans(h, Do(h, calls[0]), Run(h, calls), Touched(h, calls[0], false),
                RunTouched(Do(h, calls[0]), calls[1..], false));
    }
  }

  lemma CtlLive(h: Heap, h': Heap)
    requires h'.pools == h.pools && h'.direct == h.direct
    ensures SameLive(h, h', {})
  {
  }

  lemma SameWiden(h: Heap, h': Heap, but: set<int>, but': set<int>)
    requires SameLive(h, h', but) && but <= but'
    ensures SameLive(h, h', but')
  {
    hide SameBuffer;
  }

  lemma GoneBefore(h: Heap, h1: Heap, r: (Heap, int), n: int, gone: set<int>, gone': set<int>)
    requires SameLive(h, h1, gone)
    requires r.1 != 0 ==> Served(h1, r.0, r.1, n, SLACK, gone')
    requires r.1 == 0 ==> SameLive(h1, r.0, gone')
    ensures r.1 != 0 ==> Served(h, r.0, r.1, n, SLACK, gone + gone')
    ensures r.1 == 0 ==> SameLive(h, r.0, gone + gone')
  {
    hide SameLive, Served;
    if r.1 != 0 { ServedAfter(h, h1, r.0, r.1, n, SLACK, gone, gone'); } else { SameTrans(h, h1, r.0, gone, gone'); }
  }

  /** Bytes on the first `j` blocks of the free list. */
  function FreeSum(h: Heap, j: nat): int
    requires j <= |h.free|
  {
    if j == 0 then 0 else FreeSum(h, j - 1) + SizeAt(h.pools, h.free[j - 1])
  }

  /** `m` is the size of the largest of the first `j` blocks of the free list; -1 if there are none. */
  predicate Largest(h: Heap, j: nat, m: int)
    requires j <= |h.free|
  {
    && (m == -1 <==> j == 0)
    && (forall i :: 0 <= i < j ==> SizeAt(h.pools, h.free[i]) <= m)
    && (j > 0 ==> exists i :: 0 <= i < j && SizeAt(h.pools, h.free[i]) == m)
  }

  lemma LargestStep(h: Heap, j: nat, m: int)
    requires j < |h.free| && Largest(h, j, m) && SizeAt(h.pools, h.free[j]) > 0
    ensures Largest(h, j + 1, if SizeAt(h.pools, h.free[j]) > m then SizeAt(h.pools, h.free[j]) else m)
  {
    hide SizeAt;
    var n := SizeAt(h.pools, h.free[j]);
    if n <= m {
      var i :| 0 <= i < j && SizeAt(h.pools, h.free[i]) == m;
      assert 0 <= i < j + 1;
    }
  }

  lemma NothingSeen(h: Heap)
    ensures FreeSum(h, 0) == 0 && Largest(h, 0, -1)
  {
  }

  lemma FreeSumStep(h: Heap, j: nat)
    requires j < |h.free|
    ensures FreeSum(h, j + 1) == FreeSum(h, j) + SizeAt(h.pools, h.free[j])
  {
  }
}
