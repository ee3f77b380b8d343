/** The allocator seen by its clients: a map from live buffers to their usable sizes. */
module Refinement {
  import opened Blocks
  import opened Pools
  import opened Heap
  import opened HeapFacts
  import opened Live
  import opened Fit
  import opened Serve
  import opened Runs

  ghost function LiveSet(h: Heap): set<int> {
    (set a | a in All(h.pools) && All(h.pools)[a].Used? :: a + BH) + (set d | d in h.direct :: d.addr + BDH)
  }

  /** Every live buffer with the number of bytes its owner may use. */
  ghost function LiveMap(h: Heap): map<int, int> {
    map b | b in LiveSet(h) :: Usable(h, b)
  }

  lemma LiveSetIs(h: Heap, b: int)
    ensures b in LiveSet(h) <==> IsLive(h, b)
  {
    hide All, Usable;
    var j := DirectOf(h.direct, b - BDH);
    if b in (set d | d in h.direct :: d.addr + BDH) {
      var d :| d in h.direct && b == d.addr + BDH;
      var i :| 0 <= i < |h.direct| && h.direct[i] == d;
      assert h.direct[i].addr == b - BDH;
    }
    if j < |h.direct| {
      assert h.direct[j] in h.direct;
    }
    if LivePooled(h, b) {
      assert b == (b - BH) + BH;
    }
  }

  /** Two heaps that agree outside `but`, as maps. */
  lemma SameMap(h: Heap, h': Heap, but: set<int>)
    requires SameLive(h, h', but)
    requires forall b :: b in but ==> !IsLive(h', b)
    ensures LiveMap(h') == LiveMap(h) - but
  {
    hide IsLive, Usable, LiveSet;
    forall b
      ensures b in LiveSet(h') <==> b in LiveSet(h) && b !in but
      ensures b !in but ==> Usable(h', b) == Usable(h, b)
    {
      LiveSetIs(h, b);
      LiveSetIs(h', b);
      if b !in but { SameLives(h, h', b); }
    }
  }

  lemma SameLives(h: Heap, h': Heap, b: int)
    requires SameBuffer(h, h', b)
    ensures (IsLive(h', b) <==> IsLive(h, b)) && Usable(h', b) == Usable(h, b)
  {
  }

  /** `brel` takes one buffer out of the map and changes nothing else. */
  lemma RelMap(h: Heap, buf: int)
    requires Inv(h) && IsLive(h, buf)
    ensures LiveMap(Rel(h, buf)) == LiveMap(h) - {buf}
  {
    hide Inv, IsLive, Rel, SameLive;
    RelLive(h, buf);
    SameMap(h, Rel(h, buf), {buf});
  }

  /** New pools, new call-backs and what clients write are no part of the map. */
  lemma QuietMap(h: Heap, c: Call)
    requires Inv(h) && Legal(h, c) && (c.CallPool? || c.CallCtl? || c.CallWrite?)
    ensures LiveMap(Do(h, c)) == LiveMap(h)
  {
    hide Inv, Do, Legal, IsLive, SameLive;
    DoLive(h, c);
    assert Touched(h, c, false) == {};
    SameMap(h, Do(h, c), {});
    assert LiveMap(h) - {} == LiveMap(h);
  }

  /** The heap when `bget` stops compacting. */
  function Compacted(h: Heap, size: int, plan: seq<Answer>): Heap
    decreases |plan|
  {
    if Best(h, size) >= 0 || !h.ctl.compact || plan == [] then h
    else
      var h1 := Run(h, plan[0].calls);
      if plan[0].again then Compacted(h1, size, plan[1..]) else h1
  }

  /** What happens after that: the best block is taken, or the reserve supply is tried. */
  lemma {:induction false} AfterCompaction(h: Heap, size: int, plan: seq<Answer>, acquired: int)
    requires Inv(h) && Requested(size) && GetLegal(h, size, plan, acquired)
    ensures var h1 := Compacted(h, size, plan);
            && Inv(h1) && SameLive(h, h1, PlanTouched(h, size, plan, false))
            && ((Best(h1, size) >= 0 && Get(h, size, plan, acquired) == TakeBest(h1, size))
                || (AcquiredLegal(h1, size, acquired) && Get(h, size, plan, acquired) == Expand(h1, size, acquired)))
    decreases |plan|
  {
    hide Inv, TakeBest, Expand, Best, Run, RunLegal, RunTouched, AcquiredLegal, SameLive, Get, GetLegal, PlanTouched,
         Requested;
    if Best(h, size) >= 0 {
      GetFits(h, size, plan, acquired);
      SameRefl(h);
    } else if h.ctl.compact && plan != [] {
      GetCompacts(h, size, plan, acquired);
      var h1, touched := Run(h, plan[0].calls), RunTouched(h, plan[0].calls, false);
      RunKeeps(h, plan[0].calls);
      RunLive(h, plan[0].calls);
      if plan[0].again {
        AfterCompaction(h1, size, plan[1..], acquired);
        SameTrans(h, h1, Compacted(h1, size, plan[1..]), touched, PlanTouched(h1, size, plan[1..], false));
      } else {
        assert touched + {} == touched;
      }
    } else {
      GetExpands(h, size, plan, acquired);
      SameRefl(h);
    }
  }

  /**
   `bget` as a step of the map: compaction changes only buffers that the compaction function
   releases or is handed; after it, unless the answer is null, one new buffer comes, long enough
   and at most `SLACK` longer than the rounded request, and nothing else changes.
   */
  lemma GetMap(h: Heap, request: int, plan: seq<Answer>, acquired: int)
    requires Inv(h) && Requestable(request) && GetLegal(h, Need(request), plan, acquired)
    ensures var (h', buf) := Get(h, Need(request), plan, acquired); var h1 := Compacted(h, Need(request), plan);
            && LiveMap(h1) - PlanTouched(h, Need(request), plan, false)
               == LiveMap(h) - PlanTouched(h, Need(request), plan, false)
            && if buf == 0 then LiveMap(h') == LiveMap(h1)
               else
                 && buf !in LiveMap(h1)
                 && request <= Usable(h', buf)
                 && Usable(h', buf) <= (if request < SIZEQ then SIZEQ else request) + (QUANT - 1) + SIZEQ + BH
                 && LiveMap(h') == LiveMap(h1)[buf := Usable(h', buf)]
  {
    hide Inv, Get, GetLegal, Need, IsLive, SameLive, LiveSet, Usable, PlanTouched, Requested, Compacted, TakeBest,
         Expand, AcquiredLegal, Best;
    NeedFits(request);
    var size := Need(request);
    var (h', buf) := Get(h, size, plan, acquired);
    var h1 := Compacted(h, size, plan);
    AfterCompaction(h, size, plan, acquired);
    SameOutside(h, h1, PlanTouched(h, size, plan, false));
    TakeBestServes(h1, size);
    if AcquiredLegal(h1, size, acquired) { ExpandServes(h1, size, acquired); }
    if buf != 0 { OneMore(h1, h', buf); }
  }

  lemma SameOutside(h: Heap, h': Heap, but: set<int>)
    requires SameLive(h, h', but)
    ensures LiveMap(h') - but == LiveMap(h) - but
  {
    hide IsLive, Usable, LiveSet;
    forall b | b !in but
      ensures b in LiveSet(h') <==> b in LiveSet(h)
      ensures Usable(h', b) == Usable(h, b)
    {
      LiveSetIs(h, b);
      LiveSetIs(h', b);
      SameLives(h, h', b);
    }
  }

  lemma OneMore(h: Heap, h': Heap, buf: int)
    requires SameLive(h, h', {} + {buf}) && IsLive(h', buf) && !IsLive(h, buf)
    ensures LiveMap(h') == LiveMap(h)[buf := Usable(h', buf)] && buf !in LiveMap(h)
  {
    hide IsLive, Usable, LiveSet;
    var l, r := LiveMap(h'), LiveMap(h)[buf := Usable(h', buf)];
    forall b
      ensures b in l <==> b in r
      ensures b in l ==> l[b] == r[b]
    {
      LiveSetIs(h, b);
      LiveSetIs(h', b);
      if b != buf { SameLives(h, h', b); }
    }
    LiveSetIs(h, buf);
  }

  // ----- best fit, and when the answer is null

  /** The heap on which the scan that finds a block runs: after compaction, or with an expansion block added. */
  function Scanned(h: Heap, size: int, plan: seq<Answer>, acquired: int): Heap
    decreases |plan|
  {
    if Best(h, size) >= 0 then h
    else if h.ctl.compact && plan != [] then
      var h1 := Run(h, plan[0].calls);
      if plan[0].again then Scanned(h1, size, plan[1..], acquired) else AddPool(h1, acquired, h1.ctl.expIncr)
    else AddPool(h, acquired, h.ctl.expIncr)
  }

  /**
   Every answer from the pools, whatever call-backs have run before, is carved from the first of
   the smallest free blocks that hold it; if one fits at once, no call-back has run.
   */
  lemma {:induction false} ServedByBest(h: Heap, size: int, plan: seq<Answer>, acquired: int)
    requires Inv(h) && Requested(size) && GetLegal(h, size, plan, acquired)
    requires var (h', buf) := Get(h, size, plan, acquired); buf != 0 && LivePooled(h', buf)
    ensures var g := Scanned(h, size, plan, acquired);
            && Inv(g) && Best(g, size) >= 0 && FirstSmallest(g, size, |g.free|, Best(g, size))
            && Get(h, size, plan, acquired) == Carve(g, g.free[Best(g, size)], size)
    ensures (exists f :: FreeAt(h.pools, f) && SizeAt(h.pools, f) >= size) ==> Scanned(h, size, plan, acquired) == h
    decreases |plan|
  {
    hide Inv, TakeBest, Expand, Best, Run, RunLegal, RunTouched, AcquiredLegal, Get, GetLegal, PlanTouched, Requested,
         LivePooled, Carve, FreeAt, SizeAt, AddPool, FirstSmallest;
    FitOf(h, size);
    if Best(h, size) >= 0 {
      GetFits(h, size, plan, acquired);
      TakenIsBest(h, size);
    } else if h.ctl.compact && plan != [] {
      GetCompacts(h, size, plan, acquired);
      RunKeeps(h, plan[0].calls);
      if plan[0].again {
        ServedByBest(Run(h, plan[0].calls), size, plan[1..], acquired);
      } else {
        ExpandedByBest(Run(h, plan[0].calls), size, acquired);
      }
    } else {
      GetExpands(h, size, plan, acquired);
      ExpandedByBest(h, size, acquired);
    }
  }

  lemma TakenIsBest(h: Heap, size: int)
    requires Best(h, size) >= 0
    ensures FirstSmallest(h, size, |h.free|, Best(h, size))
    ensures TakeBest(h, size) == Carve(h, h.free[Best(h, size)], size)
  {
    hide Carve, SizeAt, BestUpTo, FirstSmallest;
    BestIsFirstSmallest(h, size, |h.free|);
  }

  lemma ExpandedByBest(h: Heap, size: int, acquired: int)
    requires Inv(h) && Requested(size) && AcquiredLegal(h, size, acquired)
    requires var (h', buf) := Expand(h, size, acquired); buf != 0 && LivePooled(h', buf)
    ensures var g := AddPool(h, acquired, h.ctl.expIncr);
            && Inv(g) && Best(g, size) >= 0 && FirstSmallest(g, size, |g.free|, Best(g, size))
            && Expand(h, size, acquired) == Carve(g, g.free[Best(g, size)], size)
  {
    hide Inv, TakeBest, Best, AcquiredLegal, Requested, LivePooled, Carve, AddPool, AddDirect, FirstSmallest,
         FitsExpansion, DirectRegion, PoolRegion, Expand;
    if !h.ctl.acquire || acquired == 0 { ExpandNothing(h, size, acquired); }
    ExpandCases(h, size, acquired);
    if FitsExpansion(h, size) {
      AddPoolKeeps(h, acquired, h.ctl.expIncr);
      TakenIsBest(AddPool(h, acquired, h.ctl.expIncr), size);
    } else {
      NeverPooled(h, acquired, size + (BDH - BH));
    }
  }

  lemma NeverPooled(h: Heap, addr: int, size: int)
    requires Inv(h) && DirectRegion(h, addr, size)
    ensures !LivePooled(AddDirect(h, addr, size), addr + BDH)
  {
    hide All, DirectRegion, Listed, LengthsAgree, Counted, Usable;
    AddDirectLive(h, addr, size);
    AddDirectKeeps(h, addr, size);
    if LivePooled(AddDirect(h, addr, size), addr + BDH) {
      OneKind(AddDirect(h, addr, size), addr + BDH - BH);
    }
  }

  /** Without compaction and acquisition the answer is null if and only if no free block is large enough. */
  lemma NullIffNoFit(h: Heap, request: int, plan: seq<Answer>, acquired: int)
    requires Inv(h) && Requestable(request) && !h.ctl.compact && !h.ctl.acquire
    ensures var (h', buf) := Get(h, Need(request), plan, acquired);
            && (buf == 0 <==> forall f :: FreeAt(h.pools, f) ==> SizeAt(h.pools, f) < Need(request))
            && (buf == 0 ==> h' == h)
  {
    hide Inv, FreeAt, SizeAt, Best, Need, TakeBest, Requested, Served;
    NeedFits(request);
    FitOf(h, Need(request));
    TakeBestServes(h, Need(request));
  }

  lemma FitOf(h: Heap, size: int)
    requires Inv(h)
    ensures Best(h, size) >= 0 <==> exists f :: FreeAt(h.pools, f) && SizeAt(h.pools, f) >= size
  {
    hide FreeAt, SizeAt, Best, Placed, LengthsAgree, Counted;
    FitExists(h, size);
  }

  // ----- runs

  /** A buffer that is neither released nor handed out stays as it is, live or not, through any run. */
  lemma BufferSurvives(h: Heap, calls: seq<Call>, b: int)
    requires Inv(h) && RunLegal(h, calls) && b !in RunTouched(h, calls, false)
    ensures (IsLive(Run(h, calls), b) <==> IsLive(h, b)) && Usable(Run(h, calls), b) == Usable(h, b)
  {
    hide Inv, Run, RunLegal, RunTouched, IsLive, Usable;
    RunLive(h, calls);
    SameLives(h, Run(h, calls), b);
  }
}
