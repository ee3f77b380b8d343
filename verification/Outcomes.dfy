/** What each call comes to, in sizes, addresses and counts written out. */
module Outcomes {
  import opened Blocks
  import opened Pools
  import opened Heap
  import opened Tallies
  import opened HeapFacts
  import opened Live
  import opened Fit
  import opened Runs
  import opened Serve
  import opened Joins
  import opened Refinement
  import opened Client

  // ----- the order of the list

  /** One occurrence of `x` is taken out, and the others stay in order. */
  ghost predicate Without(s: seq<int>, x: int, s': seq<int>) {
    exists j :: 0 <= j < |s| && s[j] == x && s' == s[..j] + s[j + 1..]
  }

  lemma RemovedFrom(s: seq<int>, x: int)
    requires Distinct(s) && x in s
    ensures Without(s, x, Remove(s, x))
  {
    var j :| 0 <= j < |s| && s[j] == x;
    RemoveAt(s, j);
  }

  /**
   Blocks keep their places in the list.  A released block with no free block before it goes to
   the tail, one with a free block before it takes that block's place, and a free block after it
   leaves.
   */
  lemma ReleaseOrder(h: Heap, a: int)
    requires Inv(h) && UsedAt(h.pools, a)
    ensures var free := JoinBlock(h, a).free; var next := a + SizeAt(h.pools, a);
            && (!LeftFree(h, a) && !RightFree(h, a) ==> free == h.free + [a])
            && (LeftFree(h, a) && !RightFree(h, a) ==> free == h.free)
            && (!LeftFree(h, a) && RightFree(h, a) ==> Without(h.free + [a], next, free))
            && (LeftFree(h, a) && RightFree(h, a) ==> Without(h.free, next, free))
  {
    hide All, Remove, Placed, RunSize, LeftFree, RightFree, RunStart, JoinBlock, LengthsAgree, Counted, Without;
    JoinedList(h, a);
    if RightFree(h, a) {
      ReleaseJoins(h, a);
      if !LeftFree(h, a) { AppendDistinct(h.free, a); }
      RemovedFrom(LeftList(h, a), a + SizeAt(h.pools, a));
    }
  }

  // ----- when a block is split

  /**
   A block is split exactly when more than 16 bytes, a header and the smallest buffer, are left over.
   Then the rest stays free where it is; otherwise the whole block is handed out and leaves the list.
   */
  ghost predicate CarvedFrom(h: Heap, f: int, size: int, h': Heap, buf: int) {
    var n := SizeAt(h.pools, f);
    && (FreeAt(h'.pools, f) <==> n - size > 16)
    && (n - size > 16 ==>
          && buf == f + (n - size) + 8 && Usable(h', buf) == size - 8
          && SizeAt(h'.pools, f) == n - size && h'.free == h.free)
    && (n - size <= 16 ==>
          buf == f + 8 && Usable(h', buf) == n - 8 && Without(h.free, f, h'.free))
  }

  lemma SplitExactly(h: Heap, f: int, size: int)
    requires Inv(h) && Carvable(h, f, size)
    ensures var (h', buf) := Carve(h, f, size); CarvedFrom(h, f, size, h', buf)
  {
    hide All, PoolOf, BlockOf, Layout, Sum, WellFormed, Remove, Counted, LengthsAgree, Placed, Usable, Without;
    CarveAll(h, f, size);
    CarveLive(h, f, size);
    CarveKeeps(h, f, size);
    RemovedFrom(h.free, f);
  }

  /** The same for every answer that `bget` serves from a pool. */
  lemma ServedExactly(h: Heap, size: int, plan: seq<Answer>, acquired: int)
    requires Inv(h) && Requested(size) && GetLegal(h, size, plan, acquired)
    requires var (h', buf) := Get(h, size, plan, acquired); buf != 0 && LivePooled(h', buf)
    ensures var (h', buf) := Get(h, size, plan, acquired); var g := Scanned(h, size, plan, acquired);
            && FirstSmallest(g, size, |g.free|, Best(g, size)) && Best(g, size) >= 0
            && CarvedFrom(g, g.free[Best(g, size)], size, h', buf)
  {
    hide Inv, Get, GetLegal, Best, Requested, LivePooled, Carvable, Carve, CarvedFrom, FirstSmallest, Scanned;
    ServedByBest(h, size, plan, acquired);
    var g := Scanned(h, size, plan, acquired);
    BestCarvable(g, size);
    SplitExactly(g, g.free[Best(g, size)], size);
  }

  // ----- how long compaction goes on

  /** The heap after these answers of the compaction function. */
  function After(h: Heap, answers: seq<Answer>): Heap
    decreases |answers|
  {
    if answers == [] then h else After(Run(h, answers[0].calls), answers[1..])
  }

  /** The compaction function is called `n` times: while nothing fits, it is set, and it has not given up. */
  ghost predicate Rounds(h: Heap, size: int, plan: seq<Answer>, n: nat) {
    && n <= |plan|
    && (forall i :: 0 <= i < n ==> Calls(After(h, plan[..i]), size))
    && (forall i :: 0 <= i < n - 1 ==> plan[i].again)
    && (n == |plan| || (n > 0 && !plan[n - 1].again) || !Calls(After(h, plan[..n]), size))
  }

  predicate Calls(h: Heap, size: int) {
    Best(h, size) < 0 && h.ctl.compact
  }

  lemma {:induction false} CompactsUntil(h: Heap, size: int, plan: seq<Answer>) returns (n: nat)
    ensures Rounds(h, size, plan, n) && Compacted(h, size, plan) == After(h, plan[..n])
    decreases |plan|
  {
    hide Best, Run;
    if !Calls(h, size) || plan == [] {
      n := 0;
      assert plan[..0] == [];
    } else if plan[0].again {
      var rest, h1 := plan[1..], Run(h, plan[0].calls);
      var n' := CompactsUntil(h1, size, rest);
      n := n' + 1;
      forall i | 1 <= i <= n ensures After(h, plan[..i]) == After(h1, rest[..i - 1]) {
        assert plan[..i][0] == plan[0] && plan[..i][1..] == rest[..i - 1];
      }
      forall i | 0 <= i < n ensures Calls(After(h, plan[..i]), size) {
        if i > 0 { assert Calls(After(h1, rest[..i - 1]), size); }
      }
      assert forall i :: 1 <= i < |plan| ==> plan[i] == rest[i - 1];
    } else {
      n := 1;
      assert plan[..1] == [plan[0]] && plan[..0] == [];
      assert [plan[0]][1..] == [];
    }
  }

  // ----- where an answer comes from

  /** No scan of the list finds a block, before or after compaction. */
  predicate Exhausted(h: Heap, size: int, plan: seq<Answer>)
    decreases |plan|
  {
    && Best(h, size) < 0
    && (h.ctl.compact && plan != [] && plan[0].again ==> Exhausted(Run(h, plan[0].calls), size, plan[1..]))
  }

  lemma {:induction false} ExhaustedSplits(h: Heap, size: int, plan: seq<Answer>, acquired: int)
    requires GetLegal(h, size, plan, acquired)
    ensures var h1 := Compacted(h, size, plan);
            if Exhausted(h, size, plan)
            then Get(h, size, plan, acquired) == Expand(h1, size, acquired) && AcquiredLegal(h1, size, acquired)
            else Get(h, size, plan, acquired) == TakeBest(h1, size) && Best(h1, size) >= 0
    ensures Best(Compacted(h, size, plan), size) < 0 ==> Exhausted(h, size, plan)
    decreases |plan|
  {
    hide TakeBest, Expand, Best, Run, RunLegal, RunTouched, AcquiredLegal, Get, GetLegal, PlanTouched;
    if Best(h, size) >= 0 {
      GetFits(h, size, plan, acquired);
    } else if h.ctl.compact && plan != [] {
      GetCompacts(h, size, plan, acquired);
      if plan[0].again { ExhaustedSplits(Run(h, plan[0].calls), size, plan[1..], acquired); }
    } else {
      GetExpands(h, size, plan, acquired);
    }
  }

  /**
   Where the answer comes from.  If a scan finds a block, from the pools as they are.  If none does,
   null unless the acquisition function supplies storage; then from a new pool if the block, header
   included, is no longer than the increment less the 8 bytes of the sentinel, and otherwise
   straight from that storage, with 4 bytes more recorded for the longer header.
   */
  lemma GetOutcome(h: Heap, request: int, plan: seq<Answer>, acquired: int)
    requires Inv(h) && Requestable(request) && GetLegal(h, Need(request), plan, acquired)
    ensures var (h', buf) := Get(h, Need(request), plan, acquired); var h1 := Compacted(h, Need(request), plan);
            if !Exhausted(h, Need(request), plan) then
              buf != 0 && LivePooled(h', buf) && |h'.pools| == |h1.pools| && h'.direct == h1.direct
            else if !h1.ctl.acquire || acquired == 0 then
              buf == 0 && h' == h1
            else if Need(request) <= h1.ctl.expIncr - 8 then
              && buf != 0 && LivePooled(h', buf) && h'.direct == h1.direct
              && |h'.pools| == |h1.pools| + 1 && h'.pools[|h1.pools|].base == acquired
              && h'.pools[|h1.pools|].Len() == h1.ctl.expIncr - h1.ctl.expIncr % 4
            else
              && buf == acquired + 12 && LiveDirect(h', buf) && !LivePooled(h', buf)
              && h'.pools == h1.pools && h'.direct == h1.direct + [Direct(acquired, Need(request) + 4)]
  {
    hide Inv, Get, GetLegal, Need, LivePooled, LiveDirect, Requested, Compacted, Exhausted, TakeBest, Expand, Best,
         AcquiredLegal, PlanTouched;
    NeedFits(request);
    var h1 := Compacted(h, Need(request), plan);
    AfterCompaction(h, Need(request), plan, acquired);
    ExhaustedSplits(h, Need(request), plan, acquired);
    if Exhausted(h, Need(request), plan) {
      ExpandOutcome(h1, Need(request), acquired);
    } else {
      TakeOutcome(h1, Need(request));
    }
  }

  lemma TakeOutcome(h: Heap, size: int)
    requires Inv(h) && Requested(size) && Best(h, size) >= 0
    ensures var (h', buf) := TakeBest(h, size);
            && buf != 0 && LivePooled(h', buf) && |h'.pools| == |h.pools| && h'.direct == h.direct
            && forall k :: 0 <= k < |h.pools| ==>
                 h'.pools[k].base == h.pools[k].base && h'.pools[k].Len() == h.pools[k].Len()
  {
    hide Inv, Best, Carve, Carvable, LivePooled, Served, Requested;
    TakeBestServes(h, size);
    BestCarvable(h, size);
    CarvePools(h, h.free[Best(h, size)], size);
  }

  lemma CarvePools(h: Heap, f: int, size: int)
    requires Carvable(h, f, size)
    ensures var h' := Carve(h, f, size).0;
            && |h'.pools| == |h.pools| && h'.direct == h.direct
            && forall k :: 0 <= k < |h.pools| ==>
                 h'.pools[k].base == h.pools[k].base && h'.pools[k].Len() == h.pools[k].Len()
  {
    hide All, PoolOf, BlockOf, Layout, Sum, WellFormed, Remove, Counted, LengthsAgree, Listed;
    CarveSplices(h, f, size);
    SplicePlaced(h, Carve(h, f, size).0, PoolOf(h.pools, f), BlockOf(h.pools, f), BlockOf(h.pools, f) + 1,
                 CarveRun(h, f, size));
    SpliceArranged(h.pools, h.limit, PoolOf(h.pools, f), BlockOf(h.pools, f), BlockOf(h.pools, f) + 1,
                   CarveRun(h, f, size));
  }

  lemma ExpandOutcome(h: Heap, size: int, acquired: int)
    requires Inv(h) && Requested(size) && AcquiredLegal(h, size, acquired)
    ensures var (h', buf) := Expand(h, size, acquired);
            if !h.ctl.acquire || acquired == 0 then
              buf == 0 && h' == h
            else if size <= h.ctl.expIncr - 8 then
              && buf != 0 && LivePooled(h', buf) && h'.direct == h.direct
              && |h'.pools| == |h.pools| + 1 && h'.pools[|h.pools|].base == acquired
              && h'.pools[|h.pools|].Len() == h.ctl.expIncr - h.ctl.expIncr % 4
            else
              && buf == acquired + 12 && LiveDirect(h', buf) && !LivePooled(h', buf)
              && h'.pools == h.pools && h'.direct == h.direct + [Direct(acquired, size + 4)]
  {
    hide Inv, TakeBest, Best, AcquiredLegal, Requested, LivePooled, LiveDirect, AddPool, AddDirect, DirectRegion,
         PoolRegion, Expand, Usable;
    if !h.ctl.acquire || acquired == 0 {
      ExpandNothing(h, size, acquired);
    } else {
      ExpandCases(h, size, acquired);
      if size <= h.ctl.expIncr - 8 {
        AddPoolKeeps(h, acquired, h.ctl.expIncr);
        TakeOutcome(AddPool(h, acquired, h.ctl.expIncr), size);
        PoolAdded(h, acquired, h.ctl.expIncr);
      } else {
        NeverPooled(h, acquired, size + (BDH - BH));
        AddDirectLive(h, acquired, size + (BDH - BH));
        DirectAdded(h, acquired, size + (BDH - BH));
      }
    }
  }

  /** A new pool comes last, as one free block at the end of the list, and no longer than its region. */
  lemma PoolAdded(h: Heap, base: int, len: int)
    ensures var h' := AddPool(h, base, len); var k := |h.pools|;
            && |h'.pools| == k + 1 && h'.pools[..k] == h.pools && h'.direct == h.direct
            && h'.pools[k].base == base && h'.pools[k].Len() == len - len % 4 <= len < h'.pools[k].Len() + 4
            && h'.pools[k].blocks == [Free(len - len % 4 - 8), Sentinel]
            && h'.free == h.free + [base]
  {
    SumOfTwo(Free(len - len % 4 - 8), Sentinel);
  }

  lemma DirectAdded(h: Heap, addr: int, size: int)
    ensures AddDirect(h, addr, size).pools == h.pools
    ensures AddDirect(h, addr, size).direct == h.direct + [Direct(addr, size)]
  {
  }

  // ----- what each call does to the map

  /** A reallocation puts the new buffer in the map and takes the old one out. */
  lemma GetrMap(h: Heap, buf: int, request: int, plan: seq<Answer>, acquired: int)
    requires Inv(h) && Legal(h, CallGetr(buf, request, plan, acquired))
    ensures var (h1, nbuf) := Get(h, Need(request), plan, acquired); var g := Compacted(h, Need(request), plan);
            var h' := Do(h, CallGetr(buf, request, plan, acquired));
            if nbuf == 0 then LiveMap(h') == LiveMap(g)
            else
              && request <= Usable(h1, nbuf) && nbuf !in LiveMap(g)
              && LiveMap(h') == LiveMap(g)[nbuf := Usable(h1, nbuf)] - (if buf == 0 then {} else {buf})
              && (buf != 0 ==> buf in LiveMap(g) && !IsLive(h', buf) && IsLive(h', nbuf))
  {
    hide Inv, Get, GetLegal, Need, PlanTouched, CanRelease, Rel, IsLive, Usable, LiveMap, Compacted;
    GetMap(h, request, plan, acquired);
    var (h1, nbuf) := Get(h, Need(request), plan, acquired);
    var g := Compacted(h, Need(request), plan);
    if nbuf != 0 {
      if buf == 0 {
        assert LiveMap(h1) - {} == LiveMap(h1);
      } else {
        NeedFits(request);
        GetKeeps(h, Need(request), plan, acquired);
        GetrServes(h, buf, request, plan, acquired);
        RelMap(h1, buf);
        InMap(h1, buf);
        InMap(h1, nbuf);
        InMap(Rel(h1, buf), buf);
        InMap(Rel(h1, buf), nbuf);
      }
    }
  }

  lemma GetrReleases(h: Heap, buf: int, request: int, plan: seq<Answer>, acquired: int)
    requires Inv(h) && Legal(h, CallGetr(buf, request, plan, acquired))
    ensures buf != 0 && Get(h, Need(request), plan, acquired).1 != 0 ==>
              !IsLive(Do(h, CallGetr(buf, request, plan, acquired)), buf)
  {
    hide Inv, Legal, IsLive, Usable, LiveMap, Compacted, Do, Get, Need;
    GetrMap(h, buf, request, plan, acquired);
  }

  lemma Released(h: Heap, buf: int)
    requires Inv(h) && CanRelease(h, buf)
    ensures !IsLive(Rel(h, buf), buf)
  {
    hide Inv, IsLive, Rel, LiveMap, CanRelease;
    ReleasableLive(h, buf);
    RelMap(h, buf);
    InMap(Rel(h, buf), buf);
  }

  /** What the reserve supply hands out was nobody's. */
  lemma ExpandFresh(h: Heap, size: int, acquired: int)
    requires Inv(h) && Requested(size) && AcquiredLegal(h, size, acquired)
    ensures !IsLive(h, Expand(h, size, acquired).1)
  {
    hide Inv, IsLive, Expand, AcquiredLegal, Requested, Usable, SameLive, Placed;
    ExpandServes(h, size, acquired);
    InvParts(h);
    if IsLive(h, 0) { LiveBounds(h, 0); }
  }

  lemma InMap(h: Heap, b: int)
    ensures b in LiveMap(h) <==> IsLive(h, b)
  {
    hide IsLive, Usable, LiveSet;
    LiveSetIs(h, b);
  }

  /** The calls that do not allocate. */
  lemma DoMap(h: Heap, c: Call)
    requires Inv(h) && Legal(h, c)
    ensures c.CallRel? ==> LiveMap(Do(h, c)) == LiveMap(h) - {c.buf} && !IsLive(Do(h, c), c.buf)
    ensures c.CallPool? ==> var h' := Do(h, c);
              && LiveMap(h') == LiveMap(h) && |h'.pools| == |h.pools| + 1 && h'.pools[|h.pools|].base == c.base
              && h'.pools[|h.pools|].blocks == [Free(c.len - c.len % 4 - 8), Sentinel]
    ensures c.CallCtl? ==> var h' := Do(h, c);
              && LiveMap(h') == LiveMap(h) && h'.pools == h.pools && h'.free == h.free && h'.stats == h.stats
              && h'.ctl.compact == c.compact && h'.ctl.acquire == c.acquire && h'.ctl.release == c.release
              && h'.ctl.expIncr == c.poolIncr && h'.ctl.poolLen == h.ctl.poolLen
    ensures c.CallWrite? ==> Do(h, c) == h
  {
    hide Inv, LiveMap, IsLive, AddPool, Rel, CanRelease, PoolRegion, Usable, Get, GetLegal, PlanTouched;
    if c.CallRel? {
      ReleasableLive(h, c.buf);
      RelMap(h, c.buf);
      Released(h, c.buf);
    } else if c.CallPool? {
      QuietMap(h, c);
      PoolAdded(h, c.base, c.len);
    } else if c.CallCtl? {
      QuietMap(h, c);
    }
  }

  // ----- the counters

  /** Bytes of the block behind a buffer: its usable ones and its header. */
  function Footprint(h: Heap, buf: int): int {
    Usable(h, buf) + (if LivePooled(h, buf) then 8 else 12)
  }

  /** Every allocation that succeeds, and no other, is one more get, and its block counts as allocated. */
  lemma GetCounters(h: Heap, request: int, plan: seq<Answer>, acquired: int)
    requires Inv(h) && Requestable(request) && GetLegal(h, Need(request), plan, acquired)
    ensures var (h', buf) := Get(h, Need(request), plan, acquired);
            var s, s' := Compacted(h, Need(request), plan).stats, h'.stats;
            && s'.numget == s.numget + (if buf != 0 then 1 else 0) && s'.numrel == s.numrel
            && s'.totalloc == s.totalloc + (if buf != 0 then Footprint(h', buf) else 0)
            && s'.numpget - s.numpget == |h'.pools| - |Compacted(h, Need(request), plan).pools|
            && s'.numprel == s.numprel
            && s'.numdget == s.numdget + (if buf != 0 && !LivePooled(h', buf) then 1 else 0) && s'.numdrel == s.numdrel
  {
    hide Inv, Get, GetLegal, Need, LivePooled, LiveDirect, Usable, Requested, Compacted, Exhausted, TakeBest, Expand,
         Best, AcquiredLegal, PlanTouched, Footprint;
    NeedFits(request);
    var h1 := Compacted(h, Need(request), plan);
    AfterCompaction(h, Need(request), plan, acquired);
    ExhaustedSplits(h, Need(request), plan, acquired);
    if Exhausted(h, Need(request), plan) {
      ExpandCounters(h1, Need(request), acquired);
    } else {
      TakeCounters(h1, Need(request));
    }
  }

  lemma TakeCounters(h: Heap, size: int)
    requires Inv(h) && Requested(size) && Best(h, size) >= 0
    ensures var (h', buf) := TakeBest(h, size);
            && buf != 0 && LivePooled(h', buf) && |h'.pools| == |h.pools|
            && h'.stats == h.stats.(numget := h.stats.numget + 1, totalloc := h.stats.totalloc + Footprint(h', buf))
  {
    hide Inv, Best, Carve, Carvable, LivePooled, Served, Requested, Usable, Footprint;
    TakeOutcome(h, size);
    BestCarvable(h, size);
    CarveCounters(h, h.free[Best(h, size)], size);
  }

  lemma CarveCounters(h: Heap, f: int, size: int)
    requires Inv(h) && Carvable(h, f, size)
    ensures var (h', buf) := Carve(h, f, size);
            h'.stats == h.stats.(numget := h.stats.numget + 1, totalloc := h.stats.totalloc + Footprint(h', buf))
  {
    hide Inv, Carvable, LivePooled, Usable, SizeAt, PoolOf, BlockOf, SplicePools, Remove, SameLive;
    CarveLive(h, f, size);
  }

  lemma ExpandCounters(h: Heap, size: int, acquired: int)
    requires Inv(h) && Requested(size) && AcquiredLegal(h, size, acquired)
    ensures var (h', buf) := Expand(h, size, acquired); var s, s' := h.stats, h'.stats;
            && s'.numget == s.numget + (if buf != 0 then 1 else 0) && s'.numrel == s.numrel
            && s'.totalloc == s.totalloc + (if buf != 0 then Footprint(h', buf) else 0)
            && s'.numpget - s.numpget == |h'.pools| - |h.pools| && s'.numprel == s.numprel
            && s'.numdget == s.numdget + (if buf != 0 && !LivePooled(h', buf) then 1 else 0) && s'.numdrel == s.numdrel
  {
    hide Inv, TakeBest, Best, AcquiredLegal, Requested, LivePooled, LiveDirect, AddPool, DirectRegion,
         PoolRegion, Expand, Usable, FitsExpansion, SameLive;
    if !h.ctl.acquire || acquired == 0 {
      ExpandNothing(h, size, acquired);
    } else {
      ExpandCases(h, size, acquired);
      if FitsExpansion(h, size) {
        AddPoolKeeps(h, acquired, h.ctl.expIncr);
        TakeCounters(AddPool(h, acquired, h.ctl.expIncr), size);
        PoolCounters(h, acquired, h.ctl.expIncr);
      } else {
        NeverPooled(h, acquired, size + (BDH - BH));
        AddDirectLive(h, acquired, size + (BDH - BH));
        AcquiredPositive(h, acquired, size + (BDH - BH));
      }
    }
  }

  lemma PoolCounters(h: Heap, base: int, len: int)
    ensures var s, s' := h.stats, AddPool(h, base, len).stats;
            && |AddPool(h, base, len).pools| == |h.pools| + 1 && AddPool(h, base, len).direct == h.direct
            && s' == s.(numpget := s.numpget + 1, numpblk := s.numpblk + 1)
  {
  }

  /** Every release is one more release, whatever else it hands back, and its block no longer counts. */
  lemma RelCounters(h: Heap, buf: int)
    requires Inv(h) && IsLive(h, buf)
    ensures var h' := Rel(h, buf); var s, s' := h.stats, h'.stats;
            && s'.numrel == s.numrel + 1 && s'.numget == s.numget
            && s'.totalloc == s.totalloc - Footprint(h, buf)
            && s'.numprel - s.numprel == |h.pools| - |h'.pools| && s'.numpget == s.numpget
            && s'.numdrel == s.numdrel + (if LivePooled(h, buf) then 0 else 1) && s'.numdget == s.numdget
  {
    hide All, PoolOf, BlockOf, Layout, Sum, WellFormed, Remove, Counted, LengthsAgree, Listed, Placed, JoinBlock,
         RelPooled, Dropped, WholePool;
    if LivePooled(h, buf) {
      RelPooledCases(h, buf - BH);
      JoinStats(h, buf - BH);
      JoinPoolCount(h, buf - BH);
    }
  }

  lemma JoinPoolCount(h: Heap, a: int)
    requires Inv(h) && UsedAt(h.pools, a)
    ensures |JoinBlock(h, a).pools| == |h.pools|
    ensures forall k :: 0 <= k < |h.pools| ==> |Dropped(JoinBlock(h, a).pools, k)| == |h.pools| - 1
  {
    hide All, PoolOf, BlockOf, Layout, Sum, WellFormed, Counted, LengthsAgree, Listed;
    JoinSplices(h, a);
  }
}
