/** What `pool_len` stands for: the lengths of all pools ever added. */
module Lengths {
  import opened Blocks
  import opened Pools
  import opened Heap
  import opened Fit
  import opened Runs

  // ----- the pools that a run adds, by hand or by expansion

  function ExpandAdded(h: Heap, size: int, acquired: int): seq<int> {
    if h.ctl.acquire && acquired != 0 && size <= h.ctl.expIncr - 8 then [h.ctl.expIncr - h.ctl.expIncr % 4] else []
  }

  function GetAdded(h: Heap, size: int, plan: seq<Answer>, acquired: int): seq<int>
    decreases plan
  {
    if Best(h, size) >= 0 then []
    else if h.ctl.compact && plan != [] then
      var h1 := Run(h, plan[0].calls);
      RunAdded(h, plan[0].calls)
      + (if plan[0].again then GetAdded(h1, size, plan[1..], acquired) else ExpandAdded(h1, size, acquired))
    else ExpandAdded(h, size, acquired)
  }

  /** Lengths, rounded down to the quantum, of the pools that a call adds. */
  function Added(h: Heap, c: Call): seq<int>
    decreases c
  {
    match c
    case CallGet(r, plan, acquired, _) => GetAdded(h, Need(r), plan, acquired)
    case CallGetr(_, r, plan, acquired) => GetAdded(h, Need(r), plan, acquired)
    case CallPool(_, len) => [len - len % 4]
    case CallRel(_) => []
    case CallCtl(_, _, _, _) => []
    case CallWrite(_, _, _) => []
  }

  function RunAdded(h: Heap, calls: seq<Call>): seq<int>
    decreases calls
  {
    if calls == [] then [] else Added(h, calls[0]) + RunAdded(Do(h, calls[0]), calls[1..])
  }

  // ----- how `pool_len` follows them

  function Note(poolLen: int, n: int): int {
    if poolLen == 0 then n else if n != poolLen then -1 else poolLen
  }

  function Noted(poolLen: int, lens: seq<int>): int
    decreases lens
  {
    if lens == [] then poolLen else Noted(Note(poolLen, lens[0]), lens[1..])
  }

  predicate Positive(lens: seq<int>) {
    forall i :: 0 <= i < |lens| ==> lens[i] > 0
  }

  predicate AllAre(lens: seq<int>, n: int) {
    forall i :: 0 <= i < |lens| ==> lens[i] == n
  }

  lemma {:induction false} NotedConcat(poolLen: int, x: seq<int>, y: seq<int>)
    ensures Noted(poolLen, x + y) == Noted(Noted(poolLen, x), y)
    decreases x
  {
    if x == [] {
      assert x + y == y;
    } else {
      assert (x + y)[0] == x[0] && (x + y)[1..] == x[1..] + y;
      NotedConcat(Note(poolLen, x[0]), x[1..], y);
    }
  }

  /** A positive length stays as long as every further one is the same; -1 stays for good. */
  lemma {:induction false} NotedFrom(poolLen: int, lens: seq<int>)
    requires (poolLen > 0 || poolLen == -1) && Positive(lens)
    ensures Noted(poolLen, lens) == if poolLen > 0 && AllAre(lens, poolLen) then poolLen else -1
    decreases lens
  {
    if lens != [] {
      NotedFrom(Note(poolLen, lens[0]), lens[1..]);
      assert forall i :: 0 < i < |lens| ==> lens[i] == lens[1..][i - 1];
    }
  }

  /** `h'` comes from `h` by a call that adds pools of the lengths `lens`. */
  predicate Follows(h: Heap, h': Heap, lens: seq<int>) {
    && h'.ctl.poolLen == Noted(h.ctl.poolLen, lens)
    && h'.stats.numpget == h.stats.numpget + |lens|
    && Positive(lens)
  }

  lemma FollowsNone(h: Heap, h': Heap)
    requires h'.ctl.poolLen == h.ctl.poolLen && h'.stats.numpget == h.stats.numpget
    ensures Follows(h, h', [])
  {
  }

  lemma FollowsTrans(h: Heap, h1: Heap, h2: Heap, x: seq<int>, y: seq<int>)
    requires Follows(h, h1, x) && Follows(h1, h2, y)
    ensures Follows(h, h2, x + y)
  {
    NotedConcat(h.ctl.poolLen, x, y);
  }

  lemma PoolFollows(h: Heap, base: int, len: int)
    requires PoolRegion(h, base, len)
    ensures Follows(h, AddPool(h, base, len), [len - len % 4])
  {
    assert Noted(h.ctl.poolLen, [len - len % 4]) == Note(h.ctl.poolLen, len - len % 4);
  }

  lemma TakeFollows(h: Heap, size: int)
    ensures Follows(h, TakeBest(h, size).0, [])
  {
    hide Best, SizeAt, PoolOf, BlockOf, SplicePools, Remove;
    FollowsNone(h, TakeBest(h, size).0);
  }

  lemma RelFollows(h: Heap, buf: int)
    ensures Follows(h, Rel(h, buf), [])
  {
    hide PoolOf, BlockOf, SplicePools, Remove, Joined, JoinFrom, JoinTo, JoinList, JoinAddr, Sum, UsedAt, SizeAt,
         WholePool, Dropped;
    FollowsNone(h, Rel(h, buf));
  }

  lemma ExpandFollows(h: Heap, size: int, acquired: int)
    requires AcquiredLegal(h, size, acquired)
    ensures Follows(h, Expand(h, size, acquired).0, ExpandAdded(h, size, acquired))
  {
    hide TakeBest, AddPool, PoolRegion, Unowned, Follows;
    if h.ctl.acquire && acquired != 0 && size <= h.ctl.expIncr - 8 {
      var h1 := AddPool(h, acquired, h.ctl.expIncr);
      PoolFollows(h, acquired, h.ctl.expIncr);
      TakeFollows(h1, size);
      FollowsTrans(h, h1, TakeBest(h1, size).0, ExpandAdded(h, size, acquired), []);
      assert ExpandAdded(h, size, acquired) + [] == ExpandAdded(h, size, acquired);
    } else {
      FollowsNone(h, Expand(h, size, acquired).0);
    }
  }

  lemma {:induction false} GetFollows(h: Heap, size: int, plan: seq<Answer>, acquired: int)
    requires GetLegal(h, size, plan, acquired)
    ensures Follows(h, Get(h, size, plan, acquired).0, GetAdded(h, size, plan, acquired))
    decreases plan
  {
    hide TakeBest, Expand, Best, Run, RunLegal, AcquiredLegal, Get, GetLegal, PlanTouched, RunTouched, Follows,
         RunAdded, ExpandAdded;
    if Best(h, size) >= 0 {
      GetFits(h, size, plan, acquired);
      TakeFollows(h, size);
    } else if h.ctl.compact && plan != [] {
      GetCompacts(h, size, plan, acquired);
      var h1 := Run(h, plan[0].calls);
      RunFollows(h, plan[0].calls);
      if plan[0].again {
        GetFollows(h1, size, plan[1..], acquired);
        FollowsTrans(h, h1, Get(h, size, plan, acquired).0, RunAdded(h, plan[0].calls),
                     GetAdded(h1, size, plan[1..], acquired));
      } else {
        ExpandFollows(h1, size, acquired);
        FollowsTrans(h, h1, Get(h, size, plan, acquired).0, RunAdded(h, plan[0].calls),
                     ExpandAdded(h1, size, acquired));
      }
    } else {
      GetExpands(h, size, plan, acquired);
      ExpandFollows(h, size, acquired);
    }
  }

  lemma {:induction false} DoFollows(h: Heap, c: Call)
    requires Legal(h, c)
    ensures Follows(h, Do(h, c), Added(h, c))
    decreases c
  {
    hide Get, GetLegal, GetAdded, Rel, AddPool, Need, CanRelease, PoolRegion, PlanTouched, IsLive, Usable, Follows;
    match c
    case CallGet(r, plan, acquired, _) => GetFollows(h, Need(r), plan, acquired);
    case CallGetr(buf, r, plan, acquired) =>
      GetFollows(h, Need(r), plan, acquired);
      var (h1, nbuf) := Get(h, Need(r), plan, acquired);
      if nbuf != 0 && buf != 0 {
        RelFollows(h1, buf);
        FollowsTrans(h, h1, Rel(h1, buf), Added(h, c), []);
        assert Added(h, c) + [] == Added(h, c);
      }
    case CallRel(buf) => RelFollows(h, buf);
    case CallPool(base, len) => PoolFollows(h, base, len);
    case CallCtl(_, _, _, _) => FollowsNone(h, Do(h, c));
    case CallWrite(_, _, _) => FollowsNone(h, h);
  }

  lemma {:induction false} RunFollows(h: Heap, calls: seq<Call>)
    requires RunLegal(h, calls)
    ensures Follows(h, Run(h, calls), RunAdded(h, calls))
    decreases calls
  {
    hide Do, Legal, Added, Follows;
    if calls == [] {
      FollowsNone(h, h);
    } else {
      DoFollows(h, calls[0]);
      RunFollows(Do(h, calls[0]), calls[1..]);
      FollowsTrans(h, Do(h, calls[0]), Run(h, calls), Added(h, calls[0]), RunAdded(Do(h, calls[0]), calls[1..]));
    }
  }

  /**
   In every reachable state `pool_len` is 0 if no pool has been added, the common length if all that
   were ever added have one, and -1 otherwise; and the pools ever added have been counted.
   */
  lemma PoolLenMeans(head: int, limit: int, calls: seq<Call>)
    requires RunLegal(Start(head, limit), calls)
    ensures var h, lens := Run(Start(head, limit), calls), RunAdded(Start(head, limit), calls);
            && h.ctl.poolLen == (if lens == [] then 0 else if AllAre(lens, lens[0]) then lens[0] else -1)
            && h.stats.numpget == |lens|
  {
    hide Run, RunLegal, RunAdded;
    var s := Start(head, limit);
    var lens := RunAdded(s, calls);
    RunFollows(s, calls);
    if lens != [] {
      NotedFrom(lens[0], lens[1..]);
      assert forall i :: 0 < i < |lens| ==> lens[i] == lens[1..][i - 1];
      assert AllAre(lens, lens[0]) <==> AllAre(lens[1..], lens[0]);
    }
  }
}
