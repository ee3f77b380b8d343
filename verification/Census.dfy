/** The counters count the client's map. */
module Census {
  import opened Blocks
  import opened Pools
  import opened Heap
  import opened Live
  import opened Conservation
  import opened Refinement

  function PayloadOf(a: int): int {
    a + BH
  }

  /** The buffers of the used blocks of a layout. */
  function UsedIn(m: map<int, Block>): set<int> {
    set a | a in m && m[a].Used? :: PayloadOf(a)
  }

  lemma UsedInHas(m: map<int, Block>, b: int)
    ensures b in UsedIn(m) <==> b - BH in m && m[b - BH].Used?
  {
    if b - BH in m && m[b - BH].Used? {
      assert PayloadOf(b - BH) == b;
    }
  }

  lemma UsedNone()
    ensures UsedIn(map[]) == {}
  {
  }

  lemma {:induction false} RunCount(a: int, bs: seq<Block>)
    requires Sized(bs)
    ensures |UsedIn(Layout(a, bs))| == TallyRun(bs).count
    decreases bs
  {
    if bs == [] {
      UsedNone();
    } else {
      hide Layout, Sum, UsedIn;
      var rest := Layout(a + bs[0].Size(), bs[1..]);
      LayoutFirst(a, bs);
      RunCount(a + bs[0].Size(), bs[1..]);
      UsedFirst(a, bs[0], rest);
    }
  }

  lemma UsedFirst(a: int, b: Block, rest: map<int, Block>)
    requires a !in rest
    ensures |UsedIn(map[a := b] + rest)| == |UsedIn(rest)| + (if b.Used? then 1 else 0)
  {
    hide UsedIn;
    var all, first := map[a := b] + rest, if b.Used? then {PayloadOf(a)} else {};
    forall x ensures x in UsedIn(all) <==> x in first || x in UsedIn(rest) {
      UsedInHas(all, x);
      UsedInHas(rest, x);
    }
    UsedInHas(rest, PayloadOf(a));
    assert UsedIn(all) == first + UsedIn(rest);
  }

  lemma UsedUnion(m: map<int, Block>, n: map<int, Block>)
    requires forall x :: x in m ==> x !in n
    ensures |UsedIn(m + n)| == |UsedIn(m)| + |UsedIn(n)|
  {
    hide UsedIn;
    forall x
      ensures x in UsedIn(m + n) <==> x in UsedIn(m) || x in UsedIn(n)
      ensures !(x in UsedIn(m) && x in UsedIn(n))
    {
      UsedInHas(m, x);
      UsedInHas(n, x);
      UsedInHas(m + n, x);
    }
    assert UsedIn(m + n) == UsedIn(m) + UsedIn(n) && UsedIn(m) * UsedIn(n) == {};
  }

  lemma LayoutFirst(a: int, bs: seq<Block>)
    requires Sized(bs) && bs != []
    ensures var rest := Layout(a + bs[0].Size(), bs[1..]);
            Sized(bs[1..]) && Layout(a, bs) == map[a := bs[0]] + rest && a !in rest
  {
    LayoutInside(a + bs[0].Size(), bs[1..]);
  }

  lemma {:induction false} PoolsCount(pools: seq<Pool>, limit: int)
    requires Arranged(pools, limit)
    ensures |UsedIn(All(pools))| == TallyPools(pools).count
    decreases |pools|
  {
    hide Layout, Sum, TallyRun, WellFormed, UsedIn;
    if pools == [] {
      UsedNone();
    } else {
      var p := pools[0];
      assert p.Valid(limit);
      WellFormedSized(p.blocks);
      RunCount(p.base, p.blocks);
      assert Arranged(pools[1..], limit);
      PoolsCount(pools[1..], limit);
      forall x | x in p.Map() ensures x !in All(pools[1..]) {
        NotInRest(pools, limit, x);
      }
      UsedUnion(p.Map(), All(pools[1..]));
    }
  }

  function DirectBuffers(ds: seq<Direct>): set<int> {
    if ds == [] then {} else {ds[0].addr + BDH} + DirectBuffers(ds[1..])
  }

  lemma {:induction false} DirectIn(ds: seq<Direct>, b: int)
    ensures b in DirectBuffers(ds) <==> DirectOf(ds, b - BDH) < |ds|
  {
    if ds != [] && ds[0].addr != b - BDH {
      DirectIn(ds[1..], b);
    }
  }

  lemma {:induction false} DirectCount(ds: seq<Direct>)
    requires forall i, j :: 0 <= i < j < |ds| ==> ds[i].addr != ds[j].addr
    ensures |DirectBuffers(ds)| == |ds|
  {
    if ds != [] {
      DirectCount(ds[1..]);
      DirectIn(ds[1..], ds[0].addr + BDH);
    }
  }

  /** The difference of the two call counters is the number of buffers the clients hold. */
  lemma BuffersCounted(h: Heap)
    requires Inv(h)
    ensures |LiveMap(h)| == h.stats.numget - h.stats.numrel
  {
    hide All, Arranged, TallyPools, DirectBytes, IsLive, Usable, LiveSet, UsedIn, DirectBuffers;
    var pooled, direct := UsedIn(All(h.pools)), DirectBuffers(h.direct);
    PoolsCount(h.pools, h.limit);
    DirectsDistinct(h);
    DirectCount(h.direct);
    forall b
      ensures b in LiveSet(h) <==> b in pooled || b in direct
      ensures !(b in pooled && b in direct)
    {
      UsedInHas(All(h.pools), b);
      DirectIn(h.direct, b);
      LiveIs(h, b);
    }
    assert LiveSet(h) == pooled + direct && pooled * direct == {};
    assert LiveMap(h).Keys == LiveSet(h);
  }

  lemma LiveIs(h: Heap, b: int)
    requires Placed(h)
    ensures b in LiveSet(h) <==> LivePooled(h, b) || LiveDirect(h, b)
    ensures !(LivePooled(h, b) && LiveDirect(h, b))
  {
    hide All, Placed, LiveDirect, LiveSet;
    LiveSetIs(h, b);
    if LivePooled(h, b) {
      OneKind(h, b - BH);
    }
  }
}
