/** What each step does to the set of live buffers: the allocator as a map from buffer to size. */
module Live {
  import opened Blocks
  import opened Pools
  import opened Heap
  import opened HeapFacts

  /** Buffers other than those in `but` are live in both heaps or in neither, with the same size. */
  ghost predicate SameLive(h: Heap, h': Heap, but: set<int>) {
    forall b :: b !in but ==> SameBuffer(h, h', b)
  }

  predicate SameBuffer(h: Heap, h': Heap, buf: int) {
    && (LivePooled(h', buf) <==> LivePooled(h, buf))
    && (LiveDirect(h', buf) <==> LiveDirect(h, buf))
    && Usable(h', buf) == Usable(h, buf)
  }

  /** A buffer is either in a pool or direct, never both. */
  lemma OneKind(h: Heap, x: int)
    requires Placed(h) && x in All(h.pools)
    ensures !LiveDirect(h, x + BH)
  {
    hide All, PoolOf, BlockOf, Layout, Sum, WellFormed;
    AllOwner(h.pools, h.limit, x);
    if LiveDirect(h, x + BH) {
      assert false;
    }
  }

  /** Serving a request adds one buffer, at least as long as asked, and disturbs no other. */
  lemma CarveLive(h: Heap, f: int, size: int)
    requires Inv(h) && Carvable(h, f, size)
    ensures var (h', buf) := Carve(h, f, size);
            && buf > 0 && !IsLive(h, buf) && LivePooled(h', buf)
            && Usable(h', buf) == (if Splits(h, f, size) then size else SizeAt(h.pools, f)) - BH
            && SameLive(h, h', {buf})
  {
    hide All, PoolOf, BlockOf, Layout, Sum, WellFormed, Remove, Counted, LengthsAgree;
    var (h', buf) := Carve(h, f, size);
    CarveAll(h, f, size);
    CarveKeeps(h, f, size);
    AllOwner(h.pools, h.limit, f);
    OneKind(h', buf - BH);
    assert h.pools[PoolOf(h.pools, f)].Valid(h.limit);
    assert h'.direct == h.direct;
  }

  /** Releasing a pooled buffer removes it and disturbs no other. */
  lemma JoinLive(h: Heap, a: int)
    requires Inv(h) && UsedAt(h.pools, a)
    ensures !LivePooled(JoinBlock(h, a), a + BH) && SameLive(h, JoinBlock(h, a), {a + BH})
  {
    hide All, RunSize, RunStart, LeftFree, RightFree, JoinBlock, DirectOf, Placed, Listed, LengthsAgree, Counted;
    ReleaseJoins(h, a);
    JoinDirect(h, a);
  }

  lemma JoinDirect(h: Heap, a: int)
    ensures JoinBlock(h, a).direct == h.direct
  {
  }

  lemma DropLive(h: Heap, k: nat)
    requires Inv(h) && k < |h.pools| && Empty(h.pools[k])
    ensures SameLive(h, DropPool(h, k, h.pools[k].base), {})
  {
    hide All, PoolOf, BlockOf, Layout, Sum, WellFormed, Remove, Dropped, TallyRun;
    var p := h.pools[k];
    assert p.Valid(h.limit);
    EmptyPool(p, h.limit);
    DropKeepsInv(h, k);
    forall x | x in p.Map() ensures x in All(h.pools) && !All(h.pools)[x].Used? {
      AllHas(h.pools, h.limit, k, x);
    }
  }

  lemma RelPooledLive(h: Heap, a: int)
    requires Inv(h) && UsedAt(h.pools, a)
    ensures !LivePooled(RelPooled(h, a), a + BH) && SameLive(h, RelPooled(h, a), {a + BH})
  {
    hide All, PoolOf, BlockOf, Layout, Sum, WellFormed, Remove, Dropped, SameBuffer;
    JoinLive(h, a);
    JoinKeeps(h, a);
    JoinedBlock(h, a);
    JoinSplices(h, a);
    var h1, s := JoinBlock(h, a), RunStart(h, a);
    var k, i := PoolOf(h1.pools, s), BlockOf(h1.pools, s);
    WholePoolTest(h1, k, i);
    if Empty(h1.pools[k]) {
      EmptyRun(0);
      assert h1.pools[k].blocks[..0] == [];
      DropLive(h1, k);
      SameTwice(h, h1, DropPool(h1, k, s), a + BH);
    }
  }

  lemma SameTwice(h: Heap, h1: Heap, h2: Heap, buf: int)
    requires SameLive(h, h1, {buf}) && SameLive(h1, h2, {}) && !LivePooled(h1, buf)
    ensures SameLive(h, h2, {buf}) && !LivePooled(h2, buf)
  {
    hide LivePooled, LiveDirect, Usable;
    assert SameBuffer(h1, h2, buf);
    forall b | b != buf ensures SameBuffer(h, h2, b) {
      assert SameBuffer(h, h1, b) && SameBuffer(h1, h2, b);
    }
  }

  lemma RelDirectLive(h: Heap, j: nat)
    requires Inv(h) && j < |h.direct|
    ensures var buf := h.direct[j].addr + BDH;
            !LiveDirect(RelDirect(h, j), buf) && SameLive(h, RelDirect(h, j), {buf})
  {
    hide All, Placed, Listed, Counted, LengthsAgree;
    var ds, ds' := h.direct, RelDirect(h, j).direct;
    DirectsDistinct(h);
    forall addr
      ensures addr != ds[j].addr ==> SameDirect(ds, ds', addr)
      ensures addr == ds[j].addr ==> DirectOf(ds', addr) == |ds'|
    {
      DirectWithout(ds, j, addr);
    }
    forall b | b != ds[j].addr + BDH
      ensures SameBuffer(h, RelDirect(h, j), b)
    {
      assert SameDirect(ds, ds', b - BDH);
    }
  }

  predicate SameDirect(ds: seq<Direct>, ds': seq<Direct>, addr: int) {
    var j, j' := DirectOf(ds, addr), DirectOf(ds', addr);
    && (j < |ds| <==> j' < |ds'|)
    && (j < |ds| ==> ds[j] == ds'[j'])
  }

  predicate DistinctDirects(ds: seq<Direct>) {
    forall i, j :: 0 <= i < j < |ds| ==> ds[i].addr != ds[j].addr
  }

  lemma DirectsDistinct(h: Heap)
    requires Placed(h)
    ensures DistinctDirects(h.direct)
  {
    hide Arranged;
    forall i, j | 0 <= i < j < |h.direct|
      ensures h.direct[i].addr != h.direct[j].addr
    {
      assert DirectValid(h, h.direct[i]) && DirectValid(h, h.direct[j]);
    }
  }

  lemma DirectWithout(ds: seq<Direct>, j: nat, addr: int)
    requires j < |ds| && DistinctDirects(ds)
    ensures var ds' := ds[..j] + ds[j + 1..];
            if addr == ds[j].addr then DirectOf(ds', addr) == |ds'| else SameDirect(ds, ds', addr)
  {
    hide DirectOf;
    var ds' := ds[..j] + ds[j + 1..];
    forall i | 0 <= i < |ds'| ensures ds'[i] == ds[if i < j then i else i + 1] {
    }
    var i, i' := DirectOf(ds, addr), DirectOf(ds', addr);
    if i < |ds| && addr != ds[j].addr {
      assert ds'[if i < j then i else i - 1] == ds[i];
    }
  }

  lemma RelLive(h: Heap, buf: int)
    requires Inv(h) && IsLive(h, buf)
    ensures !IsLive(Rel(h, buf), buf) && SameLive(h, Rel(h, buf), {buf})
  {
    hide Inv, RelPooled, RelDirect, SameBuffer, All, DirectOf;
    RelPooledSameDirect(h, buf - BH);
    if LivePooled(h, buf) {
      RelPooledLive(h, buf - BH);
      assert Placed(h) by { PlacedOf(h); }
      OneKind(h, buf - BH);
    } else {
      RelDirectLive(h, DirectOf(h.direct, buf - BDH));
    }
  }

  lemma PlacedOf(h: Heap)
    requires Inv(h)
    ensures Placed(h)
  {
  }

  lemma RelPooledSameDirect(h: Heap, a: int)
    ensures RelPooled(h, a).direct == h.direct
    ensures forall j :: 0 <= j < |h.direct| ==> RelDirect(h, j).pools == h.pools
  {
  }

  lemma AddPoolLive(h: Heap, base: int, len: int)
    requires Inv(h) && PoolRegion(h, base, len)
    ensures SameLive(h, AddPool(h, base, len), {})
  {
    hide All, PoolOf, BlockOf, Layout, Sum, WellFormed, Counted, LengthsAgree, Listed;
    AddPoolAll(h, base, len);
    AddPoolFresh(h, base, len);
    assert AddPool(h, base, len).direct == h.direct;
  }

  lemma AddDirectLive(h: Heap, addr: int, size: int)
    requires Inv(h) && DirectRegion(h, addr, size)
    ensures var h' := AddDirect(h, addr, size);
            && !IsLive(h, addr + BDH) && LiveDirect(h', addr + BDH)
            && Usable(h', addr + BDH) == size - BDH
            && SameLive(h, h', {addr + BDH})
  {
    hide All, Counted, LengthsAgree, Listed, DirectOf, PoolOf, BlockOf, Layout, Sum, WellFormed;
    var ds, ds' := h.direct, h.direct + [Direct(addr, size)];
    NotInPools(h, addr, addr + size, addr + BDH - BH);
    DirectsDistinct(h);
    assert ds'[|ds|] == Direct(addr, size);
    NewDirect(h, addr, size);
    forall b | b != addr ensures SameDirect(ds, ds', b) {
      var j, j' := DirectOf(ds, b), DirectOf(ds', b);
      if j < |ds| { assert ds'[j] == ds[j]; }
      if j' < |ds'| { assert ds[j'] == ds'[j']; }
    }
    forall b | b != addr + BDH ensures SameBuffer(h, AddDirect(h, addr, size), b) {
      assert SameDirect(ds, ds', b - BDH);
    }
  }

  lemma NewDirect(h: Heap, addr: int, size: int)
    requires Placed(h) && DirectRegion(h, addr, size)
    ensures forall j :: 0 <= j < |h.direct| ==> h.direct[j].addr != addr
  {
    hide Arranged;
    forall j | 0 <= j < |h.direct| ensures h.direct[j].addr != addr {
      assert DirectValid(h, h.direct[j]);
      assert Apart(h.direct[j].addr, h.direct[j].addr + h.direct[j].size, addr, addr + size);
    }
  }
}
