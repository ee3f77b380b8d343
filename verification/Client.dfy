/** What clients may write without disturbing the allocator. */
module Client {
  import opened Memory
  import opened Blocks
  import opened Pools
  import opened Heap
  import opened HeapFacts
  import opened Image
  import opened Live
  import opened Frames

  /** Is `x` in the client's part of an allocated block of the run? */
  predicate Payload(a: int, bs: seq<Block>, x: int)
    decreases bs
  {
    bs != [] && ((bs[0].Used? && a + BH <= x < a + bs[0].size) || Payload(a + bs[0].Size(), bs[1..], x))
  }

  /** The block that a byte of client data belongs to. */
  lemma {:induction false} PayloadBlock(a: int, bs: seq<Block>, x: int) returns (u: int)
    requires Sized(bs) && Payload(a, bs, x)
    ensures u in Layout(a, bs) && Layout(a, bs)[u].Used? && u + BH <= x < u + Layout(a, bs)[u].size
    decreases bs
  {
    LayoutHead(a, bs);
    LayoutInside(a + bs[0].Size(), bs[1..]);
    if bs[0].Used? && a + BH <= x < a + bs[0].size {
      u := a;
    } else {
      u := PayloadBlock(a + bs[0].Size(), bs[1..], x);
    }
  }

  lemma {:induction false} PayloadAt(a: int, bs: seq<Block>, u: int, x: int)
    requires Sized(bs) && u in Layout(a, bs) && Layout(a, bs)[u].Used?
    requires u + BH <= x < u + Layout(a, bs)[u].size
    ensures Payload(a, bs, x)
    decreases bs
  {
    var a' := a + bs[0].Size();
    LayoutInside(a', bs[1..]);
    if u in Layout(a', bs[1..]) {
      PayloadAt(a', bs[1..], u, x);
    }
  }

  /** The words the allocator relies on. */
  ghost predicate Private(h: Heap, x: int) {
    || h.head <= x < h.head + BFH
    || (exists k :: 0 <= k < |h.pools| && InPool(h.pools[k], x))
    || (exists j :: 0 <= j < |h.direct| && InHeader(h.direct[j], x))
  }

  predicate InPool(p: Pool, x: int) {
    p.base <= x < p.End() && !Payload(p.base, p.blocks, x)
  }

  predicate InHeader(d: Direct, x: int) {
    d.addr <= x < d.addr + BDH
  }

  ghost predicate ClientWrite(m: Words, m': Words, h: Heap) {
    forall x :: Private(h, x) ==> At(m', x) == At(m, x)
  }

  lemma {:induction false} RunClient(m: Words, m': Words, a: int, tag: int, bs: seq<Block>)
    requires Sized(bs) && RunAt(m, a, tag, bs)
    requires forall x :: a <= x < a + Sum(bs) && !Payload(a, bs, x) ==> At(m', x) == At(m, x)
    ensures RunAt(m', a, tag, bs)
    decreases bs
  {
    hide BlockAt;
    if bs != [] {
      var a' := a + bs[0].Size();
      SumPositive(bs[1..]);
      PayloadAfter(a', bs[1..]);
      forall x | a <= x < a' && !(bs[0].Used? && a + BH <= x) ensures At(m', x) == At(m, x) {
        assert !Payload(a, bs, x);
      }
      BlockClient(m, m', a, tag, bs[0]);
      RunClient(m, m', a', bs[0].Tag(), bs[1..]);
    }
  }

  /** Nothing before a run is in its payload. */
  lemma {:induction false} PayloadAfter(a: int, bs: seq<Block>)
    requires Sized(bs)
    ensures forall x :: Payload(a, bs, x) ==> a + BH <= x
    decreases bs
  {
    if bs != [] {
      PayloadAfter(a + bs[0].Size(), bs[1..]);
    }
  }

  lemma BlockClient(m: Words, m': Words, a: int, tag: int, b: Block)
    requires b.Sized() && BlockAt(m, a, tag, b)
    requires forall x :: a <= x < a + b.Size() && !(b.Used? && a + BH <= x) ==> At(m', x) == At(m, x)
    ensures BlockAt(m', a, tag, b)
  {
  }

  /** A client that writes nothing private leaves the image of the heap intact. */
  lemma ImageClient(m: Words, m': Words, h: Heap)
    requires Placed(h) && Listed(h) && ImageOf(m, h) && ClientWrite(m, m', h)
    ensures ImageOf(m', h)
  {
    hide All, Layout, Sum, Payload, RunAt, Arranged, Listed, Linked, DirectAt, Circle;
    forall k | 0 <= k < |h.pools| ensures PoolAt(m', h.pools[k]) {
      PoolClient(m, m', h, k);
    }
    forall j | 0 <= j < |h.direct| ensures DirectAt(m', h.direct[j]) {
      DirectClient(m, m', h, j);
    }
    ListClient(m, m', h);
  }

  lemma PoolClient(m: Words, m': Words, h: Heap, k: nat)
    requires Placed(h) && ImageOf(m, h) && ClientWrite(m, m', h) && k < |h.pools|
    ensures PoolAt(m', h.pools[k])
  {
    hide All, Layout, Sum, Payload, RunAt, Linked, DirectAt;
    var p := h.pools[k];
    assert p.Valid(h.limit);
    assert PoolAt(m, p);
    forall x | p.base <= x < p.End() && !Payload(p.base, p.blocks, x) ensures At(m', x) == At(m, x) {
      assert InPool(h.pools[k], x);
      assert Private(h, x);
    }
    RunClient(m, m', p.base, 0, p.blocks);
  }

  lemma DirectClient(m: Words, m': Words, h: Heap, j: nat)
    requires ImageOf(m, h) && ClientWrite(m, m', h) && j < |h.direct|
    ensures DirectAt(m', h.direct[j])
  {
    var d := h.direct[j];
    assert DirectAt(m, d);
    assert InHeader(h.direct[j], d.addr + TSIZE) && InHeader(h.direct[j], d.addr + (BDH - BH) + PREVFREE)
        && InHeader(h.direct[j], d.addr + (BDH - BH) + BSIZE);
    assert Private(h, d.addr + TSIZE) && Private(h, d.addr + (BDH - BH) + PREVFREE)
        && Private(h, d.addr + (BDH - BH) + BSIZE);
  }

  lemma ListClient(m: Words, m': Words, h: Heap)
    requires Placed(h) && Listed(h) && ImageOf(m, h) && ClientWrite(m, m', h)
    ensures Linked(m', Circle(h.head, h.free))
  {
    hide All, Layout, Sum, Payload, RunAt, Linked, DirectAt, Arranged, PoolAt;
    forall f | f in Circle(h.head, h.free)
      ensures Private(h, f + FLINK) && Private(h, f + BLINK)
    {
      if f in h.free { LinkPrivate(h, f); }
    }
    LinkedFrame(m, m', Circle(h.head, h.free));
  }

  /** A free block belongs to the allocator, links included. */
  lemma LinkPrivate(h: Heap, f: int)
    requires Placed(h) && FreeAt(h.pools, f)
    ensures forall x :: f <= x < f + SizeAt(h.pools, f) ==> Private(h, x)
    ensures SizeAt(h.pools, f) >= BFH
  {
    hide All, PoolOf, BlockOf, Layout, Sum, Payload;
    FreeBlock(h, f);
    AllOwner(h.pools, h.limit, f);
    var k := PoolOf(h.pools, f);
    var p := h.pools[k];
    assert p.Valid(h.limit);
    LayoutApart(p.base, p.blocks);
    forall x | f <= x < f + SizeAt(h.pools, f) ensures Private(h, x) {
      if Payload(p.base, p.blocks, x) {
        var u := PayloadBlock(p.base, p.blocks, x);
        assert false;
      }
      assert InPool(h.pools[k], x);
    }
  }

  /** The usable bytes of a live buffer are the client's. */
  lemma LivePublic(h: Heap, buf: int, x: int)
    requires Placed(h) && IsLive(h, buf) && buf <= x < buf + Usable(h, buf)
    ensures !Private(h, x)
  {
    hide All, PoolOf, BlockOf, Layout, Sum, Payload, WellFormed, DirectOf;
    if LivePooled(h, buf) {
      PooledPublic(h, buf - BH, x);
    } else {
      DirectPublic(h, DirectOf(h.direct, buf - BDH), x);
    }
  }

  lemma PooledPublic(h: Heap, a: int, x: int)
    requires Placed(h) && UsedAt(h.pools, a) && a + BH <= x < a + SizeAt(h.pools, a)
    ensures !Private(h, x)
  {
    hide All, PoolOf, BlockOf, Layout, Sum, Payload, WellFormed;
    AllOwner(h.pools, h.limit, a);
    var k := PoolOf(h.pools, a);
    var p := h.pools[k];
    assert Apart(h.head, h.head + BFH, p.base, p.End());
    forall n | 0 <= n < |h.pools| ensures !InPool(h.pools[n], x) {
      if n == k {
        PayloadHas(h, k, a, x);
      } else {
        PoolApart(h, k, n);
      }
    }
    forall j | 0 <= j < |h.direct| ensures !InHeader(h.direct[j], x) {
      assert DirectValid(h, h.direct[j]);
      assert Apart(p.base, p.End(), h.direct[j].addr, h.direct[j].addr + h.direct[j].size);
    }
  }

  lemma PayloadHas(h: Heap, k: nat, u: int, x: int)
    requires Placed(h) && k < |h.pools| && u in h.pools[k].Map() && h.pools[k].Map()[u].Used?
    requires u + BH <= x < u + h.pools[k].Map()[u].size
    ensures Payload(h.pools[k].base, h.pools[k].blocks, x)
  {
    hide Layout, Sum;
    var p := h.pools[k];
    assert p.Valid(h.limit);
    PayloadAt(p.base, p.blocks, u, x);
  }

  lemma DirectPublic(h: Heap, j: nat, x: int)
    requires Placed(h) && j < |h.direct|
    requires h.direct[j].addr + BDH <= x < h.direct[j].addr + h.direct[j].size
    ensures !Private(h, x)
  {
    hide All, PoolOf, BlockOf, Layout, Sum, Payload, WellFormed;
    var d := h.direct[j];
    assert DirectValid(h, d);
    forall n | 0 <= n < |h.pools| ensures !InPool(h.pools[n], x) {
      assert Apart(h.pools[n].base, h.pools[n].End(), d.addr, d.addr + d.size);
    }
    forall i | 0 <= i < |h.direct| ensures !InHeader(h.direct[i], x) {
      assert DirectValid(h, h.direct[i]);
      if i < j {
        assert Apart(h.direct[i].addr, h.direct[i].addr + h.direct[i].size, d.addr, d.addr + d.size);
      } else if i > j {
        assert Apart(d.addr, d.addr + d.size, h.direct[i].addr, h.direct[i].addr + h.direct[i].size);
      }
    }
  }

  /** No two live buffers share a byte. */
  lemma LiveApart(h: Heap, b: int, c: int)
    requires Placed(h) && IsLive(h, b) && IsLive(h, c) && b != c
    ensures Apart(b, b + Usable(h, b), c, c + Usable(h, c))
  {
    hide All, PoolOf, BlockOf, Layout, Sum, WellFormed, DirectOf;
    if LivePooled(h, b) {
      if LivePooled(h, c) {
        AllApart(h.pools, h.limit, b - BH, c - BH);
      } else {
        PooledDirectApart(h, b, c);
      }
    } else if LivePooled(h, c) {
      PooledDirectApart(h, c, b);
    } else {
      var i, j := DirectOf(h.direct, b - BDH), DirectOf(h.direct, c - BDH);
      if i < j {
        assert Apart(h.direct[i].addr, h.direct[i].addr + h.direct[i].size, h.direct[j].addr,
                     h.direct[j].addr + h.direct[j].size);
      } else {
        assert Apart(h.direct[j].addr, h.direct[j].addr + h.direct[j].size, h.direct[i].addr,
                     h.direct[i].addr + h.direct[i].size);
      }
    }
  }

  lemma PooledDirectApart(h: Heap, b: int, c: int)
    requires Placed(h) && LivePooled(h, b) && LiveDirect(h, c) && !LivePooled(h, c)
    ensures Apart(b, b + Usable(h, b), c, c + Usable(h, c))
  {
    hide All, PoolOf, BlockOf, Layout, Sum, WellFormed, DirectOf;
    AllOwner(h.pools, h.limit, b - BH);
    var p := h.pools[PoolOf(h.pools, b - BH)];
    var d := h.direct[DirectOf(h.direct, c - BDH)];
    assert DirectValid(h, d);
    assert Apart(p.base, p.End(), d.addr, d.addr + d.size);
  }

  /** Where a live buffer lies. */
  predicate Bounded(h: Heap, buf: int) {
    && 0 < buf && buf % 4 == 0 && buf + Usable(h, buf) <= h.limit
    && SIZEQ <= Usable(h, buf) <= MAX_SIZE && Usable(h, buf) % 4 == 0
  }

  lemma PooledBounds(h: Heap, buf: int)
    requires Placed(h) && LivePooled(h, buf)
    ensures Bounded(h, buf)
  {
    hide All, PoolOf, BlockOf, Layout, Sum, WellFormed, DirectOf;
    UsedBlock(h, buf - BH);
    AllOwner(h.pools, h.limit, buf - BH);
    assert h.pools[PoolOf(h.pools, buf - BH)].Valid(h.limit);
  }

  lemma DirectBounds(h: Heap, buf: int)
    requires Placed(h) && LiveDirect(h, buf) && !LivePooled(h, buf)
    ensures Bounded(h, buf)
  {
    hide All, Arranged, LivePooled, Apart;
    assert DirectValid(h, h.direct[DirectOf(h.direct, buf - BDH)]);
  }

  /** Where a live buffer is, and how long it can be. */
  lemma LiveBounds(h: Heap, buf: int)
    requires Placed(h) && IsLive(h, buf)
    ensures 0 < buf && buf % 4 == 0 && buf + Usable(h, buf) <= h.limit
    ensures SIZEQ <= Usable(h, buf) <= MAX_SIZE && Usable(h, buf) % 4 == 0
  {
    hide Placed, LivePooled, LiveDirect, Usable;
    if LivePooled(h, buf) {
      PooledBounds(h, buf);
    } else {
      DirectBounds(h, buf);
    }
  }

  /** A buffer whose words are kept keeps its bytes. */
  lemma PayloadBytes(was: seq<byte>, now: seq<byte>, h: Heap, buf: int)
    requires Placed(h) && IsLive(h, buf) && |was| == |now| == h.limit
    requires SamePayload(Decode(was), Decode(now), buf, Usable(h, buf))
    ensures buf + Usable(h, buf) <= |was| && 0 <= buf <= buf + Usable(h, buf)
    ensures now[buf..buf + Usable(h, buf)] == was[buf..buf + Usable(h, buf)]
  {
    hide IsLive, Usable, Decode;
    LiveBounds(h, buf);
    SameWordsSameBytes(now, was, buf, buf + Usable(h, buf));
  }

  /** Bytes written inside one live buffer: nothing private changes, nor any other buffer. */
  lemma BufferWrite(was: seq<byte>, now: seq<byte>, h: Heap, buf: int)
    requires Placed(h) && IsLive(h, buf) && |was| == |now| == h.limit
    requires forall i :: 0 <= i < |was| && !(buf <= i < buf + Usable(h, buf)) ==> now[i] == was[i]
    ensures ClientWrite(Decode(was), Decode(now), h)
    ensures forall b :: b != buf && IsLive(h, b) ==> SamePayload(Decode(was), Decode(now), b, Usable(h, b))
  {
    hide IsLive, Usable, Decode, Private;
    LiveBounds(h, buf);
    forall x | Private(h, x) ensures At(Decode(now), x) == At(Decode(was), x) {
      BufferWord(was, now, h, buf, x);
    }
    forall b | b != buf && IsLive(h, b)
      ensures SamePayload(Decode(was), Decode(now), b, Usable(h, b))
    {
      OtherWords(was, now, h, buf, b);
    }
  }

  lemma BufferWord(was: seq<byte>, now: seq<byte>, h: Heap, buf: int, x: int)
    requires Placed(h) && IsLive(h, buf) && |was| == |now| == h.limit && Private(h, x)
    requires forall i :: 0 <= i < |was| && !(buf <= i < buf + Usable(h, buf)) ==> now[i] == was[i]
    ensures At(Decode(now), x) == At(Decode(was), x)
  {
    hide IsLive, Usable, Private, Placed;
    LiveBounds(h, buf);
    if buf <= x < buf + Usable(h, buf) {
      LivePublic(h, buf, x);
    } else if x % 4 == 0 {
      SameBytesSameWords(now, was, x);
    }
  }

  lemma OtherWords(was: seq<byte>, now: seq<byte>, h: Heap, buf: int, b: int)
    requires Placed(h) && IsLive(h, buf) && IsLive(h, b) && b != buf && |was| == |now| == h.limit
    requires forall i :: 0 <= i < |was| && !(buf <= i < buf + Usable(h, buf)) ==> now[i] == was[i]
    ensures SamePayload(Decode(was), Decode(now), b, Usable(h, b))
  {
    hide IsLive, Usable, Placed, Decode;
    LiveBounds(h, buf);
    LiveBounds(h, b);
    LiveApart(h, buf, b);
    forall x | b <= x < b + Usable(h, b) && x % 4 == 0 ensures At(Decode(now), x) == At(Decode(was), x) {
      SameBytesSameWords(now, was, x);
    }
  }

  /** The first `n` bytes of a kept buffer are what they were. */
  lemma KeptBytes(was: seq<byte>, now: seq<byte>, h: Heap, h': Heap, but: set<int>, buf: int, n: int)
    requires Placed(h) && IsLive(h, buf) && |was| == |now| == h.limit && buf !in but
    requires Kept(Decode(was), Decode(now), h, h', but) && 0 <= n <= Usable(h, buf)
    ensures 0 < buf && buf + n <= |was| && now[buf..buf + n] == was[buf..buf + n]
  {
    hide IsLive, Usable, Decode, SameLive, SamePayload;
    LiveBounds(h, buf);
    PayloadBytes(was, now, h, buf);
    var u := Usable(h, buf);
    assert now[buf..buf + n] == now[buf..buf + u][..n];
    assert was[buf..buf + n] == was[buf..buf + u][..n];
  }

  /** Bytes [buf, buf + n) are within both memories and the same. */
  predicate SameBytes(was: seq<byte>, now: seq<byte>, buf: int, n: int) {
    0 <= n && 0 < buf && buf + n <= |was| && |was| == |now| && now[buf..buf + n] == was[buf..buf + n]
  }

  /** The `n` bytes at `buf` have been copied to `nbuf`. */
  predicate Moved(was: seq<byte>, now: seq<byte>, buf: int, nbuf: int, n: int) {
    && 0 <= n && 0 < buf && buf + n <= |was| && 0 < nbuf && nbuf + n <= |now|
    && now[nbuf..nbuf + n] == was[buf..buf + n]
  }

  lemma MovedFrom(was: seq<byte>, mid: seq<byte>, now: seq<byte>, buf: int, nbuf: int, n: int)
    requires Moved(mid, now, buf, nbuf, n) && |was| == |mid| && mid[buf..buf + n] == was[buf..buf + n]
    ensures Moved(was, now, buf, nbuf, n)
  {
  }

  lemma MovedStays(was: seq<byte>, mid: seq<byte>, now: seq<byte>, buf: int, nbuf: int, n: int)
    requires Moved(was, mid, buf, nbuf, n) && |mid| == |now| && now[nbuf..nbuf + n] == mid[nbuf..nbuf + n]
    ensures Moved(was, now, buf, nbuf, n)
  {
  }

  lemma AllBytesKept(was: seq<byte>, now: seq<byte>, h: Heap, h': Heap, but: set<int>)
    requires Placed(h) && |was| == |now| == h.limit && Kept(Decode(was), Decode(now), h, h', but)
    ensures forall b :: IsLive(h, b) && b !in but ==> IsLive(h', b) && SameBytes(was, now, b, Usable(h, b))
  {
    hide Placed, IsLive, Usable, Decode, Kept;
    forall b | IsLive(h, b) && b !in but
      ensures IsLive(h', b) && SameBytes(was, now, b, Usable(h, b))
    {
      LiveBounds(h, b);
      KeptBytes(was, now, h, h', but, b, Usable(h, b));
      StillLive(Decode(was), Decode(now), h, h', but, b);
    }
  }

  lemma StillLive(m: Words, m': Words, h: Heap, h': Heap, but: set<int>, buf: int)
    requires Kept(m, m', h, h', but) && buf !in but && IsLive(h, buf)
    ensures IsLive(h', buf) && Usable(h', buf) == Usable(h, buf)
  {
    hide LivePooled, LiveDirect, Usable, SamePayload;
    assert SameBuffer(h, h', buf);
  }

  /** The call-backs and the increment are no part of the picture in memory. */
  lemma ControlOnly(m: Words, h: Heap, h': Heap)
    requires Inv(h) && ImageOf(m, h)
    requires h' == h.(ctl := h'.ctl) && h'.ctl.poolLen == h.ctl.poolLen
    requires h'.ctl.acquire ==> h'.ctl.expIncr >= BH
    ensures Inv(h') && ImageOf(m, h')
  {
    hide Inv, PoolAt, DirectAt, Linked;
    CtlKeeps(h, h');
  }

  lemma CtlKept(m: Words, h: Heap, h': Heap)
    requires h'.pools == h.pools && h'.direct == h.direct
    ensures Kept(m, m, h, h', {})
  {
  }
}
