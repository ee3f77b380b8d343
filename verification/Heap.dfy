/**
 The allocator as a state machine on values: what each entry point does to the pools,
 the free list, the directly acquired blocks and the counters.  The class `Bget` does
 the same in bytes, and each of its methods is proved against the function here.
 */
module Heap {
  import opened Blocks
  import opened Pools
  import opened Memory

  /** A block taken straight from the acquisition function. */
  datatype Direct = Direct(addr: int, size: int)

  /** Which call-backs are set, the expansion increment, and the common pool length. */
  datatype Control = Control(compact: bool, acquire: bool, release: bool, expIncr: int, poolLen: int)

  datatype Stats = Stats(
    totalloc: int, numget: int, numrel: int,
    numpblk: int, numpget: int, numprel: int,
    numdget: int, numdrel: int)

  /** `head` is where the list head lives; addresses run up to `limit`. */
  datatype Heap = Heap(
    head: int, limit: int,
    pools: seq<Pool>, free: seq<int>, direct: seq<Direct>,
    ctl: Control, stats: Stats)

  // ----- the invariant

  /** No byte of [lo, hi) belongs to the allocator. */
  predicate Unowned(h: Heap, lo: int, hi: int) {
    && Apart(h.head, h.head + BFH, lo, hi)
    && (forall k :: 0 <= k < |h.pools| ==> Apart(h.pools[k].base, h.pools[k].End(), lo, hi))
    && (forall j :: 0 <= j < |h.direct| ==> Apart(h.direct[j].addr, h.direct[j].addr + h.direct[j].size, lo, hi))
  }

  predicate DirectValid(h: Heap, d: Direct) {
    && 0 < d.addr && d.addr % 4 == 0 && d.size % 4 == 0
    && BDH + SIZEQ <= d.size <= MAX_SIZE && d.addr + d.size <= h.limit
    && Apart(h.head, h.head + BFH, d.addr, d.addr + d.size)
    && (forall k :: 0 <= k < |h.pools| ==> Apart(h.pools[k].base, h.pools[k].End(), d.addr, d.addr + d.size))
  }

  /** The list head, the pools and the direct blocks share no byte; blocks tile each pool. */
  predicate Placed(h: Heap) {
    && 0 < h.head && h.head % 4 == 0 && h.head + BFH <= h.limit
    && h.limit <= WORD_SPAN && h.limit % 4 == 0
    && Arranged(h.pools, h.limit)
    && (forall k :: 0 <= k < |h.pools| ==> Apart(h.head, h.head + BFH, h.pools[k].base, h.pools[k].End()))
    && (forall j :: 0 <= j < |h.direct| ==> DirectValid(h, h.direct[j]))
    && (forall i, j :: 0 <= i < j < |h.direct| ==>
          Apart(h.direct[i].addr, h.direct[i].addr + h.direct[i].size,
                h.direct[j].addr, h.direct[j].addr + h.direct[j].size))
  }

  predicate Distinct(s: seq<int>) {
    forall i, j :: 0 <= i < j < |s| ==> s[i] != s[j]
  }

  /** The free list holds the free blocks of all pools, each once. */
  ghost predicate Listed(h: Heap) {
    && Distinct(h.free)
    && (forall f :: f in h.free <==> FreeAt(h.pools, f))
  }

  /** 0 before the first pool, the common length of all pools ever added, or -1. */
  predicate LengthsAgree(h: Heap) {
    && h.ctl.poolLen >= -1
    && (h.ctl.poolLen == 0 ==> h.pools == [])
    && (h.ctl.poolLen > 0 ==> forall k :: 0 <= k < |h.pools| ==> h.pools[k].Len() == h.ctl.poolLen)
    && (h.ctl.acquire ==> h.ctl.expIncr >= BH)
  }

  datatype Tally = Tally(used: int, count: int, free: int) {
    function Plus(t: Tally): Tally {
      Tally(used + t.used, count + t.count, free + t.free)
    }

    function Minus(t: Tally): Tally {
      Tally(used - t.used, count - t.count, free - t.free)
    }
  }

  const ZERO := Tally(0, 0, 0)

  function TallyBlock(b: Block): Tally {
    match b
    case Free(n) => Tally(0, 0, n)
    case Used(n) => Tally(n, 1, 0)
    case Sentinel => ZERO
  }

  /** Allocated bytes, allocated blocks and free bytes of a run. */
  function TallyRun(bs: seq<Block>): Tally {
    if bs == [] then ZERO else TallyBlock(bs[0]).Plus(TallyRun(bs[1..]))
  }

  function TallyPools(pools: seq<Pool>): Tally {
    if pools == [] then ZERO else TallyRun(pools[0].blocks).Plus(TallyPools(pools[1..]))
  }

  function DirectBytes(ds: seq<Direct>): int {
    if ds == [] then 0 else ds[0].size + DirectBytes(ds[1..])
  }

  /** Every counter counts something that is there. */
  predicate Counted(h: Heap) {
    var t := TallyPools(h.pools);
    && h.stats.totalloc == t.used + DirectBytes(h.direct)
    && h.stats.numget - h.stats.numrel == t.count + |h.direct|
    && h.stats.numdget - h.stats.numdrel == |h.direct|
    && h.stats.numpblk == h.stats.numpget - h.stats.numprel == |h.pools|
  }

  ghost predicate Inv(h: Heap) {
    Placed(h) && Listed(h) && LengthsAgree(h) && Counted(h)
  }

  // ----- live buffers

  /** Position of the direct block at `addr`; the number of them when there is none. */
  function DirectOf(ds: seq<Direct>, addr: int): (j: nat)
    ensures j <= |ds|
    ensures j < |ds| ==> ds[j].addr == addr
    ensures j == |ds| ==> forall i :: 0 <= i < |ds| ==> ds[i].addr != addr
  {
    if ds == [] || ds[0].addr == addr then 0 else 1 + DirectOf(ds[1..], addr)
  }

  predicate LivePooled(h: Heap, buf: int) {
    UsedAt(h.pools, buf - BH)
  }

  predicate LiveDirect(h: Heap, buf: int) {
    DirectOf(h.direct, buf - BDH) < |h.direct|
  }

  predicate IsLive(h: Heap, buf: int) {
    LivePooled(h, buf) || LiveDirect(h, buf)
  }

  /** Bytes the client may use. */
  function Usable(h: Heap, buf: int): int {
    if LivePooled(h, buf) then SizeAt(h.pools, buf - BH) - BH
    else if LiveDirect(h, buf) then h.direct[DirectOf(h.direct, buf - BDH)].size - BDH
    else 0
  }

  // ----- bget

  function Round(n: int): int {
    (n + (QUANT - 1)) / QUANT * QUANT
  }

  /** The block size that serves a request, header included. */
  function Need(request: int): int {
    Round(if request < SIZEQ then SIZEQ else request) + BH
  }

  /** Index in the first `j` list entries of the block the best-fit scan has settled on; -1 for none. */
  function BestUpTo(h: Heap, size: int, j: nat): (b: int)
    requires j <= |h.free|
    ensures -1 <= b < j
  {
    if j == 0 then -1 else
    var b := BestUpTo(h, size, j - 1);
    var n := SizeAt(h.pools, h.free[j - 1]);
    if n >= size && (b == -1 || n < SizeAt(h.pools, h.free[b])) then j - 1 else b
  }

  function Best(h: Heap, size: int): (b: int)
    ensures -1 <= b < |h.free|
  {
    BestUpTo(h, size, |h.free|)
  }

  function Remove(s: seq<int>, x: int): seq<int> {
    if s == [] then [] else if s[0] == x then s[1..] else [s[0]] + Remove(s[1..], x)
  }

  /** Serve `size` bytes from the free block at `f`: its tail if enough is left over, else all of it. */
  function Carve(h: Heap, f: int, size: int): (Heap, int) {
    var n := SizeAt(h.pools, f);
    var k, i := PoolOf(h.pools, f), BlockOf(h.pools, f);
    var got := if n - size > SIZEQ + BH then size else n;
    var stats := h.stats.(totalloc := h.stats.totalloc + got, numget := h.stats.numget + 1);
    if n - size > SIZEQ + BH then
      (h.(pools := SplicePools(h.pools, k, i, i + 1, [Free(n - size), Used(size)]), stats := stats),
       f + (n - size) + BH)
    else
      (h.(pools := SplicePools(h.pools, k, i, i + 1, [Used(n)]), free := Remove(h.free, f), stats := stats),
       f + BH)
  }

  /** Serve from the best block, if any is large enough; 0 is the null pointer. */
  function TakeBest(h: Heap, size: int): (Heap, int) {
    var b := Best(h, size);
    if b >= 0 then Carve(h, h.free[b], size) else (h, 0)
  }

  function AddDirect(h: Heap, addr: int, size: int): Heap {
    h.(direct := h.direct + [Direct(addr, size)],
       stats := h.stats.(totalloc := h.stats.totalloc + size,
                         numget := h.stats.numget + 1,
                         numdget := h.stats.numdget + 1))
  }

  // ----- bpool

  /** A length with its low bits masked off. */
  function Mask(len: int): int {
    len - len % 4
  }

  function AddPool(h: Heap, base: int, len: int): Heap {
    var n := Mask(len);
    h.(pools := h.pools + [Pool(base, [Free(n - BH), Sentinel])],
       free := h.free + [base],
       ctl := h.ctl.(poolLen := if h.ctl.poolLen == 0 then n else if n != h.ctl.poolLen then -1 else h.ctl.poolLen),
       stats := h.stats.(numpget := h.stats.numpget + 1, numpblk := h.stats.numpblk + 1))
  }

  /** What `bpool` asks of its caller: aligned storage nobody uses, with room for one free block. */
  predicate PoolRegion(h: Heap, base: int, len: int) {
    && 0 < base && base % 4 == 0
    && BFH + BH <= Mask(len) && len <= MAX_SIZE
    && base + Mask(len) <= h.limit
    && Unowned(h, base, base + Mask(len))
  }

  // ----- brel

  /** The run of blocks that a release of block i joins into one: i and its free neighbours. */
  function JoinFrom(bs: seq<Block>, i: nat): (lo: nat)
    ensures lo <= i
  {
    if 0 < i <= |bs| && bs[i - 1].Free? then i - 1 else i
  }

  function JoinTo(bs: seq<Block>, i: nat): (hi: nat)
    requires i < |bs|
    ensures i < hi <= |bs|
  {
    if i + 1 < |bs| && bs[i + 1].Free? then i + 2 else i + 1
  }

  function Joined(bs: seq<Block>, i: nat): seq<Block>
    requires i < |bs|
  {
    bs[JoinFrom(bs, i)..JoinTo(bs, i)]
  }

  /** Where the joined block starts. */
  function JoinAddr(bs: seq<Block>, i: nat, a: int): int
    requires i < |bs|
  {
    if JoinFrom(bs, i) < i then a - bs[i - 1].Size() else a
  }

  /** The list after the join: a block with no free block before it goes to the tail, and a
      free block after it is unlinked. */
  function JoinList(free: seq<int>, bs: seq<Block>, i: nat, a: int): seq<int>
    requires i < |bs|
  {
    var free1 := if JoinFrom(bs, i) < i then free else free + [a];
    if JoinTo(bs, i) > i + 1 then Remove(free1, a + bs[i].Size()) else free1
  }

  /** Release the block at `a` without handing back its pool. */
  function JoinBlock(h: Heap, a: int): Heap {
    var k, i := PoolOf(h.pools, a), BlockOf(h.pools, a);
    if k < |h.pools| && i < |h.pools[k].blocks| then
      var bs := h.pools[k].blocks;
      h.(pools := SplicePools(h.pools, k, JoinFrom(bs, i), JoinTo(bs, i), [Free(Sum(Joined(bs, i)))]),
         free := JoinList(h.free, bs, i, a),
         stats := h.stats.(totalloc := h.stats.totalloc - bs[i].Size(), numrel := h.stats.numrel + 1))
    else h
  }

  /** Unlink the free block at `f` and hand back pool k. */
  function DropPool(h: Heap, k: nat, f: int): Heap
    requires k < |h.pools|
  {
    h.(pools := Dropped(h.pools, k),
       free := Remove(h.free, f),
       stats := h.stats.(numprel := h.stats.numprel + 1, numpblk := h.stats.numpblk - 1))
  }

  /** The test for handing back a pool.  The subtraction is unsigned in the source. */
  predicate WholePool(h: Heap, size: int) {
    h.ctl.release && size == ToWord(h.ctl.poolLen - BH)
  }

  function RelPooled(h: Heap, a: int): Heap {
    var k, i := PoolOf(h.pools, a), BlockOf(h.pools, a);
    var h1 := JoinBlock(h, a);
    if k < |h.pools| && k < |h1.pools| && i < |h.pools[k].blocks| then
      var bs := h.pools[k].blocks;
      if WholePool(h1, Sum(Joined(bs, i))) then DropPool(h1, k, JoinAddr(bs, i, a)) else h1
    else h1
  }

  function RelDirect(h: Heap, j: nat): Heap
    requires j < |h.direct|
  {
    h.(direct := h.direct[..j] + h.direct[j + 1..],
       stats := h.stats.(totalloc := h.stats.totalloc - h.direct[j].size,
                         numrel := h.stats.numrel + 1,
                         numdrel := h.stats.numdrel + 1))
  }

  function Rel(h: Heap, buf: int): Heap {
    if LivePooled(h, buf) then RelPooled(h, buf - BH)
    else if LiveDirect(h, buf) then RelDirect(h, DirectOf(h.direct, buf - BDH))
    else h
  }

  /** What `brel` asks of its caller. */
  predicate CanRelease(h: Heap, buf: int) {
    LivePooled(h, buf) || (LiveDirect(h, buf) && h.ctl.release)
  }

  // ----- calls, call-backs, and the whole of bget

  /**
   One action of a client: a call of an entry point (`bget` or `bgetz` if `clear`), or a write into
   a buffer it holds.  `plan` is what the compaction function does on its first, second, ... call
   (it gives up after that), and `acquired` is what the acquisition function returns if it is called.
   */
  datatype Call =
    | CallGet(request: int, plan: seq<Answer>, acquired: int, clear: bool)
    | CallGetr(buf: int, request: int, plan: seq<Answer>, acquired: int)
    | CallRel(buf: int)
    | CallPool(base: int, len: int)
    | CallCtl(compact: bool, acquire: bool, release: bool, poolIncr: int)
    | CallWrite(buf: int, offset: int, data: seq<byte>)

  /** One call of the compaction function: what it does as a client, and whether it returns nonzero. */
  datatype Answer = Answer(calls: seq<Call>, again: bool)

  /** Does the request fit a single expansion block? */
  predicate FitsExpansion(h: Heap, size: int) {
    size <= h.ctl.expIncr - BH
  }

  function Expand(h: Heap, size: int, acquired: int): (Heap, int) {
    if !h.ctl.acquire || acquired == 0 then (h, 0)
    else if FitsExpansion(h, size) then TakeBest(AddPool(h, acquired, h.ctl.expIncr), size)
    else (AddDirect(h, acquired, size + (BDH - BH)), acquired + BDH)
  }

  /** What the acquisition function may answer: null, or storage of the size asked for. */
  predicate AcquiredLegal(h: Heap, size: int, acquired: int) {
    h.ctl.acquire && acquired != 0 ==>
      if FitsExpansion(h, size) then PoolRegion(h, acquired, h.ctl.expIncr)
      else
        var n := size + (BDH - BH);
        && 0 < acquired && acquired % 4 == 0 && acquired + n <= h.limit
        && Unowned(h, acquired, acquired + n)
  }

  function Get(h: Heap, size: int, plan: seq<Answer>, acquired: int): (Heap, int)
    decreases plan
  {
    if Best(h, size) >= 0 then TakeBest(h, size)
    else if h.ctl.compact && plan != [] then
      var h1 := Run(h, plan[0].calls);
      if plan[0].again then Get(h1, size, plan[1..], acquired) else Expand(h1, size, acquired)
    else Expand(h, size, acquired)
  }

  function Do(h: Heap, c: Call): Heap
    decreases c
  {
    match c
    case CallGet(r, plan, acquired, _) => Get(h, Need(r), plan, acquired).0
    case CallGetr(buf, r, plan, acquired) =>
      var (h1, nbuf) := Get(h, Need(r), plan, acquired);
      if nbuf == 0 || buf == 0 then h1 else Rel(h1, buf)
    case CallRel(buf) => Rel(h, buf)
    case CallPool(base, len) => AddPool(h, base, len)
    case CallCtl(compact, acquire, release, incr) =>
      h.(ctl := Control(compact, acquire, release, incr, h.ctl.poolLen))
    case CallWrite(_, _, _) => h
  }

  function Run(h: Heap, calls: seq<Call>): Heap
    decreases calls
  {
    if calls == [] then h else Run(Do(h, calls[0]), calls[1..])
  }

  // ----- which buffers that touches

  /** Buffers that a call releases or hands out and, if `writes`, those a client writes into. */
  function Touched(h: Heap, c: Call, writes: bool): set<int>
    decreases c
  {
    match c
    case CallGet(r, plan, acquired, _) => PlanTouched(h, Need(r), plan, writes) + {Get(h, Need(r), plan, acquired).1}
    case CallGetr(buf, r, plan, acquired) =>
      var nbuf := Get(h, Need(r), plan, acquired).1;
      PlanTouched(h, Need(r), plan, writes) + {nbuf} + (if nbuf == 0 then {} else {buf})
    case CallRel(buf) => {buf}
    case CallPool(_, _) => {}
    case CallCtl(_, _, _, _) => {}
    case CallWrite(buf, _, _) => if writes then {buf} else {}
  }

  function RunTouched(h: Heap, calls: seq<Call>, writes: bool): set<int>
    decreases calls
  {
    if calls == [] then {} else Touched(h, calls[0], writes) + RunTouched(Do(h, calls[0]), calls[1..], writes)
  }

  /** The same for the compaction function, until `bget` finds a block or gives up compacting. */
  function PlanTouched(h: Heap, size: int, plan: seq<Answer>, writes: bool): set<int>
    decreases plan
  {
    if Best(h, size) >= 0 || !h.ctl.compact || plan == [] then {}
    else
      RunTouched(h, plan[0].calls, writes)
      + (if plan[0].again then PlanTouched(Run(h, plan[0].calls), size, plan[1..], writes) else {})
  }

  // ----- what clients and call-backs must see to

  /** Every call-back that is reached keeps its side of the bargain. */
  predicate GetLegal(h: Heap, size: int, plan: seq<Answer>, acquired: int)
    decreases plan
  {
    if Best(h, size) >= 0 then true
    else if h.ctl.compact && plan != [] then
      var h1 := Run(h, plan[0].calls);
      && RunLegal(h, plan[0].calls)
      && (if plan[0].again then GetLegal(h1, size, plan[1..], acquired) else AcquiredLegal(h1, size, acquired))
    else AcquiredLegal(h, size, acquired)
  }

  /**
   A buffer to be reallocated is live, and the compaction function does not release it; when the
   new buffer has been found, it can be released.
   */
  predicate Legal(h: Heap, c: Call)
    decreases c
  {
    match c
    case CallGet(r, plan, acquired, _) => Requestable(r) && GetLegal(h, Need(r), plan, acquired)
    case CallGetr(buf, r, plan, acquired) =>
      && Requestable(r) && GetLegal(h, Need(r), plan, acquired)
      && (buf != 0 ==>
            var (h1, nbuf) := Get(h, Need(r), plan, acquired);
            && IsLive(h, buf) && buf !in PlanTouched(h, Need(r), plan, false)
            && (nbuf != 0 ==> CanRelease(h1, buf)))
    case CallRel(buf) => CanRelease(h, buf)
    case CallPool(base, len) => PoolRegion(h, base, len)
    case CallCtl(_, acquire, _, incr) => acquire ==> BH <= incr
    case CallWrite(buf, offset, data) => IsLive(h, buf) && 0 <= offset && offset + |data| <= Usable(h, buf)
  }

  predicate RunLegal(h: Heap, calls: seq<Call>)
    decreases calls
  {
    calls != [] ==> Legal(h, calls[0]) && RunLegal(Do(h, calls[0]), calls[1..])
  }

  const MAX_REQUEST := MAX_SIZE - BDH - QUANT

  /** Requests for which no size computed by `bget` overflows a `bufsize`. */
  predicate Requestable(request: int) {
    0 < request <= MAX_REQUEST
  }
}
