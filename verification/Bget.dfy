/**
 The allocator itself: the static variables of bget.c as fields, memory as an array of
 bytes, and each entry point as a method that reads and writes headers in place.  Every
 method is proved against the function of module `Heap` that says what it does.
 */
module Allocator {
  import opened Memory
  import opened Blocks
  import opened Pools
  import opened Heap
  import opened HeapFacts
  import opened Image
  import opened Live
  import opened Frames
  import opened Joins
  import opened Growth
  import opened Fit
  import opened Serve
  import opened Runs
  import opened Validate
  import opened Client
  import opened Contents
  import opened Outcomes

  class Bget {
    const mem: array<byte>
    const head: int          // the address of `freelist`

    var compfcn: bool        // is there a compaction function?
    var acqfcn: bool         // is there an acquisition function?
    var relfcn: bool         // is there a release function?
    var expIncr: int
    var poolLen: int

    var totalloc: int
    var numget: int
    var numrel: int
    var numpblk: int
    var numpget: int
    var numprel: int
    var numdget: int
    var numdrel: int

    ghost var pools: seq<Pool>
    ghost var free: seq<int>
    ghost var direct: seq<Direct>

    ghost function Abs(): Heap
      reads this
    {
      Heap(head, mem.Length, pools, free, direct,
           Control(compfcn, acqfcn, relfcn, expIncr, poolLen),
           Stats(totalloc, numget, numrel, numpblk, numpget, numprel, numdget, numdrel))
    }

    ghost function W(): Words
      reads mem
    {
      Decode(mem[..])
    }

    ghost predicate Valid()
      reads this, mem
    {
      Inv(Abs()) && ImageOf(W(), Abs())
    }

    /** The state before the first call: an empty list, no pools, all counters zero. */
    constructor (memory: array<byte>, listHead: int)
      requires 0 < listHead && listHead % 4 == 0 && listHead + BFH <= memory.Length
      requires memory.Length <= WORD_SPAN && memory.Length % 4 == 0
      modifies memory
      ensures Valid() && mem == memory && head == listHead
      ensures pools == [] && free == [] && direct == [] && poolLen == 0
      ensures !compfcn && !acqfcn && !relfcn
      ensures Abs().stats == Stats(0, 0, 0, 0, 0, 0, 0, 0)
    {
      mem, head := memory, listHead;
      compfcn, acqfcn, relfcn := false, false, false;
      expIncr, poolLen := 0, 0;
      totalloc, numget, numrel := 0, 0, 0;
      numpblk, numpget, numprel, numdget, numdrel := 0, 0, 0, 0, 0;
      pools, free, direct := [], [], [];
      new;
      hide Decode, Inv, ImageOf, Start;
      Store(mem, head + FLINK, head);
      Store(mem, head + BLINK, head);
      StartHolds(head, mem.Length);
      StartImage(W(), head, mem.Length);
      StartIs(head, mem.Length);
    }

    // ----- the list

    /** The two stores that take the block at `b` out of the list. */
    method Unlink(b: int)
      requires 0 < b && b % 4 == 0 && b + BFH <= mem.Length
      requires var prev, next := At(W(), b + BLINK), At(W(), b + FLINK);
               && prev % 4 == 0 && 0 <= prev && prev + BFH <= mem.Length && Far(prev, b)
               && next % 4 == 0 && 0 <= next && next + BFH <= mem.Length
      modifies mem
      ensures W() == Unlinked(old(W()), old(At(W(), b + BLINK)), old(At(W(), b + FLINK)))
    {
      hide Decode;
      var blink := Load(mem, b + BLINK);
      var flink := Load(mem, b + FLINK);
      Store(mem, blink + FLINK, flink);
      flink := Load(mem, b + FLINK);
      blink := Load(mem, b + BLINK);
      Store(mem, flink + BLINK, blink);
    }

    /** The same, after checking that the neighbours in the list point back at `b`. */
    method UnlinkChecked(b: int)
      requires NodeAddr(b, mem.Length)
      requires var prev, next := At(W(), b + BLINK), At(W(), b + FLINK);
               && NodeAddr(prev, mem.Length) && NodeAddr(next, mem.Length) && Far(prev, b)
               && At(W(), prev + FLINK) == b && At(W(), next + BLINK) == b
      modifies mem
      ensures W() == Unlinked(old(W()), old(At(W(), b + BLINK)), old(At(W(), b + FLINK)))
    {
      hide Decode, At, Unlinked;
      CheckLinks(b);
      Unlink(b);
    }

    /** The asserts that the neighbours in the list point back at `b`. */
    method CheckLinks(b: int)
      requires NodeAddr(b, mem.Length)
      requires var prev, next := At(W(), b + BLINK), At(W(), b + FLINK);
               && NodeAddr(prev, mem.Length) && NodeAddr(next, mem.Length)
               && At(W(), prev + FLINK) == b && At(W(), next + BLINK) == b
    {
      hide Decode, At;
      var blink := Load(mem, b + BLINK);
      var forward := Load(mem, blink + FLINK);
      assert forward == b;
      var flink := Load(mem, b + FLINK);
      var backward := Load(mem, flink + BLINK);
      assert backward == b;
    }

    /** The four stores that put the block at `b` at the tail of the list. */
    method LinkTail(b: int)
      requires 0 < b && b % 4 == 0 && b + BFH <= mem.Length <= WORD_SPAN
      requires 0 < head && head % 4 == 0 && head + BFH <= mem.Length && Far(head, b)
      requires var prev := At(W(), head + BLINK);
               prev % 4 == 0 && 0 <= prev && prev + BFH <= mem.Length
      modifies mem
      ensures W() == Appended(old(W()), head, old(At(W(), head + BLINK)), b)
    {
      hide Decode;
      Store(mem, b + FLINK, head);
      var blink := Load(mem, head + BLINK);
      Store(mem, b + BLINK, blink);
      Store(mem, head + BLINK, b);
      blink := Load(mem, b + BLINK);
      Store(mem, blink + FLINK, b);
    }

    /** The same, after checking that the list is closed at both ends. */
    method LinkTailChecked(b: int)
      requires NodeAddr(b, mem.Length) && NodeAddr(head, mem.Length) && Far(head, b)
      requires var tail, first := At(W(), head + BLINK), At(W(), head + FLINK);
               && NodeAddr(tail, mem.Length) && At(W(), tail + FLINK) == head
               && NodeAddr(first, mem.Length) && At(W(), first + BLINK) == head
      modifies mem
      ensures W() == Appended(old(W()), head, old(At(W(), head + BLINK)), b)
    {
      hide Decode, At, Appended;
      var blink := Load(mem, head + BLINK);
      var forward := Load(mem, blink + FLINK);
      assert forward == head;
      var flink := Load(mem, head + FLINK);
      var backward := Load(mem, flink + BLINK);
      assert backward == head;
      LinkTail(b);
    }

    // ----- brel

    /** The heap `h` is what memory shows, and `a` is the header of a buffer to be released. */
    ghost predicate Releasing(h: Heap, a: int)
      reads this, mem
    {
      && h.head == head && h.limit == mem.Length
      && Inv(h) && ImageOf(W(), h) && UsedAt(h.pools, a)
    }

    /** Join the block at `a` to a free block before it, or put it on the list. */
    method JoinLeft(a: int, ghost h: Heap) returns (b: int)
      requires Releasing(h, a)
      modifies mem
      ensures b == RunStart(h, a) && W() == LeftWords(old(W()), h, a)
    {
      hide Decode, LeftFree, RunStart, Inv, ImageOf, UsedAt, SizeAt;
      LeftFacts(W(), h, a);
      var size := Load(mem, a + BSIZE);
      var bsize := ToSigned(size);
      var prevfree := Load(mem, a + PREVFREE);
      if prevfree != 0 {
        b := a - prevfree;
        var left := Load(mem, b + BSIZE);
        assert left == prevfree;
        Store(mem, b + BSIZE, ToWord(ToSigned(left) - bsize));
      } else {
        b := a;
        LinkTailChecked(b);
        Store(mem, b + BSIZE, ToWord(-bsize));
      }
    }

    /** Join the block at `b` to a free block after it, taking that block off the list. */
    method JoinRight(b: int, ghost h: Heap, ghost a: int, ghost m0: Words) returns (bn: int)
      requires h.head == head && h.limit == mem.Length && Inv(h) && ImageOf(m0, h) && UsedAt(h.pools, a)
      requires b == RunStart(h, a) && Joining(m0, W(), h, b, a + SizeAt(h.pools, a), LeftList(h, a))
      modifies mem
      ensures bn == b + RunSize(h, a) && W() == RightWords(old(W()), h, a)
    {
      hide Decode, RunStart, RunSize, RightFree, LeftList, Joining, Inv, ImageOf, UsedAt, SizeAt, Linked, Circle,
           Placed, Listed;
      RightFacts(m0, W(), h, a);
      var size := Load(mem, b + BSIZE);
      bn := b + size;
      var w := Load(mem, bn + BSIZE);
      var nsize := ToSigned(w);
      if nsize > 0 {
        RightLinks(W(), h, a) by {
          InvParts(h);
          JoiningLinked(m0, W(), h, b, a + SizeAt(h.pools, a), LeftList(h, a));
        }
        var tag := Load(mem, bn + nsize + PREVFREE);
        assert tag == nsize;
        UnlinkChecked(bn);
        Store(mem, b + BSIZE, size + nsize);
        bn := b + (size + nsize);
      }
    }

    /** The three phases of a release: left, right, seal. */
    method Join(a: int, ghost h: Heap) returns (b: int)
      requires Releasing(h, a)
      modifies mem
      ensures b == RunStart(h, a) && ImageOf(W(), JoinBlock(h, a))
      ensures Only(old(W()), W(), b, b + RunSize(h, a), Nodes(h))
    {
      hide Decode, LeftFree, RunStart, RunSize, Inv, ImageOf, UsedAt, SizeAt, Linked, Circle, Placed, Listed, JoinBlock,
           Joining, LeftList, LeftWords, RightWords, Only, Nodes;
      ghost var m0 := W();
      b := JoinLeft(a, h);
      InvParts(h);
      LeftJoins(m0, h, a);
      RightJoins(m0, W(), h, a);
      var bn := JoinRight(b, h, a, m0);
      Seal(b, bn, h, a, m0);
    }

    /** The asserts on the header of a pooled buffer and on the one after it; minus its size. */
    method CheckUsed(a: int, ghost h: Heap) returns (bsize: int)
      requires Releasing(h, a)
      ensures bsize == -SizeAt(h.pools, a) && 0 <= h.stats.totalloc + bsize
    {
      hide Decode, LeftFree, RunStart, Inv, ImageOf, UsedAt, SizeAt, At;
      UsedFacts(W(), h, a);
      UsedTotal(h, a);
      var w := Load(mem, a + BSIZE);
      bsize := ToSigned(w);
      assert bsize < 0;
      var next := Load(mem, a - bsize + PREVFREE);
      assert next == 0;
    }

    /** Release the pooled buffer whose header is at `a`; the joined block is at `b`. */
    method JoinPooled(a: int) returns (b: int)
      requires Valid() && UsedAt(pools, a)
      modifies mem, `numrel, `totalloc, `pools, `free
      ensures Abs() == JoinBlock(old(Abs()), a) && b == RunStart(old(Abs()), a)
      ensures Valid() && Kept(old(W()), W(), old(Abs()), Abs(), {a + BH})
    {
      hide Decode, RunStart, RunSize, Inv, ImageOf, UsedAt, SizeAt, JoinBlock, Kept, Only, Nodes;
      ghost var h, m0 := Abs(), W();
      numrel := numrel + 1;
      var bsize := CheckUsed(a, h);
      totalloc := totalloc + bsize;
      assert totalloc >= 0;
      b := Join(a, h);
      JoinKept(m0, W(), h, a);
      JoinKeeps(h, a);
      pools, free := JoinBlock(h, a).pools, JoinBlock(h, a).free;
      JoinStats(h, a);
    }

    /** Wipe the joined block and tell the header after it. */
    method Seal(b: int, bn: int, ghost h: Heap, ghost a: int, ghost m0: Words)
      requires h.head == head && h.limit == mem.Length && Inv(h) && ImageOf(m0, h) && UsedAt(h.pools, a)
      requires b == RunStart(h, a) && bn == b + RunSize(h, a)
      requires Joining(m0, W(), h, b, b + RunSize(h, a), JoinBlock(h, a).free)
      modifies mem
      ensures ImageOf(W(), JoinBlock(h, a)) && Only(m0, W(), b, b + RunSize(h, a), Nodes(h))
    {
      hide Decode, LeftFree, RunStart, RunSize, Inv, ImageOf, UsedAt, SizeAt, Linked, Circle, Placed, Listed,
           JoinBlock, Full, Only, Nodes, FreeAt, SealWords;
      ghost var m := W();
      DecodeFull(mem[..]) by { LimitAligned(h); }
      SealJoins(m0, m, h, a);
      SealFacts(SealWords(m, b, RunSize(h, a)), h, a);
      SealStores(b, bn, RunSize(h, a));
    }

    /** The wipe of the joined block of `n` bytes at `b`, and the tag behind it. */
    method SealStores(b: int, bn: int, ghost n: int)
      requires NodeAddr(b, mem.Length) && bn == b + n && BFH <= n <= MAX_SIZE && n % 4 == 0
      requires bn % 4 == 0 && bn + BH <= mem.Length
      requires At(W(), b + BSIZE) == n && ToSigned(At(SealWords(W(), b, n), bn + BSIZE)) < 0
      modifies mem
      ensures W() == SealWords(old(W()), b, n)
    {
      hide Decode;
      var size := Load(mem, b + BSIZE);
      Memset(mem, b + BFH, 0x55, size - BFH);
      var w := Load(mem, bn + BSIZE);
      assert ToSigned(w) < 0;
      Store(mem, bn + PREVFREE, size);
    }

    /** The asserts on a free block that fills pool k: no tag before it, and the sentinel right behind it. */
    method CheckEmpty(b: int, ghost h: Heap, ghost k: nat)
      requires h.limit == mem.Length && Inv(h) && ImageOf(W(), h)
      requires k < |h.pools| && Empty(h.pools[k]) && h.pools[k].base == b
    {
      hide Decode, Inv, ImageOf, SizeAt, Placed, Listed, At, Empty;
      InvParts(h);
      DropFacts(W(), h, k);
      var size := Load(mem, b + BSIZE);
      var tag := Load(mem, b + PREVFREE);
      assert tag == 0;
      var sentinel := Load(mem, b + size + BSIZE);
      assert ToSigned(sentinel) == ESENT;
      var back := Load(mem, b + size + PREVFREE);
      assert back == size;
    }

    /** Check that the free block at `b` fills pool k, and unlink it. */
    method UnlinkPool(b: int, ghost h: Heap, ghost k: nat)
      requires h.head == head && h.limit == mem.Length && Inv(h) && ImageOf(W(), h)
      requires k < |h.pools| && Empty(h.pools[k]) && h.pools[k].base == b
      modifies mem
      ensures Inv(DropPool(h, k, b)) && ImageOf(W(), DropPool(h, k, b)) && Kept(old(W()), W(), h, DropPool(h, k, b), {})
      ensures W() == Unlinked(old(W()), old(At(W(), b + BLINK)), old(At(W(), b + FLINK)))
    {
      hide Decode, Inv, ImageOf, SizeAt, Linked, Circle, Placed, Listed, Kept, Unlinked, DropPool, At, Empty;
      CheckEmpty(b, h, k);
      InvParts(h);
      assert b in h.free && NodeAddr(b, mem.Length) by { DropFacts(W(), h, k); }
      LinkedOf(W(), h);
      DropLinks(W(), h, b);
      DropImage(W(), h, k);
      Unlink(b);
    }

    /** Take the free block that fills pool k off the list and give the pool back. */
    method HandBack(b: int, ghost k: nat)
      requires Valid() && k < |pools| && Empty(pools[k]) && pools[k].base == b
      modifies mem, `numprel, `numpblk, `pools, `free
      ensures Abs() == DropPool(old(Abs()), k, b)
      ensures W() == Unlinked(old(W()), old(At(W(), b + BLINK)), old(At(W(), b + FLINK)))
      ensures Valid() && Kept(old(W()), W(), old(Abs()), Abs(), {})
    {
      hide Decode, Inv, ImageOf, Kept, Empty, Dropped, Remove;
      ghost var h := Abs();
      UnlinkPool(b, h, k);
      numprel := numprel + 1;
      numpblk := numpblk - 1;
      assert numpblk == numpget - numprel by { CountedOf(h); }
      free := Remove(free, b);
      pools := Dropped(pools, k);
    }

    /** The size recorded for a directly acquired buffer. */
    method DirectSize(buf: int, ghost h: Heap) returns (tsize: int)
      requires h.limit == mem.Length && Inv(h) && ImageOf(W(), h) && LiveDirect(h, buf)
      ensures tsize == h.direct[DirectOf(h.direct, buf - BDH)].size && 0 <= h.stats.totalloc - tsize
    {
      hide Decode, Inv, ImageOf, Placed, Listed, LengthsAgree, Counted, DirectOf, LivePooled, At;
      InvParts(h);
      ReadDirect(W(), h, buf);
      TotallocNonNegative(h, buf);
      var prevfree := Load(mem, buf - BH + PREVFREE);
      assert prevfree == 0;
      tsize := Load(mem, buf - BDH + TSIZE);
    }

    /** Wipe a directly acquired buffer. */
    method WipeDirect(buf: int, tsize: int, ghost h: Heap)
      requires h.limit == mem.Length && Inv(h) && ImageOf(W(), h) && LiveDirect(h, buf)
      requires tsize == h.direct[DirectOf(h.direct, buf - BDH)].size
      modifies mem
      ensures var h' := RelDirect(h, DirectOf(h.direct, buf - BDH));
              Inv(h') && ImageOf(W(), h') && Kept(old(W()), W(), h, h', {buf})
      ensures forall i :: 0 <= i < mem.Length ==>
                mem[i] == if buf <= i < buf + (tsize - BDH) then 0x55 else old(mem[i])
    {
      hide Decode, Inv, ImageOf, Kept, Placed, Listed, LengthsAgree, Counted, DirectOf, LivePooled, At, Fill, RelDirect;
      InvParts(h);
      LimitAligned(h);
      ReadDirect(W(), h, buf);
      DirectReleased(W(), h, buf, WIPED);
      Memset(mem, buf, 0x55, tsize - BDH);
    }

    /** Release a directly acquired buffer. */
    method ReleaseDirect(buf: int)
      requires Valid() && LiveDirect(Abs(), buf) && relfcn
      modifies mem, `numrel, `numdrel, `totalloc, `direct
      ensures Abs() == RelDirect(old(Abs()), DirectOf(old(direct), buf - BDH))
      ensures var n := old(direct)[DirectOf(old(direct), buf - BDH)].size - BDH;
              forall i :: 0 <= i < mem.Length ==> mem[i] == if buf <= i < buf + n then 0x55 else old(mem[i])
      ensures Valid() && Kept(old(W()), W(), old(Abs()), Abs(), {buf})
    {
      hide Decode, Inv, ImageOf, Kept, DirectOf, LivePooled;
      ghost var h := Abs();
      ghost var j := DirectOf(h.direct, buf - BDH);
      numrel := numrel + 1;
      var tsize := DirectSize(buf, h);
      totalloc := totalloc - tsize;
      assert totalloc >= 0;
      numdrel := numdrel + 1;
      WipeDirect(buf, tsize, h);
      assert relfcn;
      direct := direct[..j] + direct[j + 1..];
    }

    /** Release a buffer. */
    method Brel(buf: int)
      requires Valid() && CanRelease(Abs(), buf)
      modifies mem, this
      ensures Abs() == Rel(old(Abs()), buf)
      ensures !IsLive(Abs(), buf)
      ensures LiveDirect(old(Abs()), buf) ==>
                forall i :: 0 <= i < mem.Length ==>
                  mem[i] == if buf <= i < buf + Usable(old(Abs()), buf) then 0x55 else old(mem[i])
      ensures Valid() && Kept(old(W()), W(), old(Abs()), Abs(), {buf})
    {
      hide Decode, Inv, ImageOf, SizeAt, Linked, Circle, Placed, Listed, DirectOf, RelPooled, RelDirect, UsedAt,
           JoinBlock, RunStart, RunSize, DropPool, SameLive, SamePayload, PoolOf;
      Released(Abs(), buf);
      ghost var h, m0 := Abs(), W();
      InvParts(h);
      LimitAligned(h);
      LiveBounds(h, buf);
      assert buf != 0;
      var bsize := ReadSize(buf);
      if bsize == 0 {
        ReleaseDirect(buf);
      } else {
        RelPooledCases(h, buf - BH);
        var b := JoinPooled(buf - BH);
        ghost var h1, m1 := Abs(), W();
        var size := ReadFree(b);
        if relfcn && size == ToWord(poolLen - BH) {
          HandBack(b, PoolOf(h.pools, buf - BH));
          KeptTrans(m0, m1, W(), h, h1, Abs(), {buf}, {});
          assert {buf} + {} == {buf};
        }
      }
    }

    /** The `bsize` field of a live buffer: zero for a direct one, negative for a pooled one. */
    method ReadSize(buf: int) returns (bsize: int)
      requires Valid() && IsLive(Abs(), buf)
      ensures bsize == if LivePooled(Abs(), buf) then -SizeAt(pools, buf - BH) else 0
      ensures LivePooled(Abs(), buf) ==> bsize <= -BFH
      ensures LiveDirect(Abs(), buf) <==> bsize == 0
    {
      hide Decode, ImageOf, Linked, Circle, DirectOf, All, PoolOf, Placed, Listed, LengthsAgree, Counted;
      SizeFacts(W(), Abs(), buf);
      var w := Load(mem, buf - BH + BSIZE);
      bsize := ToSigned(w);
    }

    method ReadFree(b: int) returns (size: int)
      requires Valid() && b in free
      ensures size == SizeAt(pools, b)
    {
      hide Decode, ImageOf, Linked, Circle, DirectOf, All, PoolOf, Placed, Listed, LengthsAgree, Counted;
      AfterFree(W(), Abs(), b);
      size := Load(mem, b + BSIZE);
    }

    // ----- bpool

    /** Headers, links and wiping of a new pool of `n` bytes at `buf`. */
    method LayPool(buf: int, n: int)
      requires NodeAddr(buf, mem.Length) && NodeAddr(head, mem.Length) && Far(head, buf)
      requires BFH + BH <= n <= MAX_SIZE && n % 4 == 0 && buf + n <= mem.Length
      requires var m1 := W()[buf + PREVFREE := 0];
               var tail, first := At(m1, head + BLINK), At(m1, head + FLINK);
               && NodeAddr(tail, mem.Length) && At(m1, tail + FLINK) == head
               && NodeAddr(first, mem.Length) && At(m1, first + BLINK) == head
      modifies mem
      ensures W() == PoolWords(old(W()), head, buf, n)
    {
      hide Decode, At, Fill, Appended;
      Store(mem, buf + PREVFREE, 0);
      LinkTailChecked(buf);
      LayBody(buf, n - BH);
    }

    /** The size, the wiping and the sentinel of a new pool. */
    method LayBody(buf: int, len: int)
      requires 0 < buf && buf % 4 == 0 && BFH <= len <= MAX_SIZE && len % 4 == 0
      requires buf + len + BH <= mem.Length
      modifies mem
      ensures W() == Fill(old(W())[buf + BSIZE := len], buf + BFH, buf + len, WIPED)
                       [buf + len + PREVFREE := len][buf + len + BSIZE := ToWord(ESENT)]
    {
      hide Decode, Fill, At;
      Store(mem, buf + BSIZE, len);
      Memset(mem, buf + BFH, 0x55, len - BFH);
      LaySentinel(buf + len, len);
    }

    /** The dummy buffer that ends a pool. */
    method LaySentinel(bn: int, len: int)
      requires 0 < bn && bn % 4 == 0 && bn + BH <= mem.Length && 0 <= len <= MAX_SIZE
      modifies mem
      ensures W() == old(W())[bn + PREVFREE := len][bn + BSIZE := ToWord(ESENT)]
    {
      hide Decode;
      Store(mem, bn + PREVFREE, len);
      Store(mem, bn + BSIZE, ToWord(ESENT));
    }

    /** A new pool in memory, as part of the heap. */
    method LayImage(buf: int, n: int, ghost len: int, ghost h: Heap)
      requires h.head == head && h.limit == mem.Length && Inv(h) && ImageOf(W(), h)
      requires PoolRegion(h, buf, len) && n == Mask(len)
      modifies mem
      ensures var h' := AddPool(h, buf, len); Inv(h') && ImageOf(W(), h') && Kept(old(W()), W(), h, h', {})
    {
      hide Decode, Inv, ImageOf, Kept, Unowned, Full, PoolWords, At, AddPool, Mask, NodeAddr;
      LimitAligned(h);
      DecodeFull(mem[..]);
      PoolFacts(W(), h, buf, len);
      PoolImage(W(), h, buf, len);
      LayPool(buf, n);
    }

    /** Note the length of a new pool, and count it. */
    method CountPool(n: int)
      requires numpblk == numpget - numprel
      modifies `poolLen, `numpget, `numpblk
      ensures poolLen == if old(poolLen) == 0 then n else if n != old(poolLen) then -1 else old(poolLen)
      ensures numpget == old(numpget) + 1 && numpblk == old(numpblk) + 1
    {
      if poolLen == 0 {
        poolLen := n;
      } else if n != poolLen {
        poolLen := -1;
      }
      numpget := numpget + 1;
      numpblk := numpblk + 1;
      assert numpblk == numpget - numprel;
    }

    /** Add a region of memory to the pools. */
    method Bpool(buf: int, len: int)
      requires Valid() && PoolRegion(Abs(), buf, len)
      modifies mem, `poolLen, `numpget, `numpblk, `pools, `free
      ensures Abs() == AddPool(old(Abs()), buf, len)
      ensures pools == old(pools) + [Pool(buf, [Free(len - len % 4 - 8), Sentinel])] && free == old(free) + [buf]
      ensures Valid() && Kept(old(W()), W(), old(Abs()), Abs(), {})
    {
      hide Decode, Inv, ImageOf, Kept, PoolRegion;
      ghost var h := Abs();
      PoolAdded(h, buf, len);
      CountedOf(h);
      var n := len - len % 4;
      assert n == Mask(len) && n - BH <= -(ESENT + 1) by { RegionFits(h, buf, len); }
      AddPoolFields(h, buf, len);
      hide Mask, AddPool;
      CountPool(n);
      assert n - BH <= -(ESENT + 1);
      LayImage(buf, n, len, h);
      pools, free := AddPool(h, buf, len).pools, AddPool(h, buf, len).free;
    }

    // ----- bget

    /** The best-fit scan: the address of the chosen block, or of the list head. */
    method FindBest(size: int) returns (best: int)
      requires Valid()
      ensures best == if Best(Abs(), size) >= 0 then free[Best(Abs(), size)] else head
      ensures best == head <==> Best(Abs(), size) < 0
    {
      hide Decode, Inv, ImageOf, SizeAt, At, BestUpTo, Entry;
      ghost var h, m := Abs(), W();
      ghost var j: nat, best' := 0, -1;
      ScanStep(m, h, 0);
      var b := Load(mem, head + FLINK);
      best := head;
      BestNone(h, size);
      while b != head
        invariant j <= |free| && b == Entry(h, j) && (b == head <==> j == |free|)
        invariant best' == BestUpTo(h, size, j) && best == if best' >= 0 then free[best'] else head
        invariant best == head <==> best' < 0
        decreases |free| - j
      {
        ScanStep(m, h, j);
        EntryAt(h, j);
        best := Better(size, best, b, j);
        b := Load(mem, b + FLINK);
        j := j + 1;
        best' := BestUpTo(h, size, j);
        ScanStep(m, h, j);
      }
    }

    /** One step of the scan: does the j-th block fit, and better than the best so far? */
    method Better(size: int, best: int, b: int, ghost j: nat) returns (r: int)
      requires Valid() && j < |free| && b == free[j]
      requires var c := BestUpTo(Abs(), size, j);
               best == (if c >= 0 then free[c] else head) && (best == head <==> c < 0)
      ensures var c := BestUpTo(Abs(), size, j + 1);
              r == (if c >= 0 then free[c] else head) && (r == head <==> c < 0)
    {
      hide Decode, Inv, ImageOf, SizeAt, At, BestUpTo, Entry;
      ghost var c := BestUpTo(Abs(), size, j);
      r := best;
      ScanStep(W(), Abs(), j);
      EntryAt(Abs(), j);
      BestStep(Abs(), size, j);
      var n := Load(mem, b + BSIZE);
      if n >= size {
        if best == head {
          r := b;
        } else {
          ScanStep(W(), Abs(), c);
          EntryAt(Abs(), c);
          var least := Load(mem, best + BSIZE);
          if n < least { r := b; }
        }
      }
    }

    /** Cut the tail off the free block at `b`. */
    method SplitTail(b: int, size: int, ghost h: Heap) returns (buf: int)
      requires h.head == head && h.limit == mem.Length
      requires Inv(h) && ImageOf(W(), h) && Carvable(h, b, size) && Splits(h, b, size)
      modifies mem
      ensures W() == CarvedWords(old(W()), h, b, size) && buf == b + (SizeAt(h.pools, b) - size) + BH
    {
      hide Decode, Inv, ImageOf, Carvable, SizeAt, At;
      SplitFacts(W(), h, b, size);
      SplitWords(W(), h, b, size);
      hide Splits, CarvedWords;
      var bsize := Load(mem, b + BSIZE);
      var ba := b + (bsize - size);
      var bn := ba + size;
      var tag := Load(mem, bn + PREVFREE);
      assert tag == bsize;
      SplitHeaders(b, ba, bn, bsize, size);
      buf := ba + BH;
    }

    /** The four stores that split a free block of `bsize` bytes. */
    method SplitHeaders(b: int, ba: int, bn: int, bsize: int, size: int)
      requires 0 < b && b % 4 == 0 && ba % 4 == 0 && bn % 4 == 0
      requires b + BH <= ba && ba + BH <= bn && bn + BH <= mem.Length && 0 < size <= bsize <= MAX_SIZE
      modifies mem
      ensures W() == old(W())[b + BSIZE := bsize - size][ba + PREVFREE := bsize - size]
                             [ba + BSIZE := ToWord(-size)][bn + PREVFREE := 0]
    {
      hide Decode;
      Store(mem, b + BSIZE, bsize - size);
      var left := Load(mem, b + BSIZE);
      Store(mem, ba + PREVFREE, left);
      Store(mem, ba + BSIZE, ToWord(-size));
      Store(mem, bn + PREVFREE, 0);
    }

    /** Take the free block at `b` as it is. */
    method TakeWhole(b: int, ghost size: int, ghost h: Heap) returns (buf: int)
      requires h.head == head && h.limit == mem.Length
      requires Inv(h) && ImageOf(W(), h) && Carvable(h, b, size) && !Splits(h, b, size)
      modifies mem
      ensures W() == CarvedWords(old(W()), h, b, size) && buf == b + BH
    {
      hide Decode, Inv, ImageOf, Carvable, SizeAt, Unlinked, At;
      WholeFacts(W(), h, b, size);
      hide CarvedWords, Splits;
      var bsize := Load(mem, b + BSIZE);
      var ba := b + bsize;
      var tag := Load(mem, ba + PREVFREE);
      assert tag == bsize;
      UnlinkChecked(b);
      Store(mem, b + BSIZE, ToWord(-bsize));
      Store(mem, ba + PREVFREE, 0);
      buf := b + FLINK;
    }

    /** Serve `size` bytes from the free block at `b`, in memory; `got` is the size of the block served. */
    method CarveImageAt(b: int, size: int, ghost h: Heap) returns (buf: int, got: int)
      requires h.head == head && h.limit == mem.Length && Inv(h) && ImageOf(W(), h) && Carvable(h, b, size)
      modifies mem
      ensures buf == Carve(h, b, size).1 && got == (if Splits(h, b, size) then size else SizeAt(h.pools, b))
      ensures var h' := Carve(h, b, size).0; Inv(h') && ImageOf(W(), h') && Kept(old(W()), W(), h, h', {buf})
    {
      hide Decode, Inv, ImageOf, Carvable, SizeAt, Circle, Kept, Remove, SplicePools, PoolOf, BlockOf, CarvedWords, At;
      assert NodeAddr(b, mem.Length) && At(W(), b + BSIZE) == SizeAt(h.pools, b) by { CarveFacts(W(), h, b, size); }
      CarveImage(W(), h, b, size);
      var bsize := Load(mem, b + BSIZE);
      if bsize - size > SIZEQ + BH {
        buf := SplitTail(b, size, h);
        got := size;
      } else {
        buf := TakeWhole(b, size, h);
        got := bsize;
      }
    }

    /** Serve `size` bytes from the free block at `b`. */
    method CarveAt(b: int, size: int) returns (buf: int)
      requires Valid() && Carvable(Abs(), b, size)
      modifies mem, `totalloc, `numget, `pools, `free
      ensures (Abs(), buf) == Carve(old(Abs()), b, size)
      ensures CarvedFrom(old(Abs()), b, size, Abs(), buf) && !IsLive(old(Abs()), buf) && LivePooled(Abs(), buf)
      ensures Valid() && Kept(old(W()), W(), old(Abs()), Abs(), {buf})
    {
      hide Decode, Inv, ImageOf, Carvable, SizeAt, Kept, Remove, SplicePools, PoolOf, BlockOf, CarvedFrom,
           LivePooled, LiveDirect;
      ghost var h := Abs();
      SplitExactly(h, b, size);
      CarveLive(h, b, size);
      var got: int;
      buf, got := CarveImageAt(b, size, h);
      totalloc := totalloc + got;
      numget := numget + 1;
      pools, free := Carve(h, b, size).0.pools, Carve(h, b, size).0.free;
    }

    /** A request too large for an expansion block, served straight from the acquisition function. */
    method AcquireDirect(size: int, acquired: int) returns (buf: int)
      requires Valid() && DirectRegion(Abs(), acquired, size)
      modifies mem, `totalloc, `numget, `numdget, `direct
      ensures Abs() == AddDirect(old(Abs()), acquired, size) && buf == acquired + BDH
      ensures Valid() && Kept(old(W()), W(), old(Abs()), Abs(), {buf})
    {
      hide Decode, Inv, ImageOf, Kept, Unowned;
      ghost var h, m0 := Abs(), W();
      LimitAligned(h);
      DirectImage(m0, h, acquired, size);
      Store(mem, acquired + (BDH - BH) + BSIZE, 0);
      Store(mem, acquired + (BDH - BH) + PREVFREE, 0);
      Store(mem, acquired + TSIZE, size);
      totalloc := totalloc + size;
      numget := numget + 1;
      numdget := numdget + 1;
      direct := direct + [Direct(acquired, size)];
      buf := acquired + BDH;
    }

    /** Is the request too large for an expansion block?  The subtraction is unsigned in the source. */
    method Oversize(size: int) returns (yes: bool)
      requires Valid() && acqfcn
      ensures yes <==> size > expIncr - 8
    {
      hide Decode, ImageOf, Placed, Listed, Counted;
      yes := size > ToWord(expIncr - BH);
    }

    /**
     Allocate a buffer; 0 is the null pointer.  The call-backs are parameters: `plan` is what
     the compaction function does when it is called, `acquired` what the acquisition function
     returns.
     */
    method Bget(request: int, plan: seq<Answer>, acquired: int) returns (buf: int)
      requires Valid() && Requestable(request) && GetLegal(Abs(), Need(request), plan, acquired)
      modifies mem, this
      ensures (Abs(), buf) == Get(old(Abs()), Need(request), plan, acquired)
      ensures Valid()
      ensures Kept(old(W()), W(), old(Abs()), Abs(), PlanTouched(old(Abs()), Need(request), plan, true) + {buf})
      ensures PlanCarries(old(mem[..]), mem[..], old(Abs()), Abs(), Need(request), plan)
      decreases plan, if Best(Abs(), Need(request)) >= 0 then 0 else 2
    {
      hide Decode, Inv, ImageOf, Kept, Best, Run, RunLegal, RunTouched, PlanTouched, Carve, AcquiredLegal, Expand,
           Requested, Carvable, Get, GetLegal, TakeBest, IsLive, LivePooled, LiveDirect, CarvedFrom, Underway,
           PlanCarries, RunCarries;
      ghost var h0, m0, was := Abs(), W(), mem[..];
      NeedFits(request);
      var size := request;
      if size < SIZEQ { size := SIZEQ; }
      size := (size + (QUANT - 1)) / QUANT * QUANT;
      size := size + BH;
      assert size == Need(request);
      var compactseq: nat := 0;
      ghost var touched: set<int> := {};
      KeptRefl(m0, h0, touched);
      PlanStarts(was, h0, size, plan);
      assert plan[0..] == plan;
      while true
        invariant Valid() && compactseq <= |plan|
        invariant Get(Abs(), size, plan[compactseq..], acquired) == Get(h0, size, plan, acquired)
        invariant GetLegal(Abs(), size, plan[compactseq..], acquired)
        invariant Kept(m0, W(), h0, Abs(), touched)
        invariant Underway(was, mem[..], h0, Abs(), size, plan, plan[compactseq..])
        invariant touched + PlanTouched(Abs(), size, plan[compactseq..], true) == PlanTouched(h0, size, plan, true)
        invariant compactseq > 0 ==> Best(h0, size) < 0
        invariant compactseq == 0 ==> Abs() == h0
        decreases |plan| - compactseq
      {
        ghost var h, m, mid := Abs(), W(), mem[..];
        var b := FindBest(size);
        if b != head {
          PlanEnds(was, mid, h0, h, size, plan, plan[compactseq..]);
          GetFits(h, size, plan[compactseq..], acquired);
          BestCarvable(h, size);
          assert touched == PlanTouched(h0, size, plan, true);
          buf := CarveAt(b, size);
          KeptTrans(m0, m, W(), h0, h, Abs(), touched, {buf});
          InvParts(h);
          PlanServes(was, mid, mem[..], h0, h, Abs(), size, plan, buf);
          return;
        }
        // The compaction function gives up after |plan| calls.
        if !compfcn || compactseq == |plan| {
          GetExpands(h, size, plan[compactseq..], acquired);
          PlanEnds(was, mid, h0, h, size, plan, plan[compactseq..]);
          assert touched == PlanTouched(h0, size, plan, true);
          break;
        }
        GetCompacts(h, size, plan[compactseq..], acquired);
        var answer := plan[compactseq];
        assert plan[compactseq..][0] == answer && plan[compactseq..][1..] == plan[compactseq + 1..];
        Perform(answer.calls);
        KeptTrans(m0, m, W(), h0, h, Abs(), touched, RunTouched(h, answer.calls, true));
        PlanAdvances(was, mid, mem[..], h0, h, size, plan, plan[compactseq..]);
        touched := touched + RunTouched(h, answer.calls, true);
        compactseq := compactseq + 1;
        if !answer.again {
          assert touched == PlanTouched(h0, size, plan, true);
          break;
        }
      }
      ghost var h1, m1, found := Abs(), W(), mem[..];
      buf := Reserve(request, acquired, plan);
      KeptTrans(m0, m1, W(), h0, h1, Abs(), touched, {buf});
      InvParts(h1);
      PlanServes(was, found, mem[..], h0, h1, Abs(), size, plan, buf);
    }

    /** The reserve supply: an expansion block or a direct acquisition. */
    method Reserve(request: int, acquired: int, ghost plan: seq<Answer>) returns (buf: int)
      requires Valid() && Requestable(request) && AcquiredLegal(Abs(), Need(request), acquired)
      modifies mem, this
      ensures (Abs(), buf) == Expand(old(Abs()), Need(request), acquired)
      ensures !old(acqfcn) || acquired == 0 ==> buf == 0 && Abs() == old(Abs())
      ensures old(acqfcn) && acquired != 0 ==>
                if Need(request) <= old(expIncr) - 8 then
                  && buf != 0 && LivePooled(Abs(), buf) && direct == old(direct)
                  && |pools| == |old(pools)| + 1 && pools[|old(pools)|].base == acquired
                else
                  && buf == acquired + 12 && LiveDirect(Abs(), buf) && !LivePooled(Abs(), buf)
                  && pools == old(pools) && direct == old(direct) + [Direct(acquired, Need(request) + 4)]
      ensures !IsLive(old(Abs()), buf)
      ensures Valid() && Kept(old(W()), W(), old(Abs()), Abs(), {buf})
      decreases plan, 1
    {
      hide Decode, Inv, ImageOf, Kept, Best, AddPool, AddDirect, PoolRegion, DirectRegion, TakeBest,
           AcquiredLegal, Get, GetLegal, PlanTouched, LivePooled, LiveDirect, Expand;
      ghost var h, m := Abs(), W();
      var size := Need(request);
      NeedFits(request);
      ExpandOutcome(h, size, acquired);
      ExpandFresh(h, size, acquired);
      if acqfcn && acquired != 0 {
        ExpandCases(h, size, acquired);
        var oversize := Oversize(size);
        if oversize {
          buf := AcquireDirect(size + (BDH - BH), acquired);
        } else {
          Bpool(acquired, expIncr);
          ghost var h1, m1 := Abs(), W();
          GetFits(h1, size, [], 0);
          assert plan[|plan|..] == [];
          buf := Bget(request, [], 0);
          KeptTrans(m, m1, W(), h, h1, Abs(), {}, PlanTouched(h1, size, [], true) + {buf});
          assert {} + (PlanTouched(h1, size, [], true) + {buf}) == {buf};
        }
      } else {
        buf := 0;
        KeptRefl(m, h, {buf});
      }
    }

    // ----- clients at work, the compaction function among them

    /** A client writes into a buffer it holds. */
    method WriteData(buf: int, offset: int, data: seq<byte>)
      requires Valid() && IsLive(Abs(), buf) && 0 <= offset && offset + |data| <= Usable(Abs(), buf)
      modifies mem
      ensures Valid() && Kept(old(W()), W(), Abs(), Abs(), {buf})
      ensures 0 < buf && buf + offset + |data| <= mem.Length
      ensures mem[..] == old(mem[..buf + offset]) + data + old(mem[buf + offset + |data|..])
    {
      hide Decode, Inv, ImageOf, IsLive, Usable, SamePayload, ClientWrite;
      ghost var h, was := Abs(), mem[..];
      InvParts(h);
      LiveBounds(h, buf);
      CopyIn(buf + offset, data);
      BufferWrite(was, mem[..], h, buf);
      ImageClient(Decode(was), W(), h);
      SameRefl(h);
    }

    method CopyIn(at: int, data: seq<byte>)
      requires 0 <= at && at + |data| <= mem.Length
      modifies mem
      ensures mem[..] == old(mem[..at]) + data + old(mem[at + |data|..])
    {
      ghost var was := mem[..];
      for i := 0 to |data|
        invariant forall j :: 0 <= j < mem.Length ==> mem[j] == if at <= j < at + i then data[j - at] else was[j]
      {
        mem[at + i] := data[i];
      }
    }

    /** One call: what becomes of the heap, and of the bytes it is for. */
    method PerformCall(c: Call)
      requires Valid() && Legal(Abs(), c)
      modifies mem, this
      ensures Abs() == Do(old(Abs()), c)
      ensures Valid() && Kept(old(W()), W(), old(Abs()), Abs(), Touched(old(Abs()), c, true))
      ensures CallCarries(old(mem[..]), mem[..], old(Abs()), Abs(), c)
      ensures c.CallWrite? ==>
                var at := c.buf + c.offset;
                && 0 < c.buf && at + |c.data| <= mem.Length
                && mem[..] == old(mem[..])[..at] + c.data + old(mem[..])[at + |c.data|..]
      ensures c.CallGet? && c.clear ==>
                var buf := Get(old(Abs()), Need(c.request), c.plan, c.acquired).1;
                buf != 0 ==>
                  && 0 < buf && c.request <= Usable(Abs(), buf) && buf + Usable(Abs(), buf) <= mem.Length
                  && forall i :: buf <= i < buf + Usable(Abs(), buf) ==> mem[i] == 0
      ensures c.CallGetr? && c.buf != 0 ==>
                var nbuf := Get(old(Abs()), Need(c.request), c.plan, c.acquired).1;
                nbuf != 0 ==>
                  && IsLive(Abs(), nbuf) && !IsLive(Abs(), c.buf)
                  && (c.buf !in PlanTouched(old(Abs()), Need(c.request), c.plan, true) ==>
                        var u := Usable(old(Abs()), c.buf);
                        Moved(old(mem[..]), mem[..], c.buf, nbuf, if c.request < u then c.request else u))
      ensures c.CallRel? ==> !IsLive(Abs(), c.buf)
      ensures c.CallCtl? ==>
                && compfcn == c.compact && acqfcn == c.acquire && relfcn == c.release && expIncr == c.poolIncr
                && mem[..] == old(mem[..]) && pools == old(pools) && poolLen == old(poolLen)
      decreases c
    {
      hide Decode, Inv, ImageOf, Kept, CanRelease, PoolRegion, Rel, AddPool, Get, GetLegal, Need, PlanTouched, IsLive,
           Usable, Shows, Moved, PlanCarries, CallCarries, DoData;
      ghost var h, was := Abs(), mem[..];
      InvParts(h);
      match c {
        case CallGet(request, plan, acquired, clear) =>
          if clear {
            var _ := Bgetz(request, plan, acquired);
          } else {
            var _ := Bget(request, plan, acquired);
            GetCarries(was, mem[..], h, Abs(), c);
          }
        case CallGetr(buf, request, plan, acquired) => var _ := Bgetr(buf, request, plan, acquired);
        case CallRel(buf) =>
          Brel(buf);
          QuietCarries(was, mem[..], h, Abs(), c);
        case CallPool(base, len) =>
          Bpool(base, len);
          QuietCarries(was, mem[..], h, Abs(), c);
        case CallCtl(compact, acquire, release, incr) =>
          Bectl(compact, acquire, release, incr);
          CtlKept(W(), h, Abs());
          QuietCarries(was, mem[..], h, Abs(), c);
        case CallWrite(buf, offset, data) =>
          WriteData(buf, offset, data);
          WriteCarries(was, mem[..], h, buf, offset, data);
      }
    }

    /**
     Any run of legal calls, by the clients or by the compaction function: the heap does what `Run`
     says, no byte changes of a buffer that is neither released nor written into, and whatever data
     memory showed before, it shows afterwards what the run makes of it: bytes written, bytes cleared
     and bytes moved by reallocations.
     */
    method Perform(calls: seq<Call>)
      requires Valid() && RunLegal(Abs(), calls)
      modifies mem, this
      ensures Abs() == Run(old(Abs()), calls)
      ensures Valid() && Kept(old(W()), W(), old(Abs()), Abs(), RunTouched(old(Abs()), calls, true))
      ensures forall b :: IsLive(old(Abs()), b) && b !in RunTouched(old(Abs()), calls, true) ==>
                IsLive(Abs(), b) && SameBytes(old(mem[..]), mem[..], b, Usable(old(Abs()), b))
      ensures RunCarries(old(mem[..]), mem[..], old(Abs()), Abs(), calls)
      decreases calls
    {
      hide Decode, Inv, ImageOf, Kept, Do, Legal, Touched, IsLive, Usable, SameBytes, CallCarries, RunCarries, Moved,
           Get, Need;
      ghost var h, m, was := Abs(), W(), mem[..];
      if calls == [] {
        KeptRefl(m, h, {});
        NoCalls(was, h);
      } else {
        PerformCall(calls[0]);
        ghost var h1, m1, mid := Abs(), W(), mem[..];
        Perform(calls[1..]);
        OneMoreCall(was, mid, mem[..], h, Abs(), calls);
        KeptTrans(m, m1, W(), h, h1, Abs(), Touched(h, calls[0], true), RunTouched(h1, calls[1..], true));
      }
      InvParts(h);
      AllBytesKept(was, mem[..], h, Abs(), RunTouched(h, calls, true));
    }

    // ----- bgetz and bgetr

    /** How many bytes the client may use, as the headers tell. */
    method UsableSize(buf: int) returns (n: int)
      requires Valid() && IsLive(Abs(), buf)
      ensures n == Usable(Abs(), buf)
    {
      hide Decode, ImageOf, Linked, Circle, DirectOf, All, PoolOf, Placed, Listed, LengthsAgree, Counted;
      var bsize := ReadSize(buf);
      n := -bsize;
      if n == 0 {
        InvParts(Abs());
        ReadDirect(W(), Abs(), buf);
        SizeFacts(W(), Abs(), buf);
        var tsize := Load(mem, buf - BDH + TSIZE);
        n := tsize - BDH;
      } else {
        n := n - BH;
      }
    }

    /** Fill a live buffer with zeros, and touch nothing else. */
    method Clear(buf: int, n: int)
      requires Valid() && IsLive(Abs(), buf) && n == Usable(Abs(), buf)
      modifies mem
      ensures Valid() && Kept(old(W()), W(), Abs(), Abs(), {buf})
      ensures 0 < buf && buf + n <= mem.Length && forall i :: buf <= i < buf + n ==> mem[i] == 0
    {
      hide Decode, Inv, ImageOf, IsLive, Usable, SamePayload, ClientWrite;
      ghost var h, was := Abs(), mem[..];
      InvParts(h);
      LiveBounds(h, buf);
      Memset(mem, buf, 0, n);
      BufferWrite(was, mem[..], h, buf);
      ImageClient(Decode(was), W(), h);
      SameRefl(h);
    }

    /** Allocate a buffer and clear all of it, not just the part asked for. */
    method Bgetz(size: int, plan: seq<Answer>, acquired: int) returns (buf: int)
      requires Valid() && Requestable(size) && GetLegal(Abs(), Need(size), plan, acquired)
      modifies mem, this
      ensures (Abs(), buf) == Get(old(Abs()), Need(size), plan, acquired)
      ensures Valid()
      ensures Kept(old(W()), W(), old(Abs()), Abs(), PlanTouched(old(Abs()), Need(size), plan, true) + {buf})
      ensures buf != 0 ==>
                && IsLive(Abs(), buf) && size <= Usable(Abs(), buf)
                && 0 < buf && buf + Usable(Abs(), buf) <= mem.Length
                && forall i :: buf <= i < buf + Usable(Abs(), buf) ==> mem[i] == 0
      ensures CallCarries(old(mem[..]), mem[..], old(Abs()), Abs(), CallGet(size, plan, acquired, true))
      decreases plan, 3
    {
      hide Decode, Inv, ImageOf, IsLive, Usable, Kept, Get, GetLegal, Need, SameLive, PlanTouched, PlanCarries,
           CallCarries, DoData, Shows;
      ghost var h, m, was := Abs(), W(), mem[..];
      ghost var touched := PlanTouched(h, Need(size), plan, true);
      NeedFits(size);
      GetServes(h, Need(size), plan, acquired);
      buf := Bget(size, plan, acquired);
      if buf == 0 {
        NullCarries(was, mem[..], h, Abs(), CallGet(size, plan, acquired, true));
      } else {
        ghost var h1, m1, mid := Abs(), W(), mem[..];
        var rsize := UsableSize(buf);
        assert rsize >= size;
        Clear(buf, rsize);
        InvParts(h1);
        ClearCarries(was, mid, mem[..], h, h1, CallGet(size, plan, acquired, true));
        KeptTrans(m, m1, W(), h, h1, h1, touched + {buf}, {buf});
        assert touched + {buf} + {buf} == touched + {buf};
      }
    }

    lemma LiveInside(buf: int)
      requires Valid() && IsLive(Abs(), buf)
      ensures 0 < buf && buf + Usable(Abs(), buf) <= mem.Length
    {
      hide Decode, Inv, ImageOf, IsLive, Usable;
      InvParts(Abs());
      LiveBounds(Abs(), buf);
    }

    /** Copy the first `n` bytes of one live buffer to another. */
    method CopyData(nbuf: int, buf: int, n: int)
      requires Valid() && IsLive(Abs(), buf) && IsLive(Abs(), nbuf) && buf != nbuf
      requires 0 <= n <= Usable(Abs(), buf) && n <= Usable(Abs(), nbuf)
      modifies mem
      ensures Valid() && Kept(old(W()), W(), Abs(), Abs(), {nbuf})
      ensures Moved(old(mem[..]), mem[..], buf, nbuf, n)
    {
      hide Decode, Inv, ImageOf, IsLive, Usable, SamePayload, ClientWrite;
      ghost var h, was := Abs(), mem[..];
      InvParts(h);
      LiveBounds(h, buf);
      LiveBounds(h, nbuf);
      LiveApart(h, buf, nbuf);
      Memcpy(mem, nbuf, buf, n);
      BufferWrite(was, mem[..], h, nbuf);
      ImageClient(Decode(was), W(), h);
      SameRefl(h);
    }

    /** The second half of a reallocation: copy the data to the new buffer and release the old one. */
    method MoveData(buf: int, nbuf: int, size: int)
      requires Valid() && CanRelease(Abs(), buf) && IsLive(Abs(), nbuf) && nbuf != buf
      requires 0 < size <= Usable(Abs(), nbuf)
      modifies mem, this
      ensures Abs() == Rel(old(Abs()), buf)
      ensures Valid() && Kept(old(W()), W(), old(Abs()), Abs(), {nbuf} + {buf})
      ensures IsLive(Abs(), nbuf) && Usable(Abs(), nbuf) == Usable(old(Abs()), nbuf)
      ensures var n := if size < Usable(old(Abs()), buf) then size else Usable(old(Abs()), buf);
              0 < n && Moved(old(mem[..]), mem[..], buf, nbuf, n)
    {
      hide Decode, Inv, ImageOf, IsLive, Usable, Kept, CanRelease, Rel, Moved;
      ghost var h, m, was := Abs(), W(), mem[..];
      InvParts(h);
      ReleasableLive(h, buf);
      LiveBounds(h, buf);
      LiveBounds(h, nbuf);
      var osize := UsableSize(buf);
      assert osize > 0;
      var n := if size < osize then size else osize;
      CopyData(nbuf, buf, n);
      ghost var m1 := mem[..];
      Brel(buf);
      KeptTrans(m, Decode(m1), W(), h, h, Abs(), {nbuf}, {buf});
      KeptBytes(m1, mem[..], h, Abs(), {buf}, nbuf, n);
      MovedStays(was, m1, mem[..], buf, nbuf, n);
      StillLive(Decode(m1), W(), h, Abs(), {buf}, nbuf);
    }

    /** Reallocate a buffer: a new one, the old data, and the old one released. */
    method Bgetr(buf: int, size: int, plan: seq<Answer>, acquired: int) returns (nbuf: int)
      requires Valid() && Legal(Abs(), CallGetr(buf, size, plan, acquired))
      modifies mem, this
      ensures Abs() == Do(old(Abs()), CallGetr(buf, size, plan, acquired))
      ensures nbuf == Get(old(Abs()), Need(size), plan, acquired).1
      ensures Valid()
      ensures Kept(old(W()), W(), old(Abs()), Abs(), Touched(old(Abs()), CallGetr(buf, size, plan, acquired), true))
      ensures nbuf != 0 ==> IsLive(Abs(), nbuf) && size <= Usable(Abs(), nbuf)
      ensures nbuf != 0 && buf != 0 ==> !IsLive(Abs(), buf)
      ensures nbuf != 0 && buf != 0 && buf !in PlanTouched(old(Abs()), Need(size), plan, true) ==>
                var n := if size < Usable(old(Abs()), buf) then size else Usable(old(Abs()), buf);
                0 < n && Moved(old(mem[..]), mem[..], buf, nbuf, n)
      ensures CallCarries(old(mem[..]), mem[..], old(Abs()), Abs(), CallGetr(buf, size, plan, acquired))
      decreases plan, 3
    {
      hide Decode, Inv, ImageOf, IsLive, Usable, Kept, Get, GetLegal, Need, SameLive, PlanTouched, CanRelease, Rel,
           Requested, Moved, PlanCarries, CallCarries, DoData, Shows;
      ghost var h, was := Abs(), mem[..];
      ghost var touched := PlanTouched(h, Need(size), plan, true);
      NeedFits(size);
      GetServes(h, Need(size), plan, acquired);
      nbuf := Bget(size, plan, acquired);
      if nbuf == 0 || buf == 0 {
        UnmovedCarries(was, mem[..], h, Abs(), CallGetr(buf, size, plan, acquired));
        assert touched + {nbuf} + {} == touched + {nbuf};
        KeptWiden(Decode(was), W(), h, Abs(), touched + {nbuf}, Touched(h, CallGetr(buf, size, plan, acquired), true));
        return;
      }
      ghost var h1, m1 := Abs(), mem[..];
      GetrReleases(h, buf, size, plan, acquired);
      GetrServes(h, buf, size, plan, acquired);
      MoveData(buf, nbuf, size);
      KeptTrans(Decode(was), Decode(m1), W(), h, h1, Abs(), touched + {nbuf}, {nbuf} + {buf});
      assert touched + {nbuf} + ({nbuf} + {buf}) == touched + {nbuf} + {buf};
      LiveInside(nbuf);
      InvParts(h1);
      MoveCarries(was, m1, mem[..], h, h1, Abs(), CallGetr(buf, size, plan, acquired));
      if buf !in touched {
        InvParts(h);
        var n := if size < Usable(h, buf) then size else Usable(h, buf);
        LiveBounds(h, buf);
        KeptBytes(was, m1, h, h1, touched + {nbuf}, buf, n);
        MovedFrom(was, m1, mem[..], buf, nbuf, n);
      }
    }

    // ----- bectl, bstats, bstatse

    /** Set the call-backs and the expansion increment. */
    method Bectl(compact: bool, acquire: bool, release: bool, poolIncr: int)
      requires Valid() && (acquire ==> BH <= poolIncr)
      modifies `compfcn, `acqfcn, `relfcn, `expIncr
      ensures Valid()
      ensures Abs() == old(Abs()).(ctl := Control(compact, acquire, release, poolIncr, old(poolLen)))
    {
      hide Decode, Arranged, Linked, RunAt, DirectAt, FreeAt, TallyPools, DirectBytes, Circle;
      ghost var h := Abs();
      compfcn := compact;
      acqfcn := acquire;
      relfcn := release;
      expIncr := poolIncr;
      ControlOnly(W(), h, Abs());
    }

    /** Free space, as the list shows it. */
    method Bstats() returns (curalloc: int, totfree: int, maxfree: int, nget: int, nrel: int)
      requires Valid()
      ensures curalloc == totalloc && nget == numget && nrel == numrel
      ensures totfree == FreeSum(Abs(), |free|)
      ensures Largest(Abs(), |free|, maxfree)
    {
      hide Decode, Inv, ImageOf, SizeAt, At, Entry, Largest, FreeSum;
      ghost var h, m := Abs(), W();
      ghost var j: nat := 0;
      nget, nrel, curalloc := numget, numrel, totalloc;
      totfree, maxfree := 0, -1;
      NothingSeen(h);
      ScanStep(m, h, 0);
      var b := Load(mem, head + FLINK);
      while b != head
        invariant j <= |free| && b == Entry(h, j) && (b == head <==> j == |free|)
        invariant totfree == FreeSum(h, j) && Largest(h, j, maxfree)
        decreases |free| - j
      {
        ScanStep(m, h, j);
        EntryAt(h, j);
        LargestStep(h, j, maxfree);
        FreeSumStep(h, j);
        var n := Load(mem, b + BSIZE);
        assert n > 0;
        totfree := totfree + n;
        if n > maxfree { maxfree := n; }
        b := Load(mem, b + FLINK);
        j := j + 1;
        ScanStep(m, h, j);
      }
    }

    /** Extended statistics; the increment is negated when pools are never handed back. */
    method Bstatse() returns (poolIncr: int, npool: int, npget: int, nprel: int, ndget: int, ndrel: int)
      requires Valid()
      ensures poolIncr == if poolLen < 0 then -expIncr else expIncr
      ensures npool == |pools| == npget - nprel && ndget - ndrel == |direct|
      ensures npget == numpget && nprel == numprel && ndget == numdget && ndrel == numdrel
    {
      hide Decode, ImageOf, Placed, Listed, TallyPools, DirectBytes;
      poolIncr := if poolLen < 0 then -expIncr else expIncr;
      npool, npget, nprel := numpblk, numpget, numprel;
      ndget, ndrel := numdget, numdrel;
    }

    // ----- bpoolv

    /** Does a free block of `n` bytes at `b` still hold the wiping pattern after its header? */
    method StillWiped(b: int, n: int) returns (ok: bool)
      requires 0 < b && b % 4 == 0 && n % 4 == 0 && 0 < n && mem.Length % 4 == 0
      requires b + BFH <= mem.Length && b + n <= mem.Length
      ensures ok <==> WipedAt(W(), b + BFH, b + n)
    {
      hide Decode;
      ok := true;
      BothAligned(b, n);
      if n > BFH {
        var lerr := b + BFH;
        ghost var s := mem[..];
        var shifted := Memcmp(mem, lerr, lerr + 1, n - (BFH + 1));
        ok := mem[lerr] == 0x55 && shifted;
        hide WipedAt;
        PatternTest(s, lerr, b + n);
        assert mem[lerr..b + n - 1] == s[lerr..b + n - 1] && mem[lerr + 1..b + n] == s[lerr + 1..b + n];
      }
    }

    /** Walk the pool at `buf` and check every size and every free block. */
    method Bpoolv(buf: int, ghost bs: seq<Block>) returns (ok: bool)
      requires Walkable(W(), mem.Length, buf, bs)
      ensures ok <==> Intact(W(), buf, bs)
    {
      hide Decode, FreeIntact, WipedAt, Walkable, Intact, Followable, At, ToSigned;
      var b := buf;
      ghost var rest := bs;
      WalkStep(W(), mem.Length, b, rest);
      var w := Load(mem, b + BSIZE);
      while ToSigned(w) != ESENT
        invariant Walkable(W(), mem.Length, b, rest)
        invariant rest != [] && w == At(W(), b + BSIZE) && (ToSigned(w) == ESENT <==> rest[0].Sentinel?)
        invariant Intact(W(), buf, bs) <==> Intact(W(), b, rest)
        decreases |rest|
      {
        WalkStep(W(), mem.Length, b, rest);
        var intact, bsize := CheckBlock(b, ToSigned(w), rest);
        if !intact {
          return false;
        }
        b := b + bsize;
        rest := rest[1..];
        WalkStep(W(), mem.Length, b, rest);
        w := Load(mem, b + BSIZE);
      }
      WalkStep(W(), mem.Length, b, rest);
      return true;
    }

    /** One block of the walk; its size, if the walk can go on. */
    method CheckBlock(b: int, field: int, ghost rest: seq<Block>) returns (ok: bool, size: int)
      requires Walkable(W(), mem.Length, b, rest)
      requires rest != [] && !rest[0].Sentinel? && field == rest[0].Field()
      ensures !ok ==> !Intact(W(), b, rest)
      ensures ok ==>
                && Walkable(W(), mem.Length, b + size, rest[1..])
                && (Intact(W(), b, rest) <==> Intact(W(), b + size, rest[1..]))
    {
      hide Decode, FreeIntact, WipedAt, Walkable, Intact, Followable, At, ToSigned;
      WalkStep(W(), mem.Length, b, rest);
      size := field;
      ok := true;
      if size < 0 {
        size := -size;
      } else if size <= 0 {
        ok := false;
      } else {
        ok := CheckFree(b, size);
      }
    }

    /** The validator accepts every pool. */
    method ValidatePool(buf: int, ghost k: nat) returns (ok: bool)
      requires Valid() && k < |pools| && pools[k].base == buf
      ensures ok
    {
      hide Decode, Inv, ImageOf, Walkable, Intact;
      ReachableIntact(W(), Abs(), k);
      ok := Bpoolv(buf, pools[k].blocks);
    }

    method CheckFree(b: int, n: int) returns (ok: bool)
      requires 0 < b && b % 4 == 0 && 0 < n && n % 4 == 0 && mem.Length % 4 == 0
      requires Followable(W(), mem.Length, b, n)
      ensures ok <==> FreeIntact(W(), b, n)
    {
      hide Decode, WipedAt, At;
      ok := LinksGood(b);
      if ok {
        ok := StillWiped(b, n);
      }
    }

    /** Do the list neighbours of the free block at `b` point back at it? */
    method LinksGood(b: int) returns (ok: bool)
      requires NodeAddr(b, mem.Length)
      requires NodeAddr(At(W(), b + BLINK), mem.Length) && NodeAddr(At(W(), b + FLINK), mem.Length)
      ensures ok <==> At(W(), At(W(), b + BLINK) + FLINK) == b && At(W(), At(W(), b + FLINK) + BLINK) == b
    {
      hide Decode, At;
      var blink := Load(mem, b + BLINK);
      var forward := Load(mem, blink + FLINK);
      var flink := Load(mem, b + FLINK);
      var backward := Load(mem, flink + BLINK);
      ok := forward == b && backward == b;
    }
  }
}
