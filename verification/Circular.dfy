/**
 The circular-buffer copies of arm_math.h, the same for every sample type.  Memory is one array of
 samples and pointers are indices into it, so source, ring and destination may overlap; nothing is
 read or written at a pointer that has stepped outside.
 */
module Circular {

  /** One step of an offset: add the increment, and take the length off once if it is reached. */
  function Next(offset: int, inc: int, length: int): int {
    if offset + inc >= length then offset + inc - length else offset + inc
  }

  /** Where an address lies in a ring: the length is added or taken off until it fits. */
  function Wrap(x: int, length: int): (r: int)
    requires length > 0
    ensures 0 <= r < length
    decreases if x < 0 then length - x else x
  {
    if x < 0 then Wrap(x + length, length)
    else if x >= length then Wrap(x - length, length)
    else x
  }

  lemma OneLap(length: int, q: int)
    ensures length * (q - 1) == length * q - length && length * (q + 1) == length * q + length
  {
  }

  lemma {:induction false} WrapOf(q: int, r: int, length: int)
    requires 0 <= r < length
    ensures Wrap(length * q + r, length) == r
    decreases if q < 0 then -q else q
  {
    if q == 0 {
      assert length * q == 0;
    } else {
      hide Wrap;
      OneLap(length, q);
      if q > 0 {
        WrapOf(q - 1, r, length);
        WrapLap(length * (q - 1) + r, length);
      } else {
        WrapOf(q + 1, r, length);
        WrapLap(length * q + r, length);
      }
    }
  }

  lemma {:induction false} WrapLap(x: int, length: int)
    requires length > 0
    ensures Wrap(x + length, length) == Wrap(x, length)
    decreases if x < 0 then -x else x
  {
  }

  /** That is the remainder. */
  lemma WrapIsMod(x: int, length: int)
    requires length > 0
    ensures Wrap(x, length) == x % length
  {
    hide Wrap;
    var q, r := x / length, x % length;
    assert x == length * q + r;
    WrapOf(q, r, length);
  }

  /** Where the k-th sample of a block belongs. */
  function Slot(start: int, k: nat, inc: int, length: int): int
    requires length > 0
  {
    Wrap(start + k * inc, length)
  }

  lemma {:induction false} WrapStep(x: int, inc: int, length: int)
    requires 0 <= inc <= length && 0 < length
    ensures Wrap(x + inc, length) == Next(Wrap(x, length), inc, length)
    decreases if x < 0 then length - x else x
  {
    if x < 0 {
      WrapStep(x + length, inc, length);
      WrapLap(x + inc, length);
    } else if x >= length {
      WrapStep(x - length, inc, length);
      WrapLap(x - length + inc, length);
    }
  }

  /** Stepping keeps to the arithmetic sequence modulo the length. */
  lemma SlotStep(start: int, k: nat, inc: int, length: int)
    requires 0 <= inc <= length && 0 < length
    ensures Slot(start, k + 1, inc, length) == Next(Slot(start, k, inc, length), inc, length)
  {
    assert (k + 1) * inc == k * inc + inc;
    WrapStep(start + k * inc, inc, length);
  }

  /**
   An increment keeps every offset in range exactly when it is between 0 and the length;
   a negative one, which the code's comments mention, runs off the front.
   */
  lemma StaysInRange(inc: int, length: int)
    requires length > 0
    ensures (forall offset :: 0 <= offset < length ==> 0 <= Next(offset, inc, length) < length) <==> 0 <= inc <= length
  {
    if inc < 0 {
      assert Next(0, inc, length) < 0;
    } else if inc > length {
      assert Next(length - 1, inc, length) >= length;
    }
  }

  // ----- lists of places

  /** The places of the ring at `ring` that a block occupies. */
  function Slots(ring: int, start: int, inc: int, length: int, n: nat): (at: seq<int>)
    requires length > 0
    ensures |at| == n
  {
    seq(n, k requires 0 <= k => ring + Slot(start, k, inc, length))
  }

  function Stride(start: int, k: nat, inc: int): int {
    start + k * inc
  }

  /** The places a pointer visits that moves by `inc`. */
  function Strides(start: int, inc: int, n: nat): (at: seq<int>)
    ensures |at| == n
  {
    seq(n, k requires 0 <= k => Stride(start, k, inc))
  }

  /** One step of the destination pointer. */
  function Along(p: int, inc: int, base: int, length: int): int {
    if p + inc == base + length then base else p + inc
  }

  /** Where the destination pointer is after k steps: it returns to the base when it meets the end. */
  function Place(start: int, inc: int, base: int, length: int, k: nat): int {
    if k == 0 then start
    else Along(Place(start, inc, base, length, k - 1), inc, base, length)
  }

  function Places(start: int, inc: int, base: int, length: int, n: nat): (at: seq<int>)
    ensures |at| == n
  {
    seq(n, k requires 0 <= k => Place(start, inc, base, length, k))
  }

  predicate Within(at: seq<int>, size: nat) {
    forall k :: 0 <= k < |at| ==> 0 <= at[k] < size
  }

  predicate Distinct(at: seq<int>) {
    forall j, k :: 0 <= j < k < |at| ==> at[j] != at[k]
  }

  /** What is found at the places. */
  function Take<T>(mem: seq<T>, at: seq<int>): (data: seq<T>)
    requires Within(at, |mem|)
    ensures |data| == |at|
    ensures forall k :: 0 <= k < |at| ==> data[k] == mem[at[k]]
  {
    if at == [] then [] else Take(mem, at[..|at| - 1]) + [mem[at[|at| - 1]]]
  }

  /** The memory after storing data at the places, one after another. */
  function Put<T>(mem: seq<T>, at: seq<int>, data: seq<T>): (r: seq<T>)
    requires Within(at, |mem|) && |at| == |data|
    ensures |r| == |mem|
  {
    if at == [] then mem
    else
      var n := |at| - 1;
      Put(mem, at[..n], data[..n])[at[n] := data[n]]
  }

  /** The memory after copying from one list of places to another, one sample after another. */
  function Copied<T>(mem: seq<T>, at: seq<int>, from: seq<int>): (r: seq<T>)
    requires Within(at, |mem|) && Within(from, |mem|) && |at| == |from|
    ensures |r| == |mem|
  {
    if at == [] then mem
    else
      var n := |at| - 1;
      var m := Copied(mem, at[..n], from[..n]);
      m[at[n] := m[from[n]]]
  }

  /** A place keeps the last thing stored there, and a place not in the list keeps what it had. */
  lemma {:induction false} PutAt<T>(mem: seq<T>, at: seq<int>, data: seq<T>, p: nat)
    requires Within(at, |mem|) && |at| == |data| && p < |mem|
    ensures p !in at ==> Put(mem, at, data)[p] == mem[p]
    ensures forall k :: 0 <= k < |at| && at[k] == p && (forall j :: k < j < |at| ==> at[j] != p)
              ==> Put(mem, at, data)[p] == data[k]
  {
    if at != [] {
      var n := |at| - 1;
      assert at == at[..n] + [at[n]];
      PutAt(mem, at[..n], data[..n], p);
      forall k | 0 <= k < |at| && at[k] == p && (forall j :: k < j < |at| ==> at[j] != p)
        ensures Put(mem, at, data)[p] == data[k]
      {
        if k < n {
          assert at[n] != p;
          assert at[..n][k] == p;
          assert data[..n][k] == data[k];
        }
      }
    }
  }

  lemma PutTake<T>(mem: seq<T>, at: seq<int>, data: seq<T>)
    requires Within(at, |mem|) && |at| == |data| && Distinct(at)
    ensures Take(Put(mem, at, data), at) == data
  {
    hide Put;
    forall k | 0 <= k < |at|
      ensures Take(Put(mem, at, data), at)[k] == data[k]
    {
      PutAt(mem, at, data, at[k]);
    }
  }

  /** No sample is read from a place that has been written before. */
  predicate ReadsFirst(at: seq<int>, from: seq<int>) {
    forall j, k :: 0 <= j < k < |at| && k < |from| ==> at[j] != from[k]
  }

  /** Then it does not matter that the copy goes sample by sample. */
  lemma {:induction false} CopiedAtOnce<T>(mem: seq<T>, at: seq<int>, from: seq<int>)
    requires Within(at, |mem|) && Within(from, |mem|) && |at| == |from| && ReadsFirst(at, from)
    ensures Copied(mem, at, from) == Put(mem, at, Take(mem, from))
  {
    if at != [] {
      var n := |at| - 1;
      CopiedAtOnce(mem, at[..n], from[..n]);
      PutAt(mem, at[..n], Take(mem, from[..n]), from[n]);
      assert Take(mem, from)[..n] == Take(mem, from[..n]);
    }
  }

  lemma CopyStep<T>(was: seq<T>, at: seq<int>, w: int, from: seq<int>, p: int)
    requires Within(at, |was|) && Within(from, |was|) && |at| == |from| && 0 <= w < |was| && 0 <= p < |was|
    ensures Within(at + [w], |was|) && Within(from + [p], |was|)
    ensures var m := Copied(was, at, from); Copied(was, at + [w], from + [p]) == m[w := m[p]]
  {
    assert (at + [w])[..|at|] == at;
    assert (from + [p])[..|from|] == from;
  }

  lemma SlotsGrow(ring: int, start: int, inc: int, length: int, k: nat)
    requires 0 <= inc <= length && 0 < length
    ensures Slots(ring, start, inc, length, k + 1)
            == Slots(ring, start, inc, length, k) + [ring + Slot(start, k, inc, length)]
    ensures Slot(start, k + 1, inc, length) == Next(Slot(start, k, inc, length), inc, length)
  {
    SlotStep(start, k, inc, length);
  }

  lemma StridesGrow(start: int, inc: int, n: nat, k: nat, size: nat)
    requires k < n && Within(Strides(start, inc, n), size)
    ensures Strides(start, inc, k + 1) == Strides(start, inc, k) + [Stride(start, k, inc)]
    ensures Stride(start, k + 1, inc) == Stride(start, k, inc) + inc
    ensures 0 <= Stride(start, k, inc) < size
  {
    assert (k + 1) * inc == k * inc + inc;
    assert Strides(start, inc, n)[k] == Stride(start, k, inc);
  }

  lemma PlacesGrow(start: int, inc: int, base: int, length: int, n: nat, k: nat, size: nat)
    requires k < n && Within(Places(start, inc, base, length, n), size)
    ensures Places(start, inc, base, length, k + 1)
         == Places(start, inc, base, length, k) + [Place(start, inc, base, length, k)]
    ensures Place(start, inc, base, length, k + 1) == Along(Place(start, inc, base, length, k), inc, base, length)
    ensures 0 <= Place(start, inc, base, length, k) < size
  {
    assert Places(start, inc, base, length, n)[k] == Place(start, inc, base, length, k);
  }

  lemma StrideStart(start: int, inc: int)
    ensures Stride(start, 0, inc) == start
  {
  }

  lemma CopyNone<T>(was: seq<T>)
    ensures Within([], |was|) && Copied(was, [], []) == was
  {
  }

  lemma SlotInRange(start: int, k: nat, inc: int, length: int)
    requires 0 < length
    ensures 0 <= Slot(start, k, inc, length) < length
  {
  }

  lemma SlotStart(start: int, inc: int, length: int)
    requires 0 <= start < length
    ensures Slot(start, 0, inc, length) == start
  {
  }

  // ----- the two copies

  predicate Ring(ring: int, inc: int, length: int, size: nat) {
    0 < length && 0 <= ring && ring + length <= size && 0 <= inc <= length
  }

  /** After k samples of a write: where the source pointer and the offset are, and what memory holds. */
  ghost predicate Writing<T>(was: seq<T>, now: seq<T>, ring: int, start: int, inc: int, length: int,
                             from: int, step: int, k: nat, w: int, p: int)
  {
    && Ring(ring, inc, length, |was|)
    && w == Slot(start, k, inc, length) && p == Stride(from, k, step)
    && Within(Slots(ring, start, inc, length, k), |was|) && Within(Strides(from, step, k), |was|)
    && now == Copied(was, Slots(ring, start, inc, length, k), Strides(from, step, k))
  }

  lemma WriteStart<T>(was: seq<T>, ring: int, start: int, inc: int, length: int, from: int, step: int)
    requires Ring(ring, inc, length, |was|) && 0 <= start < length
    ensures Writing(was, was, ring, start, inc, length, from, step, 0, start, from)
  {
    SlotStart(start, inc, length);
    StrideStart(from, step);
    CopyNone(was);
  }

  lemma WriteStep<T>(was: seq<T>, now: seq<T>, ring: int, start: int, inc: int, length: int,
                     from: int, step: int, k: nat, w: int, p: int, n: nat)
    requires Writing(was, now, ring, start, inc, length, from, step, k, w, p)
    requires k < n && Within(Strides(from, step, n), |was|)
    ensures 0 <= w < length && 0 <= ring && ring + length <= |now| && 0 <= p < |now|
    ensures Writing(was, now[ring + w := now[p]], ring, start, inc, length, from, step, k + 1,
                    Next(w, inc, length), p + step)
  {
    hide Slot, Stride, Next, Slots, Strides, Copied, Within;
    SlotInRange(start, k, inc, length);
    SlotsGrow(ring, start, inc, length, k);
    StridesGrow(from, step, n, k, |was|);
    CopyStep(was, Slots(ring, start, inc, length, k), ring + w, Strides(from, step, k), p);
  }

  lemma WriteEnd<T>(was: seq<T>, now: seq<T>, ring: int, start: int, inc: int, length: int,
                    from: int, step: int, n: nat, w: int, p: int)
    requires Writing(was, now, ring, start, inc, length, from, step, n, w, p)
    ensures Within(Slots(ring, start, inc, length, n), |was|) && Within(Strides(from, step, n), |was|)
    ensures now == Copied(was, Slots(ring, start, inc, length, n), Strides(from, step, n))
    ensures w == Slot(start, n, inc, length)
  {
  }

  /** The offset after a write of n samples, as its 16-bit variable holds it. */
  function WriteOffset(start: int, n: nat, inc: int, length: int): int
    requires length > 0
  {
    Slot(start, n, inc, length) % 0x1_0000
  }

  /** Write a block into the ring at `ring`. */
  method CircularWrite<T>(mem: array<T>, ring: int, length: int, writeOffset: int, bufferInc: int,
                          src: int, srcInc: int, blockSize: nat)
    returns (newOffset: int)
    requires Ring(ring, bufferInc, length, mem.Length) && length + bufferInc <= 0x8000_0000
    requires 0 <= writeOffset < length && writeOffset < 0x1_0000
    requires Within(Strides(src, srcInc, blockSize), mem.Length)
    modifies mem
    ensures Within(Slots(ring, writeOffset, bufferInc, length, blockSize), mem.Length)
    ensures mem[..] == Copied(old(mem[..]), Slots(ring, writeOffset, bufferInc, length, blockSize),
                              Strides(src, srcInc, blockSize))
    ensures newOffset == WriteOffset(writeOffset, blockSize, bufferInc, length)
  {
    var wOffset := writeOffset;
    var p := src;
    ghost var was := mem[..];
    WriteStart(was, ring, writeOffset, bufferInc, length, src, srcInc);
    hide Writing, Slot, Slots, Strides, Copied, Within;
    var i := blockSize;
    while i > 0
      invariant 0 <= i <= blockSize && |was| == mem.Length
      invariant Writing(was, mem[..], ring, writeOffset, bufferInc, length, src, srcInc, blockSize - i, wOffset, p)
    {
      ghost var before := mem[..];
      WriteStep(was, before, ring, writeOffset, bufferInc, length, src, srcInc, blockSize - i, wOffset, p, blockSize);
      mem[ring + wOffset] := mem[p];
      assert mem[..] == before[ring + wOffset := before[p]];
      p := p + srcInc;
      wOffset := wOffset + bufferInc;
      if wOffset >= length {
        wOffset := wOffset - length;
      }
      i := i - 1;
    }
    newOffset := wOffset % 0x1_0000;
    WriteEnd(was, mem[..], ring, writeOffset, bufferInc, length, src, srcInc, blockSize, wOffset, p);
  }

  /** After k samples of a read: where the destination pointer and the offset are, and what memory holds. */
  ghost predicate Reading<T>(was: seq<T>, now: seq<T>, ring: int, start: int, inc: int, length: int,
                             to: int, step: int, base: int, size: int, k: nat, r: int, p: int)
  {
    && Ring(ring, inc, length, |was|)
    && r == Slot(start, k, inc, length) && p == Place(to, step, base, size, k)
    && Within(Slots(ring, start, inc, length, k), |was|) && Within(Places(to, step, base, size, k), |was|)
    && now == Copied(was, Places(to, step, base, size, k), Slots(ring, start, inc, length, k))
  }

  lemma ReadStart<T>(was: seq<T>, ring: int, start: int, inc: int, length: int, to: int, step: int, base: int,
                     size: int)
    requires Ring(ring, inc, length, |was|) && 0 <= start < length
    ensures Reading(was, was, ring, start, inc, length, to, step, base, size, 0, start, to)
  {
    SlotStart(start, inc, length);
    CopyNone(was);
  }

  lemma ReadStep<T>(was: seq<T>, now: seq<T>, ring: int, start: int, inc: int, length: int,
                    to: int, step: int, base: int, size: int, k: nat, r: int, p: int, n: nat)
    requires Reading(was, now, ring, start, inc, length, to, step, base, size, k, r, p)
    requires k < n && Within(Places(to, step, base, size, n), |was|)
    ensures 0 <= r < length && 0 <= ring && ring + length <= |now| && 0 <= p < |now|
    ensures Reading(was, now[p := now[ring + r]], ring, start, inc, length, to, step, base, size, k + 1,
                    Next(r, inc, length), Along(p, step, base, size))
  {
    hide Slot, Place, Next, Along, Slots, Places, Copied, Within;
    SlotInRange(start, k, inc, length);
    SlotsGrow(ring, start, inc, length, k);
    PlacesGrow(to, step, base, size, n, k, |was|);
    CopyStep(was, Places(to, step, base, size, k), p, Slots(ring, start, inc, length, k), ring + r);
  }

  lemma ReadEnd<T>(was: seq<T>, now: seq<T>, ring: int, start: int, inc: int, length: int,
                   to: int, step: int, base: int, size: int, n: nat, r: int, p: int)
    requires Reading(was, now, ring, start, inc, length, to, step, base, size, n, r, p)
    ensures Within(Slots(ring, start, inc, length, n), |was|) && Within(Places(to, step, base, size, n), |was|)
    ensures now == Copied(was, Places(to, step, base, size, n), Slots(ring, start, inc, length, n))
    ensures r == Slot(start, n, inc, length)
  {
  }

  /** Read a block from the ring into a destination that is itself a ring from base to base + dstLength. */
  method CircularRead<T>(mem: array<T>, ring: int, length: int, readOffset: int, bufferInc: int,
                         dst: int, dstBase: int, dstLength: int, dstInc: int, blockSize: nat)
    returns (newOffset: int)
    requires Ring(ring, bufferInc, length, mem.Length) && length + bufferInc <= 0x8000_0000
    requires 0 <= readOffset < length
    requires Within(Places(dst, dstInc, dstBase, dstLength, blockSize), mem.Length)
    modifies mem
    ensures Within(Slots(ring, readOffset, bufferInc, length, blockSize), mem.Length)
    ensures mem[..] == Copied(old(mem[..]), Places(dst, dstInc, dstBase, dstLength, blockSize),
                              Slots(ring, readOffset, bufferInc, length, blockSize))
    ensures newOffset == Slot(readOffset, blockSize, bufferInc, length)
  {
    var rOffset := readOffset;
    var p := dst;
    ghost var was := mem[..];
    ReadStart(was, ring, readOffset, bufferInc, length, dst, dstInc, dstBase, dstLength);
    hide Reading, Slot, Slots, Place, Places, Copied, Within;
    var i := blockSize;
    while i > 0
      invariant 0 <= i <= blockSize && |was| == mem.Length
      invariant Reading(was, mem[..], ring, readOffset, bufferInc, length, dst, dstInc, dstBase, dstLength,
                        blockSize - i, rOffset, p)
    {
      ghost var before := mem[..];
      ReadStep(was, before, ring, readOffset, bufferInc, length, dst, dstInc, dstBase, dstLength,
               blockSize - i, rOffset, p, blockSize);
      mem[p] := mem[ring + rOffset];
      assert mem[..] == before[p := before[ring + rOffset]];
      p := p + dstInc;
      if p == dstBase + dstLength {
        p := dstBase;
      }
      rOffset := rOffset + bufferInc;
      if rOffset >= length {
        rOffset := rOffset - length;
      }
      i := i - 1;
    }
    newOffset := rOffset;
    ReadEnd(was, mem[..], ring, readOffset, bufferInc, length, dst, dstInc, dstBase, dstLength, blockSize, rOffset, p);
  }

  // ----- what goes in comes out

  /** A block that takes up no more than the ring lands in different slots. */
  lemma SlotsDistinct(ring: int, start: int, inc: int, length: int, n: nat)
    requires 0 < inc && n * inc <= length && 0 < length
    ensures Distinct(Slots(ring, start, inc, length, n))
  {
    forall j, k | 0 <= j < k < n
      ensures Slot(start, j, inc, length) != Slot(start, k, inc, length)
    {
      SlotsApart(start, inc, length, n, j, k);
    }
  }

  lemma SlotsApart(start: int, inc: int, length: int, n: nat, j: nat, k: nat)
    requires 0 < inc && n * inc <= length && 0 < length && j < k < n
    ensures Slot(start, j, inc, length) != Slot(start, k, inc, length)
  {
    var d := (k - j) * inc;
    assert k * inc == j * inc + d;
    assert 0 < d;
    assert d < n * inc;
    WrapStep(start + j * inc, d, length);
  }

  /** A destination pointer that moves by one goes round its own ring. */
  lemma {:induction false} PlaceWraps(start: int, base: int, length: int, k: nat)
    requires base <= start < base + length
    ensures Place(start, 1, base, length, k) == base + Slot(start - base, k, 1, length)
  {
    if k == 0 {
    } else {
      PlaceWraps(start, base, length, k - 1);
      SlotStep(start - base, k - 1, 1, length);
    }
  }

  lemma NoSmallMultiple(length: int, d: int)
    requires 0 < length && d != 0
    ensures length * d >= length || length * d <= -length
  {
    if d >= 1 {
      assert length * d >= length;
    } else {
      assert length * d <= -length;
    }
  }

  /** A stride that divides the ring visits every so many places of it, and then starts over. */
  lemma {:induction false} PlaceStrides(base: int, inc: int, count: int, first: int, k: nat)
    requires inc != 0 && 0 <= first < count
    ensures Place(base + inc * first, inc, base, inc * count, k) == base + inc * Slot(first, k, 1, count)
  {
    if k == 0 {
      SlotStart(first, 1, count);
    } else {
      hide Place, Slot;
      PlaceStrides(base, inc, count, first, k - 1);
      var s := Slot(first, k - 1, 1, count);
      SlotInRange(first, k - 1, 1, count);
      SlotStep(first, k - 1, 1, count);
      AlongStride(base, inc, count, s);
      PlaceNext(base + inc * first, inc, base, inc * count, k);
    }
  }

  lemma PlaceNext(start: int, inc: int, base: int, length: int, k: nat)
    requires k > 0
    ensures Place(start, inc, base, length, k) == Along(Place(start, inc, base, length, k - 1), inc, base, length)
  {
  }

  lemma AlongStride(base: int, inc: int, count: int, s: int)
    requires inc != 0 && 0 <= s < count
    ensures Along(base + inc * s, inc, base, inc * count) == base + inc * Next(s, 1, count)
  {
    assert inc * (s + 1) == inc * s + inc;
    if s + 1 < count {
      SameFactor(inc, s + 1, count);
    }
  }

  lemma SameFactor(inc: int, x: int, y: int)
    requires inc != 0 && x != y
    ensures inc * x != inc * y
  {
    NoSmallMultiple(if inc > 0 then inc else -inc, x - y);
    assert inc * (x - y) == inc * x - inc * y;
  }

  /** A pointer that does not meet the end keeps going; one that does is back at the base. */
  lemma {:induction false} PlaceRuns(start: int, inc: int, base: int, length: int, k: nat)
    requires forall j: nat :: 0 < j <= k ==> Stride(start, j, inc) != base + length
    ensures Place(start, inc, base, length, k) == Stride(start, k, inc)
    ensures Stride(start, k + 1, inc) == base + length ==> Place(start, inc, base, length, k + 1) == base
  {
    assert (k + 1) * inc == k * inc + inc;
    if k > 0 {
      assert (k - 1) * inc + inc == k * inc;
      assert Stride(start, k, inc) != base + length;
      PlaceRuns(start, inc, base, length, k - 1);
    }
  }

  lemma PlacesDistinct(start: int, base: int, length: int, n: nat)
    requires 0 <= base <= start < base + length && n <= length
    ensures Distinct(Places(start, 1, base, length, n))
            && Between(Places(start, 1, base, length, n), base, base + length)
  {
    SlotsDistinct(base, start - base, 1, length, n);
    forall k | 0 <= k < n
      ensures Place(start, 1, base, length, k) == Slots(base, start - base, 1, length, n)[k]
    {
      PlaceWraps(start, base, length, k);
    }
  }

  predicate Between(at: seq<int>, lo: int, hi: int) {
    forall k :: 0 <= k < |at| ==> lo <= at[k] < hi
  }

  predicate Outside(at: seq<int>, lo: int, hi: int) {
    forall k :: 0 <= k < |at| ==> at[k] < lo || hi <= at[k]
  }

  /**
   Write a block and read it back from where it began, into a destination ring at least as long:
   the destination holds the block in order, whatever memory held before.  Source and destination
   may overlap each other, but not the ring.
   */
  lemma WriteReadRoundTrip<T>(mem: seq<T>, ring: int, length: int, start: int, inc: int, n: nat, src: int, srcInc: int,
                              dst: int, dstBase: int, dstLength: int)
    requires Ring(ring, inc, length, |mem|) && 0 < inc && n * inc <= length
    requires Within(Strides(src, srcInc, n), |mem|) && Outside(Strides(src, srcInc, n), ring, ring + length)
    requires 0 <= dstBase <= dst < dstBase + dstLength <= |mem| && n <= dstLength
    requires dstBase + dstLength <= ring || ring + length <= dstBase
    ensures var from, at := Strides(src, srcInc, n), Slots(ring, start, inc, length, n);
            var to := Places(dst, 1, dstBase, dstLength, n);
            && Within(at, |mem|) && Within(to, |mem|)
            && Take(Copied(Copied(mem, at, from), to, at), to) == Take(mem, from)
  {
    hide Put, Take, Copied, Place, Slot, Stride, Slots, Strides, Places, Distinct;
    var from, at := Strides(src, srcInc, n), Slots(ring, start, inc, length, n);
    var to := Places(dst, 1, dstBase, dstLength, n);
    SlotsBetween(ring, start, inc, length, n);
    SlotsDistinct(ring, start, inc, length, n);
    PlacesDistinct(dst, dstBase, dstLength, n);
    CopiedAtOnce(mem, at, from);
    var m := Copied(mem, at, from);
    PutTake(mem, at, Take(mem, from));
    CopiedAtOnce(m, to, at);
    PutTake(m, to, Take(m, at));
  }

  lemma SlotsBetween(ring: int, start: int, inc: int, length: int, n: nat)
    requires 0 < length
    ensures Between(Slots(ring, start, inc, length, n), ring, ring + length)
  {
    forall k | 0 <= k < n
      ensures ring <= Slots(ring, start, inc, length, n)[k] < ring + length
    {
      SlotInRange(start, k, inc, length);
    }
  }

  /**
   After writing and reading the same number of samples from the same offset the two offsets are
   equal, for every start and every count, exactly when the ring has at most 65536 slots.
   */
  lemma OffsetsAgree(inc: int, length: int)
    requires 0 < inc < length
    ensures (forall start: int, n: nat :: 0 <= start < length && start < 0x1_0000 ==>
               WriteOffset(start, n, inc, length) == Slot(start, n, inc, length))
            <==> length <= 0x1_0000
  {
    if length <= 0x1_0000 {
      forall start: int, n: nat | 0 <= start < length && start < 0x1_0000
        ensures WriteOffset(start, n, inc, length) == Slot(start, n, inc, length)
      {
        SlotInRange(start, n, inc, length);
      }
    } else {
      var start := if inc <= 0x1_0000 then 0x1_0000 - inc else 0;
      SlotStart(start, inc, length);
      SlotStep(start, 0, inc, length);
      assert WriteOffset(start, 1, inc, length) != Slot(start, 1, inc, length);
    }
  }
}
