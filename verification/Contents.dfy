/** What the buffers of clients hold: the bytes they stored, wherever reallocation has moved them. */
module Contents {
  import opened Memory
  import opened Heap
  import opened Frames
  import opened Client

  /** Bytes known to be in a buffer, by offset. */
  type Bytes = map<int, byte>

  /** For each buffer, the bytes known to be in it. */
  type Data = map<int, Bytes>

  function Of(d: Data, buf: int): Bytes {
    if buf in d then d[buf] else map[]
  }

  function Zeros(n: int): (c: Bytes)
    ensures forall i :: i in c <==> 0 <= i < n
    ensures forall i :: i in c ==> c[i] == 0
  {
    if n <= 0 then map[] else Zeros(n - 1)[n - 1 := 0]
  }

  function Written(c: Bytes, offset: int, data: seq<byte>): (c': Bytes)
    ensures forall i :: i in c' <==> i in c || offset <= i < offset + |data|
    ensures forall i :: i in c' ==> c'[i] == if offset <= i < offset + |data| then data[i - offset] else c[i]
  {
    if data == [] then c else Written(c, offset, data[..|data| - 1])[offset + |data| - 1 := data[|data| - 1]]
  }

  function First(c: Bytes, n: int): Bytes {
    map i | i in c && i < n :: c[i]
  }

  // ----- what clients expect, without a look at memory

  /** The compaction function works on the data too. */
  function PlanData(h: Heap, size: int, plan: seq<Answer>, d: Data): Data
    decreases plan
  {
    if Best(h, size) >= 0 || !h.ctl.compact || plan == [] then d
    else
      var h1, d1 := Run(h, plan[0].calls), RunData(h, plan[0].calls, d);
      if plan[0].again then PlanData(h1, size, plan[1..], d1) else d1
  }

  function DoData(h: Heap, c: Call, d: Data): Data
    decreases c
  {
    match c
    case CallGet(r, plan, acquired, clear) =>
      var (h1, buf) := Get(h, Need(r), plan, acquired);
      var d1 := PlanData(h, Need(r), plan, d);
      if clear && buf != 0 then d1[buf := Zeros(Usable(h1, buf))] else d1
    case CallGetr(buf, r, plan, acquired) =>
      var nbuf := Get(h, Need(r), plan, acquired).1;
      var d1 := PlanData(h, Need(r), plan, d);
      if nbuf == 0 || buf == 0 then d1 else d1[nbuf := First(Of(d1, buf), r)] - {buf}
    case CallRel(buf) => d - {buf}
    case CallPool(_, _) => d
    case CallCtl(_, _, _, _) => d
    case CallWrite(buf, offset, data) => d[buf := Written(Of(d, buf), offset, data)]
  }

  function RunData(h: Heap, calls: seq<Call>, d: Data): Data
    decreases calls
  {
    if calls == [] then d else RunData(Do(h, calls[0]), calls[1..], DoData(h, calls[0], d))
  }

  // ----- what memory shows

  ghost predicate Shows(m: seq<byte>, h: Heap, d: Data) {
    forall b :: b in d ==> IsLive(h, b) && Holds(m, b, Usable(h, b), d[b])
  }

  /** The buffer of `n` bytes at `b` holds these bytes. */
  predicate Holds(m: seq<byte>, b: int, n: int, c: Bytes) {
    0 < b && b + n <= |m| && forall i :: i in c ==> 0 <= i < n && m[b + i] == c[i]
  }

  /** Whatever data memory shows before a call, it shows afterwards what the call makes of it. */
  ghost predicate CallCarries(was: seq<byte>, now: seq<byte>, h: Heap, h': Heap, c: Call) {
    forall d :: Shows(was, h, d) ==> Shows(now, h', DoData(h, c, d))
  }

  ghost predicate RunCarries(was: seq<byte>, now: seq<byte>, h: Heap, h': Heap, calls: seq<Call>) {
    forall d :: Shows(was, h, d) ==> Shows(now, h', RunData(h, calls, d))
  }

  ghost predicate PlanCarries(was: seq<byte>, now: seq<byte>, h: Heap, h': Heap, size: int, plan: seq<Answer>) {
    forall d :: Shows(was, h, d) ==> Shows(now, h', PlanData(h, size, plan, d))
  }

  // ----- frames

  /** Data of buffers that are kept. */
  lemma ShowsKept(was: seq<byte>, now: seq<byte>, h: Heap, h': Heap, but: set<int>, d: Data)
    requires Placed(h) && |was| == |now| == h.limit
    requires Kept(Decode(was), Decode(now), h, h', but) && Shows(was, h, d)
    ensures Shows(now, h', d - but)
  {
    hide Placed, IsLive, Usable, Decode, Kept;
    forall b | b in d - but
      ensures IsLive(h', b) && Holds(now, b, Usable(h', b), d[b])
    {
      KeptBytes(was, now, h, h', but, b, 0) by { LiveBounds(h, b); }
      BufferKept(was, now, h, h', but, b, d[b]);
    }
  }

  lemma BufferKept(was: seq<byte>, now: seq<byte>, h: Heap, h': Heap, but: set<int>, b: int, c: Bytes)
    requires Placed(h) && |was| == |now| == h.limit && b !in but && IsLive(h, b)
    requires Kept(Decode(was), Decode(now), h, h', but) && Holds(was, b, Usable(h, b), c)
    ensures IsLive(h', b) && Holds(now, b, Usable(h', b), c)
  {
    hide Placed, IsLive, Usable, Decode, Kept;
    LiveBounds(h, b);
    var u := Usable(h, b);
    KeptBytes(was, now, h, h', but, b, u);
    StillLive(Decode(was), Decode(now), h, h', but, b);
    forall i | i in c ensures now[b + i] == c[i] {
      assert now[b..b + u][i] == was[b..b + u][i];
    }
  }

  /** A buffer that is handed out had no data. */
  lemma ShowsFresh(was: seq<byte>, now: seq<byte>, h: Heap, h': Heap, buf: int, d: Data)
    requires Placed(h) && |was| == |now| == h.limit && !IsLive(h, buf)
    requires Kept(Decode(was), Decode(now), h, h', {buf}) && Shows(was, h, d)
    ensures Shows(now, h', d)
  {
    hide Placed, IsLive, Usable, Decode, Kept, Holds;
    ShowsKept(was, now, h, h', {buf}, d);
    assert d - {buf} == d;
  }

  // ----- one call

  /** Calls that release, add a pool or set the call-backs. */
  lemma QuietCarries(was: seq<byte>, now: seq<byte>, h: Heap, h': Heap, c: Call)
    requires Placed(h) && |was| == |now| == h.limit && (c.CallRel? || c.CallPool? || c.CallCtl?)
    requires Kept(Decode(was), Decode(now), h, h', Touched(h, c, true))
    ensures CallCarries(was, now, h, h', c)
  {
    hide Placed, Decode, Kept, Shows;
    forall d | Shows(was, h, d) ensures Shows(now, h', DoData(h, c, d)) {
      ShowsKept(was, now, h, h', Touched(h, c, true), d);
      assert d - {} == d;
    }
  }

  lemma WriteCarries(was: seq<byte>, now: seq<byte>, h: Heap, buf: int, offset: int, data: seq<byte>)
    requires Placed(h) && |was| == |now| == h.limit && IsLive(h, buf)
    requires 0 <= offset && offset + |data| <= Usable(h, buf)
    requires Kept(Decode(was), Decode(now), h, h, {buf})
    requires 0 < buf && buf + offset + |data| <= |was|
    requires now == was[..buf + offset] + data + was[buf + offset + |data|..]
    ensures CallCarries(was, now, h, h, CallWrite(buf, offset, data))
  {
    hide Placed, Decode, Kept, IsLive, Usable;
    LiveBounds(h, buf);
    forall d | Shows(was, h, d) ensures Shows(now, h, DoData(h, CallWrite(buf, offset, data), d)) {
      ShowsKept(was, now, h, h, {buf}, d);
      var c := Written(Of(d, buf), offset, data);
      assert Holds(now, buf, Usable(h, buf), c);
    }
  }

  lemma GetCarries(was: seq<byte>, now: seq<byte>, h: Heap, h': Heap, c: Call)
    requires c.CallGet? && !c.clear && PlanCarries(was, now, h, h', Need(c.request), c.plan)
    ensures CallCarries(was, now, h, h', c)
  {
    hide Shows, Get, Need, PlanData;
  }

  lemma NullCarries(was: seq<byte>, now: seq<byte>, h: Heap, h': Heap, c: Call)
    requires c.CallGet? && PlanCarries(was, now, h, h', Need(c.request), c.plan)
    requires Get(h, Need(c.request), c.plan, c.acquired).1 == 0
    ensures CallCarries(was, now, h, h', c)
  {
    hide Shows, Get, Need, PlanData;
  }

  lemma ClearCarries(was: seq<byte>, mid: seq<byte>, now: seq<byte>, h: Heap, h': Heap, c: Call)
    requires c.CallGet? && c.clear && PlanCarries(was, mid, h, h', Need(c.request), c.plan)
    requires Placed(h') && |mid| == |now| == h'.limit
    requires var (h1, buf) := Get(h, Need(c.request), c.plan, c.acquired);
             && h1 == h' && buf != 0 && IsLive(h', buf)
             && Kept(Decode(mid), Decode(now), h', h', {buf})
             && 0 < buf && buf + Usable(h', buf) <= |now|
             && forall i :: buf <= i < buf + Usable(h', buf) ==> now[i] == 0
    ensures CallCarries(was, now, h, h', c)
  {
    hide Placed, Decode, Kept, IsLive, Usable, Get, Need, PlanData;
    var buf := Get(h, Need(c.request), c.plan, c.acquired).1;
    forall d | Shows(was, h, d) ensures Shows(now, h', DoData(h, c, d)) {
      var d1 := PlanData(h, Need(c.request), c.plan, d);
      ShowsKept(mid, now, h', h', {buf}, d1);
      assert Holds(now, buf, Usable(h', buf), Zeros(Usable(h', buf)));
    }
  }

  /** No second half: null, or nothing to move. */
  lemma UnmovedCarries(was: seq<byte>, now: seq<byte>, h: Heap, h': Heap, c: Call)
    requires c.CallGetr? && PlanCarries(was, now, h, h', Need(c.request), c.plan)
    requires c.buf == 0 || Get(h, Need(c.request), c.plan, c.acquired).1 == 0
    ensures CallCarries(was, now, h, h', c)
  {
    hide Shows, Get, Need, PlanData;
  }

  lemma MoveCarries(was: seq<byte>, mid: seq<byte>, now: seq<byte>, h: Heap, h1: Heap, h': Heap, c: Call)
    requires c.CallGetr? && PlanCarries(was, mid, h, h1, Need(c.request), c.plan)
    requires Placed(h1) && |mid| == |now| == h1.limit
    requires var nbuf := Get(h, Need(c.request), c.plan, c.acquired).1;
             && nbuf != 0 && c.buf != 0 && nbuf != c.buf && IsLive(h', nbuf)
             && c.request <= Usable(h', nbuf) && 0 < nbuf && nbuf + Usable(h', nbuf) <= |now|
             && Kept(Decode(mid), Decode(now), h1, h', {nbuf} + {c.buf})
             && Moved(mid, now, c.buf, nbuf, if c.request < Usable(h1, c.buf) then c.request else Usable(h1, c.buf))
    ensures CallCarries(was, now, h, h', c)
  {
    hide Placed, Decode, Kept, IsLive, Usable, Get, Need, PlanData;
    var nbuf := Get(h, Need(c.request), c.plan, c.acquired).1;
    forall d | Shows(was, h, d) ensures Shows(now, h', DoData(h, c, d)) {
      var d1 := PlanData(h, Need(c.request), c.plan, d);
      ShowsKept(mid, now, h1, h', {nbuf} + {c.buf}, d1);
      MovedHolds(mid, now, h1, h', c.buf, nbuf, c.request, d1);
    }
  }

  lemma MovedHolds(mid: seq<byte>, now: seq<byte>, h1: Heap, h': Heap, buf: int, nbuf: int, r: int, d: Data)
    requires Shows(mid, h1, d) && r <= Usable(h', nbuf) && 0 < nbuf && nbuf + Usable(h', nbuf) <= |now|
    requires Moved(mid, now, buf, nbuf, if r < Usable(h1, buf) then r else Usable(h1, buf))
    ensures Holds(now, nbuf, Usable(h', nbuf), First(Of(d, buf), r))
  {
    hide IsLive, Usable;
    var n := if r < Usable(h1, buf) then r else Usable(h1, buf);
    forall i | i in First(Of(d, buf), r)
      ensures 0 <= i < Usable(h', nbuf) && now[nbuf + i] == d[buf][i]
    {
      assert 0 <= i < n;
      assert now[nbuf..nbuf + n][i] == mid[buf..buf + n][i];
    }
  }

  // ----- runs and plans

  lemma NoCalls(m: seq<byte>, h: Heap)
    ensures RunCarries(m, m, h, h, [])
  {
    hide Shows;
  }

  lemma OneMoreCall(was: seq<byte>, mid: seq<byte>, now: seq<byte>, h: Heap, h': Heap, calls: seq<Call>)
    requires calls != [] && CallCarries(was, mid, h, Do(h, calls[0]), calls[0])
    requires RunCarries(mid, now, Do(h, calls[0]), h', calls[1..])
    ensures RunCarries(was, now, h, h', calls)
  {
    hide Shows, Do, DoData;
  }

  /** Part of a plan has been carried out: `mid` and `h` are reached, and `rest` is left. */
  ghost predicate Underway(was: seq<byte>, mid: seq<byte>, h0: Heap, h: Heap, size: int, plan: seq<Answer>,
                           rest: seq<Answer>) {
    forall d :: Shows(was, h0, d) ==> Expected(mid, h0, h, size, plan, rest, d)
  }

  ghost predicate Expected(mid: seq<byte>, h0: Heap, h: Heap, size: int, plan: seq<Answer>, rest: seq<Answer>,
                           d: Data) {
    exists d1 :: Shows(mid, h, d1) && PlanData(h, size, rest, d1) == PlanData(h0, size, plan, d)
  }

  lemma PlanStarts(m: seq<byte>, h: Heap, size: int, plan: seq<Answer>)
    ensures Underway(m, m, h, h, size, plan, plan)
  {
    hide Shows, PlanData;
  }

  lemma PlanAdvances(was: seq<byte>, mid: seq<byte>, now: seq<byte>, h0: Heap, h: Heap, size: int, plan: seq<Answer>,
                     rest: seq<Answer>)
    requires Underway(was, mid, h0, h, size, plan, rest) && Best(h, size) < 0 && h.ctl.compact && rest != []
    requires RunCarries(mid, now, h, Run(h, rest[0].calls), rest[0].calls)
    ensures rest[0].again ==> Underway(was, now, h0, Run(h, rest[0].calls), size, plan, rest[1..])
    ensures !rest[0].again ==> PlanCarries(was, now, h0, Run(h, rest[0].calls), size, plan)
  {
    hide Shows, Best, Run, RunData;
    forall d | Shows(was, h0, d)
      ensures rest[0].again ==> Expected(now, h0, Run(h, rest[0].calls), size, plan, rest[1..], d)
      ensures !rest[0].again ==> Shows(now, Run(h, rest[0].calls), PlanData(h0, size, plan, d))
    {
      assert Expected(mid, h0, h, size, plan, rest, d);
      var d1 :| Shows(mid, h, d1) && PlanData(h, size, rest, d1) == PlanData(h0, size, plan, d);
      assert Shows(now, Run(h, rest[0].calls), RunData(h, rest[0].calls, d1));
    }
  }

  lemma PlanEnds(was: seq<byte>, mid: seq<byte>, h0: Heap, h: Heap, size: int, plan: seq<Answer>, rest: seq<Answer>)
    requires Underway(was, mid, h0, h, size, plan, rest) && (Best(h, size) >= 0 || !h.ctl.compact || rest == [])
    ensures PlanCarries(was, mid, h0, h, size, plan)
  {
    hide Shows, Best;
    forall d | Shows(was, h0, d) ensures Shows(mid, h, PlanData(h0, size, plan, d)) {
      assert Expected(mid, h0, h, size, plan, rest, d);
    }
  }

  /** After the compaction, the buffer is found. */
  lemma PlanServes(was: seq<byte>, mid: seq<byte>, now: seq<byte>, h0: Heap, h: Heap, h': Heap, size: int,
                   plan: seq<Answer>, buf: int)
    requires PlanCarries(was, mid, h0, h, size, plan) && Placed(h) && |mid| == |now| == h.limit
    requires !IsLive(h, buf) && Kept(Decode(mid), Decode(now), h, h', {buf})
    ensures PlanCarries(was, now, h0, h', size, plan)
  {
    hide Shows, Placed, Decode, Kept, IsLive, PlanData;
    forall d | Shows(was, h0, d) ensures Shows(now, h', PlanData(h0, size, plan, d)) {
      ShowsFresh(mid, now, h, h', buf, PlanData(h0, size, plan, d));
    }
  }

  // ----- what clients may expect

  /** Data of a buffer that nobody touches stays as it is. */
  lemma {:induction false} PlanDataStays(h: Heap, size: int, plan: seq<Answer>, d: Data, b: int)
    requires b in d && b !in PlanTouched(h, size, plan, true)
    ensures b in PlanData(h, size, plan, d) && PlanData(h, size, plan, d)[b] == d[b]
    decreases plan
  {
    hide Best, Run, RunTouched, RunData;
    if !(Best(h, size) >= 0 || !h.ctl.compact || plan == []) {
      RunDataStays(h, plan[0].calls, d, b);
      if plan[0].again {
        PlanDataStays(Run(h, plan[0].calls), size, plan[1..], RunData(h, plan[0].calls, d), b);
      }
    }
  }

  lemma {:induction false} DoDataStays(h: Heap, c: Call, d: Data, b: int)
    requires b in d && b !in Touched(h, c, true)
    ensures b in DoData(h, c, d) && DoData(h, c, d)[b] == d[b]
    decreases c
  {
    hide Get, Need, PlanTouched, PlanData, Usable;
    match c
    case CallGet(r, plan, acquired, _) => PlanDataStays(h, Need(r), plan, d, b);
    case CallGetr(_, r, plan, acquired) => PlanDataStays(h, Need(r), plan, d, b);
    case CallRel(_) =>
    case CallPool(_, _) =>
    case CallCtl(_, _, _, _) =>
    case CallWrite(_, _, _) =>
  }

  lemma {:induction false} RunDataStays(h: Heap, calls: seq<Call>, d: Data, b: int)
    requires b in d && b !in RunTouched(h, calls, true)
    ensures b in RunData(h, calls, d) && RunData(h, calls, d)[b] == d[b]
    decreases calls
  {
    hide Do, Touched, DoData;
    if calls != [] {
      DoDataStays(h, calls[0], d, b);
      RunDataStays(Do(h, calls[0]), calls[1..], DoData(h, calls[0], d), b);
    }
  }

  /** The last write into a buffer is what is in it until somebody touches the buffer again. */
  lemma LastWrite(h: Heap, calls: seq<Call>, rest: seq<Call>, c: Call, d: Data)
    requires c.CallWrite? && c.buf !in RunTouched(Run(h, calls), rest, true)
    ensures var d' := RunData(h, calls + [c] + rest, d);
            && c.buf in d'
            && forall i :: c.offset <= i < c.offset + |c.data| ==>
                 i in d'[c.buf] && d'[c.buf][i] == c.data[i - c.offset]
  {
    hide Run, RunTouched, RunData, Do, DoData;
    RunDataConcat(h, calls, [c] + rest, d);
    assert calls + ([c] + rest) == calls + [c] + rest;
    var h1, d1 := Run(h, calls), RunData(h, calls, d);
    DataWritten(h1, c, d1);
    FirstCall(h1, c, rest, d1);
    var d2 := DoData(h1, c, d1);
    RunDataStays(h1, rest, d2, c.buf);
    assert RunData(h, calls + [c] + rest, d)[c.buf] == d2[c.buf];
  }

  lemma FirstCall(h: Heap, c: Call, rest: seq<Call>, d: Data)
    ensures RunData(h, [c] + rest, d) == RunData(Do(h, c), rest, DoData(h, c, d))
  {
    hide Do, DoData;
    assert ([c] + rest)[0] == c && ([c] + rest)[1..] == rest;
  }

  lemma DataWritten(h: Heap, c: Call, d: Data)
    requires c.CallWrite?
    ensures Do(h, c) == h && c.buf in DoData(h, c, d)
    ensures forall i :: c.offset <= i < c.offset + |c.data| ==>
              i in DoData(h, c, d)[c.buf] && DoData(h, c, d)[c.buf][i] == c.data[i - c.offset]
  {
    hide Written;
  }

  lemma {:induction false} RunDataConcat(h: Heap, xs: seq<Call>, ys: seq<Call>, d: Data)
    ensures RunData(h, xs + ys, d) == RunData(Run(h, xs), ys, RunData(h, xs, d))
    decreases xs
  {
    hide Do, DoData;
    if xs == [] {
      assert xs + ys == ys;
    } else {
      assert (xs + ys)[0] == xs[0] && (xs + ys)[1..] == xs[1..] + ys;
      RunDataConcat(Do(h, xs[0]), xs[1..], ys, DoData(h, xs[0], d));
    }
  }

  /** A reallocation moves the data, up to the new length. */
  lemma GetrData(h: Heap, c: Call, d: Data)
    requires c.CallGetr? && c.buf != 0 && c.buf in d && c.buf !in PlanTouched(h, Need(c.request), c.plan, true)
    requires var nbuf := Get(h, Need(c.request), c.plan, c.acquired).1; nbuf != 0 && nbuf != c.buf
    ensures var d' := DoData(h, c, d); var nbuf := Get(h, Need(c.request), c.plan, c.acquired).1;
            && c.buf !in d' && nbuf in d'
            && forall i :: i in d[c.buf] && i < c.request ==> i in d'[nbuf] && d'[nbuf][i] == d[c.buf][i]
  {
    hide Get, Need, PlanTouched, PlanData;
    PlanDataStays(h, Need(c.request), c.plan, d, c.buf);
  }
}
