/** Building packets from the queued descriptors (xmit_one_packet and do_tcp_xmit_data of
    src/tcp/tcp_output.c). */
module XmitSpec {
  import opened Chains
  import opened SeqNum
  import opened TxQueue

  /** Where transmission stands: the next sequence number, the descriptor that holds it, and
      how many bytes may still go out. */
  datatype Ctx = Ctx(seqno: int, idx: nat, budget: int)

  /** What the environment does to one packet: can its header be allocated, how many of its
      segments can, and does the device take it. */
  datatype Env = Env(hdrOk: bool, segAllocs: nat, enqueueOk: bool)

  const TXQ_BUF_SIZE := 4096
  const BATCH_SIZE := 64

  /** What happens around the i-th packet of a burst: the memory there is for it, and how many packets
      the hardware takes should the queue be flushed behind it. */
  datatype Turn = Turn(hdrOk: bool, segAllocs: nat, flushed: nat)

  /** The transmit queue of the port as a burst starts: how many packets wait in it. */
  datatype Device = Device(queued: nat, turns: nat -> Turn)

  /** A packet put on the wire. */
  datatype Wire = Wire(start: int, data: seq<byte>) {
    function End(): int { start + |data| }
  }

  /** The position lies in the descriptor it names, or at the end of the queue. */
  ghost predicate At(ds: seq<Desc>, hi: int, c: Ctx) {
    Within(ds, hi, c.idx, c.seqno)
  }

  function SkipSacked(ds: seq<Desc>, c: Ctx): (c': Ctx)
    requires c.idx <= |ds|
    ensures c.idx <= c'.idx <= |ds| && (c'.idx < |ds| ==> !ds[c'.idx].sacked)
    decreases |ds| - c.idx
  {
    if c.idx < |ds| && ds[c.idx].sacked then
      SkipSacked(ds, c.(idx := c.idx + 1, seqno := ds[c.idx].End()))
    else c
  }

  /** The payload of one packet: at most `budget` bytes from at most `segs` pieces, stopping at
      the limit `seqMax`, at a descriptor the peer reported, or when allocation fails. */
  ghost function Fill(ds: seq<Desc>, hi: int, c: Ctx, seqMax: int, budget: int, segs: nat): (r: (Ctx, seq<byte>))
    requires At(ds, hi, c) && (c.idx < |ds| ==> c.seqno <= seqMax)
    requires Tiled(ds, Start(ds, hi, 0), hi)
    decreases |ds| - c.idx
  {
    if budget <= 0 || c.idx == |ds| || ds[c.idx].sacked || segs == 0 then (c, [])
    else
      var d := ds[c.idx];
      var len := Take(d, c, seqMax, budget);
      var piece := d.data[c.seqno - d.start..c.seqno - d.start + len];
      if c.seqno + len == d.End() then
        assert ds[c.idx].End() == Start(ds, hi, c.idx + 1);
        assert c.idx + 1 < |ds| ==> ds[c.idx + 1].Len() > 0;
        var (c', rest) := Fill(ds, hi, c.(seqno := d.End(), idx := c.idx + 1), seqMax,
                               Left(d, c, seqMax, budget), segs - 1);
        (c', piece + rest)
      else (c.(seqno := c.seqno + len), piece)
  }

  ghost predicate DescMatches(d: Desc, stream: int -> byte) {
    d.data == Slice(stream, d.start, d.End())
  }

  ghost predicate Matching(ds: seq<Desc>, stream: int -> byte) {
    forall i {:trigger DescMatches(ds[i], stream)} | 0 <= i < |ds| :: DescMatches(ds[i], stream)
  }

  /** No byte of [lo, hi) belongs to a descriptor the peer reported. */
  ghost predicate AvoidsSacked(ds: seq<Desc>, lo: int, hi: int) {
    forall i {:trigger ds[i].sacked} | 0 <= i < |ds| && ds[i].sacked :: hi <= lo || ds[i].End() <= lo || hi <= ds[i].start
  }

  /** How much of the descriptor it stands in one turn of the loop takes. */
  function Take(d: Desc, c: Ctx, seqMax: int, budget: int): (len: int)
    requires d.start <= c.seqno < d.End() && c.seqno <= seqMax && budget > 0
    ensures 0 <= len <= budget && c.seqno + len <= seqMax && c.seqno + len <= d.End()
    ensures len < budget && c.seqno + len < d.End() ==> c.seqno + len == seqMax
  {
    var off := c.seqno - d.start;
    var want := if d.Len() - off < budget then d.Len() - off else budget;
    if c.seqno + want > seqMax then seqMax - c.seqno else want
  }

  /** What is left of the budget after it: nothing once the limit was met. */
  function Left(d: Desc, c: Ctx, seqMax: int, budget: int): (left: int)
    requires d.start <= c.seqno < d.End() && c.seqno <= seqMax && budget > 0
    ensures 0 <= left <= budget - Take(d, c, seqMax, budget)
  {
    var off := c.seqno - d.start;
    var want := if d.Len() - off < budget then d.Len() - off else budget;
    if c.seqno + want > seqMax then 0 else budget - want
  }

  ghost predicate Stops(ds: seq<Desc>, c: Ctx, budget: int, segs: nat)
    requires c.idx <= |ds|
  {
    budget <= 0 || c.idx == |ds| || ds[c.idx].sacked || segs == 0
  }

  /** The context after the descriptor is exhausted. */
  ghost function NextDesc(ds: seq<Desc>, c: Ctx): Ctx
    requires c.idx < |ds|
  {
    c.(seqno := ds[c.idx].End(), idx := c.idx + 1)
  }

  lemma FillUnfold(ds: seq<Desc>, lo: int, hi: int, c: Ctx, seqMax: int, budget: int, segs: nat)
    requires Tiled(ds, lo, hi) && At(ds, hi, c) && (c.idx < |ds| ==> c.seqno <= seqMax)
    ensures Stops(ds, c, budget, segs) ==> Fill(ds, hi, c, seqMax, budget, segs) == (c, [])
    ensures !Stops(ds, c, budget, segs) ==>
      var d := ds[c.idx];
      var len := Take(d, c, seqMax, budget);
      var piece := d.data[c.seqno - d.start..c.seqno - d.start + len];
      if c.seqno + len == d.End() then
        && At(ds, hi, NextDesc(ds, c)) && NextDesc(ds, c).seqno <= seqMax
        && var r := Fill(ds, hi, NextDesc(ds, c), seqMax, Left(d, c, seqMax, budget), segs - 1);
           Fill(ds, hi, c, seqMax, budget, segs) == (r.0, piece + r.1)
      else
        Fill(ds, hi, c, seqMax, budget, segs) == (c.(seqno := c.seqno + len), piece)
  {
    if !Stops(ds, c, budget, segs) {
      assert ds[c.idx].End() == Start(ds, hi, c.idx + 1);
      assert c.idx + 1 < |ds| ==> ds[c.idx + 1].Len() > 0;
    }
  }

  /** What one packet may do: move on within the limit and the budget. */
  lemma {:induction false} FillMoves(ds: seq<Desc>, lo: int, hi: int, c: Ctx, seqMax: int, budget: int, segs: nat)
    requires Tiled(ds, lo, hi) && At(ds, hi, c) && (c.idx < |ds| ==> c.seqno <= seqMax)
    ensures
      var (c', pay) := Fill(ds, hi, c, seqMax, budget, segs);
      && At(ds, hi, c') && c.idx <= c'.idx && c'.seqno == c.seqno + |pay| && c'.budget == c.budget
      && (c'.idx < |ds| || pay != [] ==> c'.seqno <= seqMax)
      && |pay| <= (if budget > 0 then budget else 0)
    decreases |ds| - c.idx
  {
    FillUnfold(ds, lo, hi, c, seqMax, budget, segs);
    hide Fill;
    if !Stops(ds, c, budget, segs) {
      var d := ds[c.idx];
      if c.seqno + Take(d, c, seqMax, budget) == d.End() {
        FillMoves(ds, lo, hi, NextDesc(ds, c), seqMax, Left(d, c, seqMax, budget), segs - 1);
      }
    }
  }

  /** The payload is the stream at its sequence number. */
  lemma {:induction false} FillMatches(ds: seq<Desc>, lo: int, hi: int, c: Ctx, seqMax: int, budget: int, segs: nat,
                                       stream: int -> byte)
    requires Tiled(ds, lo, hi) && At(ds, hi, c) && (c.idx < |ds| ==> c.seqno <= seqMax) && Matching(ds, stream)
    ensures var pay := Fill(ds, hi, c, seqMax, budget, segs).1; pay == Slice(stream, c.seqno, c.seqno + |pay|)
    decreases |ds| - c.idx
  {
    hide Slice;
    FillUnfold(ds, lo, hi, c, seqMax, budget, segs);
    hide Fill;
    if Stops(ds, c, budget, segs) {
      SliceEmpty(stream, c.seqno);
    } else {
      var d := ds[c.idx];
      var len := Take(d, c, seqMax, budget);
      assert DescMatches(d, stream);
      SliceSub(stream, d.data, d.start, c.seqno - d.start, len);
      if c.seqno + len == d.End() {
        FillMatches(ds, lo, hi, NextDesc(ds, c), seqMax, Left(d, c, seqMax, budget), segs - 1, stream);
        var rest := Fill(ds, hi, NextDesc(ds, c), seqMax, Left(d, c, seqMax, budget), segs - 1).1;
        SliceJoin(stream, c.seqno, d.End(), d.End() + |rest|);
      }
    }
  }

  lemma SliceEmpty(stream: int -> byte, a: int)
    ensures Slice(stream, a, a) == []
  {
  }

  lemma SliceSub(stream: int -> byte, data: seq<byte>, start: int, off: nat, len: nat)
    requires data == Slice(stream, start, start + |data|) && off + len <= |data|
    ensures data[off..off + len] == Slice(stream, start + off, start + off + len)
  {
  }

  lemma SliceJoin(stream: int -> byte, a: int, b: int, c: int)
    requires a <= b <= c
    ensures Slice(stream, a, b) + Slice(stream, b, c) == Slice(stream, a, c)
  {
  }

  /** No byte of it belongs to a descriptor the peer reported. */
  lemma {:induction false} FillAvoids(ds: seq<Desc>, lo: int, hi: int, c: Ctx, seqMax: int, budget: int, segs: nat)
    requires Tiled(ds, lo, hi) && At(ds, hi, c) && (c.idx < |ds| ==> c.seqno <= seqMax)
    ensures AvoidsSacked(ds, c.seqno, c.seqno + |Fill(ds, hi, c, seqMax, budget, segs).1|)
    decreases |ds| - c.idx
  {
    FillUnfold(ds, lo, hi, c, seqMax, budget, segs);
    hide Fill;
    if !Stops(ds, c, budget, segs) {
      var d := ds[c.idx];
      var len := Take(d, c, seqMax, budget);
      AvoidsOwn(ds, lo, hi, c.idx, c.seqno, c.seqno + len);
      if c.seqno + len == d.End() {
        FillAvoids(ds, lo, hi, NextDesc(ds, c), seqMax, Left(d, c, seqMax, budget), segs - 1);
        var rest := Fill(ds, hi, NextDesc(ds, c), seqMax, Left(d, c, seqMax, budget), segs - 1).1;
        AvoidsJoin(ds, c.seqno, d.End(), d.End() + |rest|);
      }
    }
  }

  lemma AvoidsJoin(ds: seq<Desc>, a: int, b: int, c: int)
    requires a <= b <= c && AvoidsSacked(ds, a, b) && AvoidsSacked(ds, b, c)
    requires a < b < c ==> forall i | 0 <= i < |ds| && ds[i].sacked :: ds[i].Len() > 0
    ensures AvoidsSacked(ds, a, c)
  {
  }

  lemma AvoidsOwn(ds: seq<Desc>, lo: int, hi: int, k: nat, a: int, b: int)
    requires Tiled(ds, lo, hi) && k < |ds| && !ds[k].sacked && ds[k].start <= a <= b <= ds[k].End()
    ensures AvoidsSacked(ds, a, b)
  {
    forall i | 0 <= i < |ds| && ds[i].sacked ensures ds[i].End() <= a || b <= ds[i].start {
      if i < k {
        StartMonotone(ds, lo, hi, i, k);
      } else {
        StartMonotone(ds, lo, hi, k, i);
      }
    }
  }

  /** The largest payload of a packet and the most pieces it may have. */
  datatype Limits = Limits(mss: nat, segs: nat)

  ghost predicate SackedBelow(ds: seq<Desc>, seqMax: int) {
    forall i {:trigger ds[i].sacked} | 0 <= i < |ds| && ds[i].sacked :: ds[i].End() <= seqMax
  }

  /** A position transmission may start from. */
  ghost predicate Ready(ds: seq<Desc>, lo: int, hi: int, c: Ctx, seqMax: int) {
    && Tiled(ds, lo, hi) && At(ds, hi, c) && (c.idx < |ds| ==> c.seqno <= seqMax)
    && SackedBelow(ds, seqMax)
  }

  /** The number of packets waiting after one more was put in: a queue with a batch is flushed. */
  function Enqueued(queued: nat, flushed: nat): (n: nat)
    ensures n <= queued + 1
  {
    if queued + 1 < BATCH_SIZE then queued + 1 else queued + 1 - Min(flushed, BATCH_SIZE)
  }

  /** The number of packets waiting before the i-th of a burst, the ones before it having gone out. */
  function Queued(dev: Device, i: nat): (n: nat)
    ensures n <= dev.queued + i
  {
    if i == 0 then dev.queued else Enqueued(Queued(dev, i - 1), dev.turns(i - 1).flushed)
  }

  function EnvAt(dev: Device, i: nat): Env {
    Env(dev.turns(i).hdrOk, dev.turns(i).segAllocs, Queued(dev, i) < TXQ_BUF_SIZE)
  }

  /** How many packets a burst may try: a batch, but no more than the queue has room for. */
  function BurstSize(dev: Device): (n: nat) {
    if dev.queued < TXQ_BUF_SIZE then Min(TXQ_BUF_SIZE - dev.queued, BATCH_SIZE) else 0
  }

  function Turns(dev: Device): (envs: seq<Env>)
    ensures |envs| == BurstSize(dev)
  {
    seq(BurstSize(dev), i requires 0 <= i => EnvAt(dev, i))
  }

  /** The device has room for every packet a burst may try. */
  lemma NeverRefused(dev: Device)
    ensures forall i | 0 <= i < |Turns(dev)| :: Turns(dev)[i].enqueueOk
  {
  }

  /** xmit_one_packet: where it leaves off, and the packet if one went out. */
  ghost function XmitOne(ds: seq<Desc>, lo: int, hi: int, c: Ctx, seqMax: int, env: Env, lim: Limits): (r: (Ctx, seq<Wire>))
    requires Ready(ds, lo, hi, c, seqMax)
  {
    SkipSound(ds, lo, hi, c, seqMax);
    var c1 := SkipSacked(ds, c);
    if c1.idx == |ds| || !env.hdrOk then (c1, [])
    else
      var (c2, pay) := Fill(ds, hi, c1, seqMax, Min(c.budget, lim.mss), Min(env.segAllocs, lim.segs));
      if pay == [] || !env.enqueueOk then (c2, [])
      else (c2.(budget := c.budget - |pay|), [Wire(c1.seqno, pay)])
  }

  /** do_tcp_xmit_data: one packet per entry of `envs`, until the budget is spent or one fails. */
  ghost function XmitMany(ds: seq<Desc>, lo: int, hi: int, c: Ctx, seqMax: int, envs: seq<Env>, lim: Limits): (r: (Ctx, seq<Wire>))
    requires Ready(ds, lo, hi, c, seqMax)
    decreases |envs|
  {
    if envs == [] || c.budget <= 0 then (c, [])
    else
      XmitOneReady(ds, lo, hi, c, seqMax, envs[0], lim);
      var (c1, ws) := XmitOne(ds, lo, hi, c, seqMax, envs[0], lim);
      if ws == [] then (c1, [])
      else
        var (c2, more) := XmitMany(ds, lo, hi, c1, seqMax, envs[1..], lim);
        (c2, ws + more)
  }

  lemma {:induction false} SkipSound(ds: seq<Desc>, lo: int, hi: int, c: Ctx, seqMax: int)
    requires Ready(ds, lo, hi, c, seqMax)
    ensures
      var c' := SkipSacked(ds, c);
      && Ready(ds, lo, hi, c', seqMax) && c.seqno <= c'.seqno && c'.budget == c.budget
      && (c.seqno < c'.seqno ==> c'.seqno <= seqMax)
      && ((c.idx < |ds| ==> !ds[c.idx].sacked) ==> c' == c)
    decreases |ds| - c.idx
  {
    if c.idx < |ds| && ds[c.idx].sacked {
      assert ds[c.idx].End() == Start(ds, hi, c.idx + 1);
      assert c.idx + 1 < |ds| ==> ds[c.idx + 1].Len() > 0;
      SkipSound(ds, lo, hi, c.(idx := c.idx + 1, seqno := ds[c.idx].End()), seqMax);
    }
  }

  lemma XmitOneReady(ds: seq<Desc>, lo: int, hi: int, c: Ctx, seqMax: int, env: Env, lim: Limits)
    requires Ready(ds, lo, hi, c, seqMax)
    ensures
      var (c', ws) := XmitOne(ds, lo, hi, c, seqMax, env, lim);
      && Ready(ds, lo, hi, c', seqMax) && c.seqno <= c'.seqno
      && (c.seqno < c'.seqno ==> c'.seqno <= seqMax)
      && |ws| <= 1 && c'.budget == c.budget - (if ws == [] then 0 else |ws[0].data|)
      && ((c.idx < |ds| ==> !ds[c.idx].sacked) ==>
            c'.seqno <= c.seqno + (if c.budget > 0 then c.budget else 0) &&
            (ws != [] ==> c'.seqno + c'.budget == c.seqno + c.budget))
  {
    hide Tiled;
    hide SackedBelow;
    SkipSound(ds, lo, hi, c, seqMax);
    var c1 := SkipSacked(ds, c);
    if c1.idx < |ds| {
      FillMoves(ds, lo, hi, c1, seqMax, Min(c.budget, lim.mss), Min(env.segAllocs, lim.segs));
    }
    hide Fill;
    hide SkipSacked;
  }

  /** A packet that may go out: within [from, seqMax), no reported byte, the bytes of the stream. */
  ghost predicate Safe(w: Wire, ds: seq<Desc>, from: int, seqMax: int, stream: int -> byte) {
    && w.data != [] && from <= w.start && w.End() <= seqMax
    && AvoidsSacked(ds, w.start, w.End())
    && w.data == Slice(stream, w.start, w.End())
  }

  lemma XmitOneSafe(ds: seq<Desc>, lo: int, hi: int, c: Ctx, seqMax: int, env: Env, lim: Limits, stream: int -> byte)
    requires Ready(ds, lo, hi, c, seqMax) && Matching(ds, stream)
    ensures forall w | w in XmitOne(ds, lo, hi, c, seqMax, env, lim).1 :: Safe(w, ds, c.seqno, seqMax, stream)
  {
    hide Tiled;
    hide SackedBelow;
    hide AvoidsSacked;
    hide Slice;
    SkipSound(ds, lo, hi, c, seqMax);
    var c1 := SkipSacked(ds, c);
    if c1.idx < |ds| {
      var b, n := Min(c.budget, lim.mss), Min(env.segAllocs, lim.segs);
      FillMoves(ds, lo, hi, c1, seqMax, b, n);
      FillMatches(ds, lo, hi, c1, seqMax, b, n, stream);
      FillAvoids(ds, lo, hi, c1, seqMax, b, n);
    }
    hide Fill;
    hide SkipSacked;
  }

  /** Whatever the environment does, transmission ends at a position that names its descriptor,
      not beyond the limit. */
  lemma {:induction false} XmitManyReady(ds: seq<Desc>, lo: int, hi: int, c: Ctx, seqMax: int, envs: seq<Env>, lim: Limits)
    requires Ready(ds, lo, hi, c, seqMax)
    ensures
      var (c', ws) := XmitMany(ds, lo, hi, c, seqMax, envs, lim);
      && Ready(ds, lo, hi, c', seqMax) && c.seqno <= c'.seqno
      && (c.seqno < c'.seqno ==> c'.seqno <= seqMax)
    decreases |envs|
  {
    hide Ready;
    hide XmitOne;
    if envs != [] && c.budget > 0 {
      XmitOneReady(ds, lo, hi, c, seqMax, envs[0], lim);
      var (c1, ws) := XmitOne(ds, lo, hi, c, seqMax, envs[0], lim);
      if ws != [] {
        XmitManyReady(ds, lo, hi, c1, seqMax, envs[1..], lim);
      }
    }
  }

  /** Whatever the environment does, every packet put out lies between the starting point and
      the limit, carries the stream and no byte the peer reported. */
  lemma {:induction false} XmitManySafe(ds: seq<Desc>, lo: int, hi: int, c: Ctx, seqMax: int, envs: seq<Env>, lim: Limits,
                                        stream: int -> byte)
    requires Ready(ds, lo, hi, c, seqMax) && Matching(ds, stream)
    ensures forall w | w in XmitMany(ds, lo, hi, c, seqMax, envs, lim).1 :: Safe(w, ds, c.seqno, seqMax, stream)
    decreases |envs|
  {
    hide Ready;
    hide XmitOne;
    if envs != [] && c.budget > 0 {
      XmitOneReady(ds, lo, hi, c, seqMax, envs[0], lim);
      XmitOneSafe(ds, lo, hi, c, seqMax, envs[0], lim, stream);
      var (c1, ws) := XmitOne(ds, lo, hi, c, seqMax, envs[0], lim);
      if ws != [] {
        XmitManySafe(ds, lo, hi, c1, seqMax, envs[1..], lim, stream);
      }
    }
  }

  /** Where nothing is reported from the starting point on, no more than the budget goes out. */
  lemma {:induction false} XmitManyBudget(ds: seq<Desc>, lo: int, hi: int, c: Ctx, seqMax: int, envs: seq<Env>, lim: Limits)
    requires Ready(ds, lo, hi, c, seqMax)
    requires forall i {:trigger ds[i].sacked} | c.idx <= i < |ds| :: !ds[i].sacked
    ensures XmitMany(ds, lo, hi, c, seqMax, envs, lim).0.seqno <= c.seqno + if c.budget > 0 then c.budget else 0
    decreases |envs|
  {
    hide XmitOne;
    if envs != [] && c.budget > 0 {
      XmitOneReady(ds, lo, hi, c, seqMax, envs[0], lim);
      var (c1, ws) := XmitOne(ds, lo, hi, c, seqMax, envs[0], lim);
      if ws != [] {
        IdxMonotone(ds, lo, hi, c, c1);
        XmitManyBudget(ds, lo, hi, c1, seqMax, envs[1..], lim);
      }
    }
  }

  /** Every packet lies below the position transmission ends at. */
  lemma {:induction false} XmitManyBelow(ds: seq<Desc>, lo: int, hi: int, c: Ctx, seqMax: int, envs: seq<Env>, lim: Limits)
    requires Ready(ds, lo, hi, c, seqMax)
    ensures var (c', ws) := XmitMany(ds, lo, hi, c, seqMax, envs, lim); forall w | w in ws :: w.End() <= c'.seqno
    decreases |envs|
  {
    hide Ready;
    hide XmitOne;
    if envs != [] && c.budget > 0 {
      XmitOneReady(ds, lo, hi, c, seqMax, envs[0], lim);
      XmitOneBelow(ds, lo, hi, c, seqMax, envs[0], lim);
      var (c1, ws) := XmitOne(ds, lo, hi, c, seqMax, envs[0], lim);
      if ws != [] {
        XmitManyReady(ds, lo, hi, c1, seqMax, envs[1..], lim);
        XmitManyBelow(ds, lo, hi, c1, seqMax, envs[1..], lim);
      }
    }
  }

  lemma XmitOneBelow(ds: seq<Desc>, lo: int, hi: int, c: Ctx, seqMax: int, env: Env, lim: Limits)
    requires Ready(ds, lo, hi, c, seqMax)
    ensures var (c', ws) := XmitOne(ds, lo, hi, c, seqMax, env, lim); forall w | w in ws :: w.End() <= c'.seqno
  {
    hide Tiled;
    hide SackedBelow;
    SkipSound(ds, lo, hi, c, seqMax);
    var c1 := SkipSacked(ds, c);
    if c1.idx < |ds| {
      FillMoves(ds, lo, hi, c1, seqMax, Min(c.budget, lim.mss), Min(env.segAllocs, lim.segs));
    }
    hide Fill;
    hide SkipSacked;
  }

  // ---- what one round of transmission covers

  ghost predicate Sent(ws: seq<Wire>, at: int) {
    exists j :: 0 <= j < |ws| && ws[j].start <= at < ws[j].End()
  }

  ghost predicate Reported(ds: seq<Desc>, at: int) {
    exists i :: 0 <= i < |ds| && ds[i].sacked && ds[i].start <= at < ds[i].End()
  }

  /** The packets come in order without overlap from `from` on, none larger than `mss`. */
  ghost predicate InOrder(ws: seq<Wire>, from: int, mss: nat) {
    && (forall j {:trigger ws[j].start} | 0 <= j < |ws| :: from <= ws[j].start && 0 < |ws[j].data| <= mss)
    && (forall j, k {:trigger ws[j].start, ws[k].start} | 0 <= j < k < |ws| :: ws[j].End() <= ws[k].start)
  }

  function LastEnd(ws: seq<Wire>, from: int): int {
    if ws == [] then from else ws[|ws| - 1].End()
  }

  lemma {:induction false} PassedReported(ds: seq<Desc>, lo: int, hi: int, c: Ctx, seqMax: int)
    requires Ready(ds, lo, hi, c, seqMax)
    ensures forall p | c.seqno <= p < SkipSacked(ds, c).seqno :: Reported(ds, p)
    decreases |ds| - c.idx
  {
    if c.idx < |ds| && ds[c.idx].sacked {
      assert ds[c.idx].End() == Start(ds, hi, c.idx + 1);
      assert c.idx + 1 < |ds| ==> ds[c.idx + 1].Len() > 0;
      PassedReported(ds, lo, hi, c.(idx := c.idx + 1, seqno := ds[c.idx].End()), seqMax);
    }
  }

  /** The packet ends where transmission goes on, and only reported bytes were passed over to reach it. */
  lemma XmitOneCovers(ds: seq<Desc>, lo: int, hi: int, c: Ctx, seqMax: int, env: Env, lim: Limits)
    requires Ready(ds, lo, hi, c, seqMax)
    ensures
      var (c', ws) := XmitOne(ds, lo, hi, c, seqMax, env, lim);
      ws == [] || (ws == [ws[0]] && c.seqno <= ws[0].start && ws[0].End() == c'.seqno && 0 < |ws[0].data| <= lim.mss &&
                   forall p | c.seqno <= p < ws[0].start :: Reported(ds, p))
  {
    hide Tiled;
    hide SackedBelow;
    hide Reported;
    SkipSound(ds, lo, hi, c, seqMax);
    PassedReported(ds, lo, hi, c, seqMax);
    var c1 := SkipSacked(ds, c);
    if c1.idx < |ds| {
      FillMoves(ds, lo, hi, c1, seqMax, Min(c.budget, lim.mss), Min(env.segAllocs, lim.segs));
    }
    hide Fill;
    hide SkipSacked;
  }

  /** Transmission leaves no hole: from where it starts to the end of its last packet, every byte was
      either put into one of the packets, each once and in order, or already reported by the peer. */
  lemma {:induction false} XmitManyCovers(ds: seq<Desc>, lo: int, hi: int, c: Ctx, seqMax: int, envs: seq<Env>, lim: Limits)
    requires Ready(ds, lo, hi, c, seqMax)
    ensures
      var ws := XmitMany(ds, lo, hi, c, seqMax, envs, lim).1;
      && InOrder(ws, c.seqno, lim.mss)
      && forall p | c.seqno <= p < LastEnd(ws, c.seqno) :: Sent(ws, p) || Reported(ds, p)
    decreases |envs|
  {
    hide Ready;
    hide XmitOne;
    hide Reported;
    if envs != [] && c.budget > 0 {
      XmitOneReady(ds, lo, hi, c, seqMax, envs[0], lim);
      XmitOneCovers(ds, lo, hi, c, seqMax, envs[0], lim);
      var (c1, ws) := XmitOne(ds, lo, hi, c, seqMax, envs[0], lim);
      if ws != [] {
        XmitManyCovers(ds, lo, hi, c1, seqMax, envs[1..], lim);
        var more := XmitMany(ds, lo, hi, c1, seqMax, envs[1..], lim).1;
        hide XmitMany;
        CoversJoin(ds, ws[0], more, c.seqno, c1.seqno, lim.mss);
      }
    }
  }

  lemma CoversJoin(ds: seq<Desc>, w: Wire, more: seq<Wire>, from: int, next: int, mss: nat)
    requires from <= w.start && w.End() == next && 0 < |w.data| <= mss && InOrder(more, next, mss)
    requires forall p | from <= p < w.start :: Reported(ds, p)
    requires forall p | next <= p < LastEnd(more, next) :: Sent(more, p) || Reported(ds, p)
    ensures
      var ws := [w] + more;
      && InOrder(ws, from, mss)
      && forall p | from <= p < LastEnd(ws, from) :: Sent(ws, p) || Reported(ds, p)
  {
    hide Reported;
    var ws := [w] + more;
    assert LastEnd(ws, from) == LastEnd(more, next);
    forall j | 0 <= j < |ws| ensures from <= ws[j].start && 0 < |ws[j].data| <= mss {
      assert j > 0 ==> ws[j] == more[j - 1] && next <= more[j - 1].start;
    }
    forall j, k | 0 <= j < k < |ws| ensures ws[j].End() <= ws[k].start {
      assert ws[k] == more[k - 1] && next <= more[k - 1].start;
      assert j > 0 ==> ws[j] == more[j - 1] && more[j - 1].End() <= more[k - 1].start;
    }
    forall p | w.start <= p < LastEnd(ws, from) ensures Sent(ws, p) || Reported(ds, p) {
      if p < next {
        assert ws[0].start <= p < ws[0].End();
      } else if Sent(more, p) {
        var j :| 0 <= j < |more| && more[j].start <= p < more[j].End();
        assert ws[j + 1] == more[j];
      }
    }
  }

  lemma IdxMonotone(ds: seq<Desc>, lo: int, hi: int, c: Ctx, c': Ctx)
    requires Tiled(ds, lo, hi) && At(ds, hi, c) && At(ds, hi, c') && c.seqno <= c'.seqno
    ensures c.idx <= c'.idx
  {
    if c'.idx < c.idx {
      StartMonotone(ds, lo, hi, c'.idx, c.idx);
    }
  }
}
