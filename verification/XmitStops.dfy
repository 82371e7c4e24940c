/** When transmission stops.  A burst goes on until everything is sent, the budget is spent, the device
    has taken all it has room for, or memory runs out; and a packet is as large as it can be
    (xmit_one_packet, do_tcp_xmit_data and tcp_xmit_data of src/tcp/tcp_output.c). */
module XmitStops {
  import opened SeqNum
  import opened Seqs
  import opened Chains
  import opened TxQueue
  import opened XmitSpec
  import opened SendSpec
  import opened Scoreboard
  import opened SendSteps
  import opened SendAcks
  import SR = SendRuns
  import opened XmitExact

  /** The number of bytes in the packets. */
  function Total(ws: seq<Wire>): nat {
    if ws == [] then 0 else |ws[0].data| + Total(ws[1..])
  }

  lemma TotalCons(w: Wire, ws: seq<Wire>)
    ensures Total([w] + ws) == |w.data| + Total(ws)
  {
    assert ([w] + ws)[1..] == ws;
  }

  // ---- how large a packet is

  /** The packet takes pieces of `n` descriptors, to the end of the last of them. */
  ghost predicate Spans(ds: seq<Desc>, from: int, to: int, n: nat) {
    exists i | 0 <= i < |ds| :: ds[i].start <= from < ds[i].End() && 0 < n <= |ds| - i && ds[i + n - 1].End() == to
  }

  lemma SpansFrom(ds: seq<Desc>, i: nat, from: int, to: int, n: nat)
    requires i < |ds| && ds[i].start <= from < ds[i].End() && 0 < n <= |ds| - i && ds[i + n - 1].End() == to
    ensures Spans(ds, from, to, n)
  {
  }

  /** A packet that could not be larger: `budget` bytes, or it ends at the end of what may be sent, in
      front of a descriptor the peer has reported, or behind as many pieces as it may have. */
  ghost predicate Full(ds: seq<Desc>, from: int, len: nat, end: int, budget: int, segs: nat) {
    len == budget || from + len == end || Reported(ds, from + len) || Spans(ds, from, from + len, segs)
  }

  /** Where the position is after some pieces: behind a number of whole descriptors, or stuck. */
  lemma {:induction false} FillStops(ds: seq<Desc>, lo: int, hi: int, c: Ctx, seqMax: int, budget: int, segs: nat)
    requires Tiled(ds, lo, hi) && At(ds, hi, c) && (c.idx < |ds| ==> c.seqno <= seqMax) && budget >= 0
    ensures
      var (c', pay) := Fill(ds, hi, c, seqMax, budget, segs);
      || |pay| == budget || c'.seqno == seqMax || c'.idx >= |ds| || ds[c'.idx].sacked
      || (c'.idx == c.idx + segs && c'.seqno == if segs == 0 then c.seqno else ds[c'.idx - 1].End())
    decreases |ds| - c.idx
  {
    FillUnfold(ds, lo, hi, c, seqMax, budget, segs);
    hide Fill;
    hide Tiled;
    if !Stops(ds, c, budget, segs) {
      var d := ds[c.idx];
      if c.seqno + Take(d, c, seqMax, budget) == d.End() {
        FillStops(ds, lo, hi, NextDesc(ds, c), seqMax, Left(d, c, seqMax, budget), segs - 1);
        FillMoves(ds, lo, hi, NextDesc(ds, c), seqMax, Left(d, c, seqMax, budget), segs - 1);
      }
    }
  }

  /** A position at the end of the queue is the end of the data. */
  lemma AtEnd(ds: seq<Desc>, hi: int, c: Ctx)
    requires At(ds, hi, c) && c.idx == |ds|
    ensures c.seqno == hi
  {
  }

  /** One attempt, with a device that has room: a packet goes out unless everything is sent or memory is
      short, and it could not be larger. */
  lemma XmitOneStops(ds: seq<Desc>, lo: int, hi: int, c: Ctx, seqMax: int, env: Env, lim: Limits)
    requires Ready(ds, lo, hi, c, seqMax) && c.budget > 0 && env.enqueueOk && lim.mss > 0 && lim.segs > 0
    ensures
      var (c', ws) := XmitOne(ds, lo, hi, c, seqMax, env, lim);
      && (ws == [] ==> c'.seqno >= Min(seqMax, hi) || !env.hdrOk || env.segAllocs == 0)
      && (ws != [] ==> ws == [ws[0]] && 0 < |ws[0].data| <= Min(c.budget, lim.mss) && ws[0].End() == c'.seqno)
  {
    hide Tiled;
    hide SackedBelow;
    SkipSound(ds, lo, hi, c, seqMax);
    var c1 := SkipSacked(ds, c);
    hide SkipSacked;
    if c1.idx < |ds| {
      var b, n := Min(c.budget, lim.mss), Min(env.segAllocs, lim.segs);
      FillMoves(ds, lo, hi, c1, seqMax, b, n);
      FillSome(ds, lo, hi, c1, seqMax, b, n);
      hide Fill;
    }
  }

  lemma FillSome(ds: seq<Desc>, lo: int, hi: int, c: Ctx, seqMax: int, budget: int, segs: nat)
    requires Tiled(ds, lo, hi) && At(ds, hi, c) && (c.idx < |ds| ==> c.seqno <= seqMax)
    ensures Fill(ds, hi, c, seqMax, budget, segs).1 != [] <==> !Stops(ds, c, budget, segs) && c.seqno < seqMax
  {
    FillUnfold(ds, lo, hi, c, seqMax, budget, segs);
    hide Fill;
    hide Tiled;
  }

  lemma ReportedAt(ds: seq<Desc>, hi: int, c: Ctx)
    requires At(ds, hi, c) && c.idx < |ds| && ds[c.idx].sacked
    ensures Reported(ds, c.seqno)
  {
  }

  lemma XmitOneFull(ds: seq<Desc>, lo: int, hi: int, c: Ctx, seqMax: int, env: Env, lim: Limits)
    requires Ready(ds, lo, hi, c, seqMax) && c.budget > 0 && env.enqueueOk && lim.mss > 0 && lim.segs > 0
    ensures
      var ws := XmitOne(ds, lo, hi, c, seqMax, env, lim).1;
      ws != [] ==> Full(ds, ws[0].start, |ws[0].data|, Min(seqMax, hi), Min(c.budget, lim.mss), Min(env.segAllocs, lim.segs))
  {
    hide SackedBelow;
    hide Reported;
    hide Spans;
    SkipSound(ds, lo, hi, c, seqMax);
    var c1 := SkipSacked(ds, c);
    hide SkipSacked;
    var ws := XmitOne(ds, lo, hi, c, seqMax, env, lim).1;
    if ws != [] {
      var b, n := Min(c.budget, lim.mss), Min(env.segAllocs, lim.segs);
      FillMoves(ds, lo, hi, c1, seqMax, b, n);
      FillStops(ds, lo, hi, c1, seqMax, b, n);
      var c2 := Fill(ds, hi, c1, seqMax, b, n).0;
      hide Fill;
      StartMonotone(ds, lo, hi, c2.idx, |ds|);
      hide Tiled;
      if c2.idx == |ds| {
        AtEnd(ds, hi, c2);
      } else if ds[c2.idx].sacked {
        ReportedAt(ds, hi, c2);
      } else if c2.seqno != seqMax && |ws[0].data| != b {
        SpansFrom(ds, c1.idx, c1.seqno, c2.seqno, n);
      }
    }
  }

  // ---- how long a burst is

  /** Every packet of a burst is as large as the budget it finds and the memory there is for it allow. */
  ghost predicate AllFull(ds: seq<Desc>, ws: seq<Wire>, end: int, budget: int, envs: seq<Env>, lim: Limits) {
    |ws| <= |envs| && forall j {:trigger ws[j]} | 0 <= j < |ws| ::
      Full(ds, ws[j].start, |ws[j].data|, end, Min(budget - Total(ws[..j]), lim.mss), Min(envs[j].segAllocs, lim.segs))
  }

  lemma AllFullCons(ds: seq<Desc>, w: Wire, more: seq<Wire>, end: int, budget: int, envs: seq<Env>, lim: Limits)
    requires envs != [] && AllFull(ds, more, end, budget - |w.data|, envs[1..], lim)
    requires Full(ds, w.start, |w.data|, end, Min(budget, lim.mss), Min(envs[0].segAllocs, lim.segs))
    ensures AllFull(ds, [w] + more, end, budget, envs, lim)
  {
    hide Full;
    assert Total([]) == 0;
    hide Total;
    var ws := [w] + more;
    forall j | 0 <= j < |ws|
      ensures Full(ds, ws[j].start, |ws[j].data|, end, Min(budget - Total(ws[..j]), lim.mss), Min(envs[j].segAllocs, lim.segs))
    {
      if j == 0 {
        assert ws[..0] == [];
      } else {
        assert ws[..j] == [w] + more[..j - 1];
        TotalCons(w, more[..j - 1]);
        assert ws[j] == more[j - 1] && envs[1..][j - 1] == envs[j];
      }
    }
  }

  /** There is memory for a header and a piece. */
  predicate Memory(env: Env) { env.hdrOk && env.segAllocs > 0 }

  /** Why a burst stops: everything is sent, the budget is spent, there are no turns left, or the next one
      has no memory. */
  ghost predicate Stopped(envs: seq<Env>, n: nat, at: int, end: int, left: int) {
    at >= end || left <= 0 || n == |envs| || (n < |envs| && !Memory(envs[n]))
  }

  lemma {:induction false} TakenStops(ds: seq<Desc>, lo: int, hi: int, c: Ctx, seqMax: int, envs: seq<Env>, lim: Limits)
    requires Ready(ds, lo, hi, c, seqMax) && lim.mss > 0 && lim.segs > 0
    requires forall i | 0 <= i < |envs| :: envs[i].enqueueOk
    ensures
      var (c', ws) := XmitMany(ds, lo, hi, c, seqMax, envs, lim);
      && c'.budget == c.budget - Total(ws) && Total(ws) <= Max(c.budget, 0)
      && Stopped(envs, |ws|, c'.seqno, Min(seqMax, hi), c'.budget)
      && AllFull(ds, ws, Min(seqMax, hi), c.budget, envs, lim)
    decreases |envs|
  {
    hide Ready;
    hide XmitOne;
    hide Full;
    if envs != [] && c.budget > 0 {
      XmitOneReady(ds, lo, hi, c, seqMax, envs[0], lim);
      XmitOneStops(ds, lo, hi, c, seqMax, envs[0], lim);
      XmitOneFull(ds, lo, hi, c, seqMax, envs[0], lim);
      var (c1, ws) := XmitOne(ds, lo, hi, c, seqMax, envs[0], lim);
      if ws != [] {
        TakenStops(ds, lo, hi, c1, seqMax, envs[1..], lim);
        var more := XmitMany(ds, lo, hi, c1, seqMax, envs[1..], lim).1;
        hide XmitMany;
        TotalCons(ws[0], more);
        AllFullCons(ds, ws[0], more, Min(seqMax, hi), c.budget, envs, lim);
      }
    }
  }

  // ---- new data

  /** Where nothing ahead is reported, the position moves by what goes out. */
  lemma {:induction false} TakenLevel(ds: seq<Desc>, lo: int, hi: int, c: Ctx, seqMax: int, envs: seq<Env>, lim: Limits)
    requires Ready(ds, lo, hi, c, seqMax) && forall i | 0 <= i < |envs| :: envs[i].enqueueOk
    requires forall i {:trigger ds[i].sacked} | c.idx <= i < |ds| :: !ds[i].sacked
    ensures var c' := XmitMany(ds, lo, hi, c, seqMax, envs, lim).0; c'.seqno + c'.budget == c.seqno + c.budget
    decreases |envs|
  {
    hide XmitOne;
    if envs != [] && c.budget > 0 {
      XmitOneReady(ds, lo, hi, c, seqMax, envs[0], lim);
      var (c1, ws) := XmitOne(ds, lo, hi, c, seqMax, envs[0], lim);
      if ws != [] {
        IdxMonotone(ds, lo, hi, c, c1);
        TakenLevel(ds, lo, hi, c1, seqMax, envs[1..], lim);
      } else {
        NothingMoves(ds, lo, hi, c, seqMax, envs[0], lim);
      }
    }
  }

  lemma NothingMoves(ds: seq<Desc>, lo: int, hi: int, c: Ctx, seqMax: int, env: Env, lim: Limits)
    requires Ready(ds, lo, hi, c, seqMax) && env.enqueueOk && XmitOne(ds, lo, hi, c, seqMax, env, lim).1 == []
    requires c.idx < |ds| ==> !ds[c.idx].sacked
    ensures XmitOne(ds, lo, hi, c, seqMax, env, lim).0.seqno == c.seqno
  {
    hide Tiled;
    hide SackedBelow;
    SkipSound(ds, lo, hi, c, seqMax);
    if c.idx < |ds| {
      FillMoves(ds, lo, hi, c, seqMax, Min(c.budget, lim.mss), Min(env.segAllocs, lim.segs));
    }
    hide Fill;
  }

  lemma AllSent(t: Tx)
    requires Core(t) && t.nxt == |t.descs|
    ensures t.dataNxt <= t.sndNxt
  {
  }

  /** tcp_xmit_data goes on until all data is sent, the window is full, the device has taken all it has room
      for, or memory runs out; and each packet has as many bytes as the MSS, the window, the data and the
      number of pieces allow. */
  lemma XmitDataStops(t: Tx, wnd: nat, dev: Device, lim: Limits)
    requires Inv(t) && lim.mss > 0 && lim.segs > 0
    ensures
      var (t', ws) := XmitData(t, wnd, dev, lim);
      && (|| t'.sndNxt >= t.dataNxt || t'.sndNxt - t.sndUna >= wnd || |ws| == BurstSize(dev)
          || (|ws| < BurstSize(dev) && !Memory(Turns(dev)[|ws|])))
      && t'.sndNxt == t.sndNxt + Total(ws)
      && AllFull(t.descs, ws, t.dataNxt, wnd - (t.sndNxt - t.sndUna), Turns(dev), lim)
  {
    hide XmitMany;
    hide Ready;
    hide Full;
    hide Turns;
    if t.nxt == |t.descs| {
      AllSent(t);
    }
    assert t.sndUna <= t.sndNxt;
    hide Core;
    if wnd != 0 && t.nxt != |t.descs| {
      var budget := wnd - (t.sndNxt - t.sndUna);
      var c := Ctx(t.sndNxt, t.nxt, budget);
      FinLeavesNothing(t);
      NewDataReady(t, budget);
      FreshNotSacked(t);
      NeverRefused(dev);
      TakenStops(t.descs, Lo(t), t.dataNxt, c, t.dataNxt, Turns(dev), lim);
      TakenLevel(t.descs, Lo(t), t.dataNxt, c, t.dataNxt, Turns(dev), lim);
    }
  }

  /** There is room for new data: in the window, in the device, and in memory for one packet. */
  predicate Open(t: Tx, wnd: nat, dev: Device, lim: Limits) {
    t.sndNxt - t.sndUna < wnd && lim.mss > 0 && lim.segs > 0 && BurstSize(dev) > 0 && Memory(EnvAt(dev, 0))
  }

  /** With room, unsent data moves snd_nxt. */
  lemma XmitProgress(t: Tx, wnd: nat, dev: Device, lim: Limits)
    requires Inv(t) && t.sndNxt < t.dataNxt && Open(t, wnd, dev, lim)
    ensures t.sndNxt < XmitData(t, wnd, dev, lim).0.sndNxt <= t.dataNxt
  {
    XmitDataStops(t, wnd, dev, lim);
    XmitKeeps(t, wnd, dev, lim);
    hide XmitData;
    hide AllFull;
    hide Inv;
  }

  ghost predicate AllOpen(t: Tx, es: seq<SR.Event>) {
    forall e | e in es :: e.Xmit? && t.dataNxt - t.sndUna < e.wnd && Open(t.(sndNxt := t.sndUna), e.wnd, e.dev, e.lim)
  }

  /** Everything written goes out: as many bursts with room as there are unsent bytes are enough, whatever
      each of them is able to send. */
  lemma {:induction false} EverythingGoesOut(t: Tx, es: seq<SR.Event>)
    requires Inv(t) && t.chunk > 0 && AllOpen(t, es) && |es| >= t.dataNxt - t.sndNxt
    ensures
      var t' := SR.Run(t, es).tx;
      t'.sndNxt >= t'.dataNxt == t.dataNxt && t'.sndUna == t.sndUna
    decreases |es|
  {
    hide Inv;
    if es != [] {
      var e := es[0];
      assert e in es;
      XmitKeeps(t, e.wnd, e.dev, e.lim);
      if t.sndNxt < t.dataNxt {
        XmitProgress(t, e.wnd, e.dev, e.lim);
      }
      hide XmitData;
      SR.StepKeeps(t, e);
      var t1 := SR.Step(t, e).tx;
      assert forall d | d in es[1..] :: d in es;
      EverythingGoesOut(t1, es[1..]);
    }
  }
}
