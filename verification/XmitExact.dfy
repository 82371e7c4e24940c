/** Exactly which bytes go out.  A burst tries no more packets than the device has room for, so no packet
    is built in vain: what the position moves over went out, except what the peer has reported
    (do_tcp_xmit_data, tcp_xmit_data and do_tcp_retrans of src/tcp/tcp_output.c, tcp_timeout_rto of
    src/tcp/tcp_timeout.c). */
module XmitExact {
  import opened SeqNum
  import opened Seqs
  import opened Chains
  import opened TxQueue
  import opened XmitSpec
  import opened SendSpec
  import opened Scoreboard
  import opened SendSteps
  import opened SendAcks
  import opened SendRuns

  /** The packets hold the bytes of [from, to) the peer has not reported, and no other. */
  ghost predicate Exactly(ds: seq<Desc>, ws: seq<Wire>, from: int, to: int) {
    forall p :: Sent(ws, p) <==> from <= p < to && !Reported(ds, p)
  }

  /** What avoids the reported descriptors is not reported. */
  lemma AvoidsReported(ds: seq<Desc>, a: int, b: int)
    requires AvoidsSacked(ds, a, b)
    ensures forall p | a <= p < b :: !Reported(ds, p)
  {
  }

  lemma ExactlyOne(ds: seq<Desc>, w: Wire, from: int)
    requires from <= w.start && AvoidsSacked(ds, w.start, w.End()) && forall p | from <= p < w.start :: Reported(ds, p)
    ensures Exactly(ds, [w], from, w.End())
  {
    AvoidsReported(ds, w.start, w.End());
    hide Reported;
    forall p ensures Sent([w], p) <==> w.start <= p < w.End() {
      assert [w][0] == w;
    }
  }

  /** One attempt, with a device that has room. */
  lemma XmitOneExact(ds: seq<Desc>, lo: int, hi: int, c: Ctx, seqMax: int, env: Env, lim: Limits)
    requires Ready(ds, lo, hi, c, seqMax) && env.enqueueOk
    ensures var (c', ws) := XmitOne(ds, lo, hi, c, seqMax, env, lim); Exactly(ds, ws, c.seqno, c'.seqno)
  {
    hide Tiled;
    hide SackedBelow;
    hide Reported;
    hide AvoidsSacked;
    SkipSound(ds, lo, hi, c, seqMax);
    PassedReported(ds, lo, hi, c, seqMax);
    var c1 := SkipSacked(ds, c);
    hide SkipSacked;
    if c1.idx < |ds| && env.hdrOk {
      var b, n := Min(c.budget, lim.mss), Min(env.segAllocs, lim.segs);
      FillMoves(ds, lo, hi, c1, seqMax, b, n);
      FillAvoids(ds, lo, hi, c1, seqMax, b, n);
      hide Fill;
      var ws := XmitOne(ds, lo, hi, c, seqMax, env, lim).1;
      if ws != [] {
        ExactlyOne(ds, ws[0], c.seqno);
      }
    }
  }

  lemma SentJoin(a: seq<Wire>, b: seq<Wire>, p: int)
    ensures Sent(a + b, p) <==> Sent(a, p) || Sent(b, p)
  {
    if Sent(a, p) {
      var j :| 0 <= j < |a| && a[j].start <= p < a[j].End();
      assert (a + b)[j] == a[j];
    }
    if Sent(b, p) {
      var j :| 0 <= j < |b| && b[j].start <= p < b[j].End();
      assert (a + b)[|a| + j] == b[j];
    }
  }

  lemma ExactlyJoin(ds: seq<Desc>, a: seq<Wire>, b: seq<Wire>, from: int, mid: int, to: int)
    requires from <= mid <= to && Exactly(ds, a, from, mid) && Exactly(ds, b, mid, to)
    ensures Exactly(ds, a + b, from, to)
  {
    hide Sent;
    hide Reported;
    forall p ensures Sent(a + b, p) <==> from <= p < to && !Reported(ds, p) {
      SentJoin(a, b, p);
    }
  }

  lemma {:induction false} TakenExact(ds: seq<Desc>, lo: int, hi: int, c: Ctx, seqMax: int, envs: seq<Env>, lim: Limits)
    requires Ready(ds, lo, hi, c, seqMax) && forall i | 0 <= i < |envs| :: envs[i].enqueueOk
    ensures var (c', ws) := XmitMany(ds, lo, hi, c, seqMax, envs, lim); Exactly(ds, ws, c.seqno, c'.seqno)
    decreases |envs|
  {
    hide Ready;
    hide XmitOne;
    hide Reported;
    if envs != [] && c.budget > 0 {
      XmitOneReady(ds, lo, hi, c, seqMax, envs[0], lim);
      XmitOneExact(ds, lo, hi, c, seqMax, envs[0], lim);
      var (c1, ws) := XmitOne(ds, lo, hi, c, seqMax, envs[0], lim);
      if ws != [] {
        TakenExact(ds, lo, hi, c1, seqMax, envs[1..], lim);
        XmitManyReady(ds, lo, hi, c1, seqMax, envs[1..], lim);
        var (c2, more) := XmitMany(ds, lo, hi, c1, seqMax, envs[1..], lim);
        hide Exactly;
        ExactlyJoin(ds, ws, more, c.seqno, c1.seqno, c2.seqno);
      }
    }
  }

  /** A burst sends the bytes its position moves over that the peer has not reported, and no other. */
  lemma XmitManyExact(ds: seq<Desc>, lo: int, hi: int, c: Ctx, seqMax: int, dev: Device, lim: Limits)
    requires Ready(ds, lo, hi, c, seqMax)
    ensures var (c', ws) := XmitMany(ds, lo, hi, c, seqMax, Turns(dev), lim); Exactly(ds, ws, c.seqno, c'.seqno)
  {
    hide Ready;
    NeverRefused(dev);
    TakenExact(ds, lo, hi, c, seqMax, Turns(dev), lim);
  }

  lemma NoneAhead(t: Tx, p: int)
    requires Core(t) && t.sndNxt <= p
    ensures !Reported(t.descs, p)
  {
    hide Tiled;
    hide SackedBytes;
  }

  /** The bytes between the old and the new snd_nxt are put on the wire, and no other. */
  lemma XmitDataExact(t: Tx, wnd: nat, dev: Device, lim: Limits)
    requires Inv(t)
    ensures
      var (t', ws) := XmitData(t, wnd, dev, lim);
      forall p :: Sent(ws, p) <==> t.sndNxt <= p < t'.sndNxt
  {
    hide Ready;
    hide XmitMany;
    hide Reported;
    forall p | t.sndNxt <= p ensures !Reported(t.descs, p) {
      NoneAhead(t, p);
    }
    hide Core;
    if wnd != 0 && t.nxt != |t.descs| {
      var budget := wnd - (t.sndNxt - t.sndUna);
      FinLeavesNothing(t);
      NewDataReady(t, budget);
      XmitManyExact(t.descs, Lo(t), t.dataNxt, Ctx(t.sndNxt, t.nxt, budget), t.dataNxt, dev, lim);
      hide Sent;
    }
  }

  /** A retransmission sends again what the retransmit pointer moves over, except what the peer has
      reported, and nothing else. */
  lemma RexExact(t: Tx, budget: int, dev: Device, lim: Limits)
    requires Core(t) && Names(t)
    ensures var (t', ws) := Rex(t, budget, dev, lim); Exactly(t.descs, ws, t.rexSeq, t'.rexSeq)
  {
    hide Ready;
    hide XmitMany;
    hide Exactly;
    RexReady(t, budget);
    hide Core;
    XmitManyExact(t.descs, Lo(t), t.dataNxt, Ctx(t.rexSeq, t.rexIdx - t.una, budget), t.sndNxt, dev, lim);
  }

  /** A timeout sends again everything from snd_una up to the retransmit pointer. */
  lemma TimeoutExact(t: Tx, wnd: nat, dev: Device, lim: Limits)
    requires Inv(t)
    ensures
      var (t', ws) := Timeout(t, wnd, dev, lim);
      forall p :: Sent(ws, p) <==> t.sndUna <= p < t'.rexSeq
  {
    hide Core;
    hide Names;
    hide Rex;
    hide Sent;
    ClearKeeps(t);
    var t1 := ClearSacked(t);
    hide ClearSacked;
    var t2 := t1.(stage := RtoRetrans, recover := t.sndNxt, rexSeq := t.sndUna, rexIdx := t.una);
    EnterUsable(t1, t2);
    RegulateNames(t2);
    RexExact(t2, wnd, dev, lim);
    assert forall p :: !Reported(t2.descs, p);
  }

  // ---- every run

  /** Only new data moves the end of what was sent. */
  lemma StepSends(t: Tx, e: Event)
    requires Inv(t) && t.chunk > 0 && (e.Write? ==> e.room > 0)
    ensures
      var o := Step(t, e);
      Top(t) <= Top(o.tx) && forall p | Top(t) <= p < Top(o.tx) :: Sent(o.sent, p)
  {
    hide Names;
    hide Sent;
    AckRange(t, t.sndNxt);
    match e
    case Write(vs, room, mbufs) =>
      hide Core;
      hide ChopAll;
    case Xmit(wnd, dev, lim) =>
      XmitKeeps(t, wnd, dev, lim);
      hide XmitData;
      XmitDataExact(t, wnd, dev, lim);
    case Ack(a) =>
      hide Core;
      hide RcvAck;
      AckFrame(t, a);
    case Rto(wnd, dev, lim) =>
      hide Core;
      hide Retrans;
      ClearKeeps(t);
    case Fin =>
      hide Tiled;
      hide SackedBytes;
  }

  /** Over every run: each byte below snd_nxt that was not sent before it was put on the wire. */
  lemma {:induction false} RunSends(t: Tx, es: seq<Event>)
    requires Inv(t) && t.chunk > 0 && forall e | e in es :: e.Write? ==> e.room > 0
    ensures
      var o := Run(t, es);
      Top(t) <= Top(o.tx) && forall p | Top(t) <= p < Top(o.tx) :: Sent(o.sent, p)
    decreases |es|
  {
    hide Inv;
    hide Step;
    hide Sent;
    hide Top;
    if es != [] {
      StepKeeps(t, es[0]);
      StepSends(t, es[0]);
      var a := Step(t, es[0]);
      var b := Run(a.tx, es[1..]);
      RunSends(a.tx, es[1..]);
      forall p | Top(t) <= p < Top(b.tx) ensures Sent(a.sent + b.sent, p) {
        SentJoin(a.sent, b.sent, p);
      }
    }
  }

  lemma SentInside(ws: seq<Wire>, lo: int, hi: int, stream: int -> byte)
    requires forall w | w in ws :: Carries(w, lo, hi, stream)
    ensures forall p | Sent(ws, p) :: lo <= p < hi
  {
    forall p | Sent(ws, p) ensures lo <= p < hi {
      var j :| 0 <= j < |ws| && ws[j].start <= p < ws[j].End();
      assert Carries(ws[j], lo, hi, stream);
    }
  }

  /** From ESTABLISHED on, whatever happens: the bytes put on the wire are the ones below snd_nxt. */
  lemma WireExact(t: Tx, es: seq<Event>, stream: int -> byte)
    requires Established(t) && Inv(t) && forall e | e in es :: e.Write? ==> e.room > 0
    requires Continues(t, Run(t, es), stream)
    ensures
      var o := Run(t, es);
      forall p :: Sent(o.sent, p) <==> t.sndUna <= p < Top(o.tx)
  {
    hide Core;
    hide Names;
    hide Run;
    hide Continues;
    hide Matching;
    hide Pending;
    hide Carries;
    hide Sent;
    var o := Run(t, es);
    EstablishedInv(t, stream);
    RunSends(t, es);
    SendIntegrity(t, es, stream);
    SentInside(o.sent, t.sndUna, Top(o.tx), stream);
  }
}
