/** The state of a connection is what has happened to it.  Over every run, which of the states of section 3.2 of
    RFC 793 a connection is in follows from four facts: whether it was closed here, whether the peer's FIN has
    come and which of the two was first, and whether our FIN is acknowledged (tcp_rcv_pkt, tcp_rcv_ack and
    tcp_rcv_fin of src/tcp/tcp_input.c, tcp_close of src/tcp/tcp_output.c, src/tcp/tcp_timeout.c). */
module Lifecycle {
  import opened SeqNum
  import opened Seqs
  import opened Chains
  import opened TxQueue
  import opened XmitSpec
  import opened SendSpec
  import opened Scoreboard
  import opened SendSteps
  import opened SendAcks
  import opened XmitStops
  import SR = SendRuns
  import opened Closing

  /** What has happened: our close, the peer's FIN, which came first, the acknowledgement of our FIN; `ended` says
      that the connection was reset, given up, closed with unread data, or has waited out its time. */
  datatype Log = Log(closed: bool, peer: bool, peerFirst: bool, acked: bool, ended: bool)

  const NOTHING := Log(false, false, false, false, false)

  function StateOf(l: Log): State {
    if l.ended then Closed
    else if !l.closed then (if l.peer then CloseWait else Established)
    else if l.peerFirst then (if l.acked then Closed else LastAck)
    else if l.acked then (if l.peer then TimeWait else FinWait2)
    else if l.peer then ClosingState else FinWait1
  }

  /** A segment the connection looks at beyond its sequence number: neither RST nor SYN, and it acknowledges
      nothing that was not sent. */
  predicate Heeded(c: Conn, p: Pkt) {
    p.seqOk && !p.rst && !p.syn && p.hasAck && Unwrap(p.a.ack, c.tx.sndUna) <= c.tx.sndNxt
  }

  /** It acknowledges our FIN, which has the last sequence number. */
  predicate AcksFin(c: Conn, p: Pkt) {
    c.tx.finSent && Unwrap(p.a.ack, c.tx.sndUna) == c.tx.sndNxt
  }

  /** What an event adds to the log. */
  function Note(l: Log, c: Conn, e: Event): Log {
    if c.state == Closed then l
    else
      match e
      case Segment(p) =>
        if p.seqOk && p.rst then l.(ended := true)
        else if !Heeded(c, p) then l
        else l.(acked := l.acked || AcksFin(c, p), peer := l.peer || (p.fin && p.dataOk))
      case Output(unread, _, _, _) =>
        if !c.closeIssued || c.closeDone then l
        else if unread then l.(ended := true)
        else l.(closed := true, peerFirst := l.peer)
      case Rto(giveUp, _, _, _) => l.(ended := l.ended || giveUp)
      case WaitTimeout => l.(ended := l.ended || l.acked)
      case KeepaliveTimeout => l.(ended := true)
      case _ => l
  }

  /** The connection is where its log says. */
  predicate Follows(c: Conn, l: Log) {
    && c.state == StateOf(l)
    && (l.peerFirst ==> l.closed && l.peer) && (l.acked ==> l.closed && c.tx.finSent)
    && (c.state != Closed ==> (c.closeDone <==> l.closed) && (c.finPending <==> l.closed && !l.acked))
  }

  ghost predicate Agrees(c: Conn, l: Log) {
    ConnInv(c) && Follows(c, l)
  }

  /** What a segment that is looked at makes of the state: first its acknowledgement, then its FIN. */
  lemma HeededStep(c: Conn, p: Pkt)
    requires Inv(c.tx) && c.state != Closed && Heeded(c, p)
    ensures
      var c1 := c.(tx := RcvAck(c.tx, p.a).tx);
      && c1.tx.finSent == c.tx.finSent
      && RcvPkt(c, p) == RcvText(if AcksFin(c, p) && c.tx.sndUna <= c.tx.sndNxt then FinAcked(c1) else c1, p)
  {
    hide Core;
    hide Names;
    hide Unwrap;
    hide FinAcked;
    hide RcvText;
    TakenWhen(c.tx, p.a);
    AckFrame(c.tx, p.a);
    hide RcvAck;
  }

  lemma UnheededStep(c: Conn, p: Pkt)
    requires Inv(c.tx) && (c.state == Closed || !Heeded(c, p))
    ensures RcvPkt(c, p) == if c.state != Closed && p.seqOk && p.rst then c.(state := Closed) else c
  {
    hide Core;
    hide Names;
    hide Unwrap;
    TakenWhen(c.tx, p.a);
    hide RcvAck;
  }

  /** The two parts of a segment against the two parts of the log. */
  lemma TextFollows(c: Conn, l: Log, acks: bool, p: Pkt)
    requires Follows(c, l) && c.state != Closed && (acks ==> c.tx.finSent && c.closeDone)
    ensures Follows(RcvText(if acks then FinAcked(c) else c, p),
                    l.(acked := l.acked || acks, peer := l.peer || (p.fin && p.dataOk)))
  {
  }

  lemma SegmentFollows(c: Conn, l: Log, p: Pkt)
    requires Inv(c.tx) && Follows(c, l) && (c.tx.finSent ==> c.closeDone)
    ensures Follows(RcvPkt(c, p), Note(l, c, Segment(p)))
  {
    assert c.tx.sndUna <= c.tx.sndNxt;
    hide Inv;
    hide RcvPkt;
    hide RcvAck;
    hide Unwrap;
    if c.state != Closed && Heeded(c, p) {
      HeededStep(c, p);
      var c1 := c.(tx := RcvAck(c.tx, p.a).tx);
      TextFollows(c1, l, AcksFin(c, p), p);
    } else {
      UnheededStep(c, p);
    }
  }

  lemma SegmentAgrees(c: Conn, l: Log, p: Pkt)
    requires Agrees(c, l)
    ensures Agrees(RcvPkt(c, p), Note(l, c, Segment(p)))
  {
    hide Inv;
    SegmentIsGood(c, Segment(p));
    SegmentFollows(c, l, p);
    hide RcvPkt;
    hide Follows;
  }

  lemma OutputAgrees(c: Conn, l: Log, e: Event)
    requires Agrees(c, l) && e.Output?
    ensures Agrees(Step(c, e), Note(l, c, e))
  {
    OutputIsGood(c, e);
    XmitKeeps(c.tx, e.wnd, e.dev, e.lim);
    hide Core;
    hide Names;
    hide XmitData;
  }

  lemma StepAgrees(c: Conn, l: Log, e: Event)
    requires Agrees(c, l) && (e.Write? ==> e.room > 0)
    ensures Agrees(Step(c, e), Note(l, c, e))
  {
    match e
    case Segment(p) =>
      hide ConnInv;
      SegmentAgrees(c, l, p);
    case Output(_, _, _, _) =>
      hide ConnInv;
      OutputAgrees(c, l, e);
    case Write(vs, room, mbufs) =>
      WriteIsGood(c, e);
      hide Core;
      hide Names;
      hide ChopAll;
    case Rto(_, wnd, dev, lim) =>
      RtoIsGood(c, e);
      hide Core;
      hide Names;
      hide Retrans;
      if c.state != Closed && !e.giveUp {
        ClearKeeps(c.tx);
      }
    case Close =>
      hide Inv;
    case WaitTimeout =>
      hide Inv;
    case KeepaliveTimeout =>
      hide Inv;
  }

  /** The log of a run. */
  ghost function LogAfter(l: Log, c: Conn, es: seq<Event>): Log
    requires ConnInv(c) && forall e | e in es :: e.Write? ==> e.room > 0
    decreases |es|
  {
    if es == [] then l
    else
      StepIsGood(c, es[0]);
      LogAfter(Note(l, c, es[0]), Step(c, es[0]), es[1..])
  }

  lemma {:induction false} RunAgrees(c: Conn, l: Log, es: seq<Event>)
    requires Agrees(c, l) && forall e | e in es :: e.Write? ==> e.room > 0
    ensures Agrees(Run(c, es).0, LogAfter(l, c, es))
    decreases |es|
  {
    hide Inv;
    hide AllDelivered;
    hide Step;
    hide Follows;
    hide Note;
    hide Accepted;
    if es != [] {
      StepIsGood(c, es[0]);
      StepAgrees(c, l, es[0]);
      RunAgrees(Step(c, es[0]), Note(l, c, es[0]), es[1..]);
    }
  }

  /** From ESTABLISHED on, whatever happens: the state is the one the log tells, a FIN is owed from our close to
      its acknowledgement, and a write is allowed until the application closes or the connection ends, also
      after the peer's FIN. */
  lemma StateExact(c: Conn, es: seq<Event>)
    requires ConnInv(c) && c.state == Established && !c.tx.finSent && forall e | e in es :: e.Write? ==> e.room > 0
    ensures
      var (c', l) := (Run(c, es).0, LogAfter(NOTHING, c, es));
      && c'.state == StateOf(l)
      && (Writable(c') <==> !c'.closeIssued && !l.ended)
      && (c'.state != Closed ==> (c'.finPending <==> l.closed && !l.acked))
  {
    RunAgrees(c, NOTHING, es);
    hide Inv;
    hide Run;
    hide LogAfter;
  }

  // ---- closing as a whole

  /** Everything is sent exactly when no descriptor is left to send. */
  lemma NothingLeft(t: Tx)
    requires Core(t)
    ensures t.nxt == |t.descs| <==> t.dataNxt <= t.sndNxt
  {
    if t.nxt < |t.descs| {
      StartMonotone(t.descs, Lo(t), t.dataNxt, t.nxt, |t.descs|);
    }
  }

  /** A FIN is owed: closing has begun, or begins now. */
  predicate Owed(c: Conn) {
    c.state != Closed && (c.finPending || (c.closeIssued && !c.closeDone))
  }

  /** The FIN goes out with the output that sends the last byte.  So with a FIN owed it is out unless the window
      is full, the device has taken all it has room for, or memory has run out. */
  lemma FinGoesOut(c: Conn, e: Event)
    requires ConnInv(c) && e.Output? && !e.unread && Owed(c) && e.lim.mss > 0 && e.lim.segs > 0
    ensures
      var (c', r) := (Step(c, e), XmitData(c.tx, e.wnd, e.dev, e.lim));
      var n := |r.1|;
      && (c'.tx.finSent <==> c.tx.dataNxt <= r.0.sndNxt)
      && (c'.tx.finSent ==> c'.tx.sndNxt == c.tx.dataNxt + 1)
      && (c'.tx.finSent || r.0.sndNxt - c.tx.sndUna >= e.wnd || n == BurstSize(e.dev)
          || (n < BurstSize(e.dev) && !Memory(Turns(e.dev)[n])))
  {
    hide XmitData;
    hide AllFull;
    hide Turns;
    XmitDataStops(c.tx, e.wnd, e.dev, e.lim);
    XmitKeeps(c.tx, e.wnd, e.dev, e.lim);
    var t1 := XmitData(c.tx, e.wnd, e.dev, e.lim).0;
    NothingLeft(t1);
    FinSentIs(t1);
    hide Core;
    hide Names;
  }

  lemma FinSentIs(t: Tx)
    requires Core(t)
    ensures t.finSent ==> t.nxt == |t.descs| && t.sndNxt == t.dataNxt + 1
  {
  }

  /** The peer's FIN takes an open connection to CLOSE_WAIT.  The application closes; with the last byte our FIN
      goes out, in LAST_ACK.  Its acknowledgement, and no other, ends the connection with everything delivered. */
  lemma PassiveClose(c: Conn, p: Pkt, out: Event, q: Pkt)
    requires ConnInv(c) && c.state == Established && !c.closeIssued && Plain(c, p) && p.fin
    requires out.Output? && !out.unread
    ensures
      var c1 := Step(c, Segment(p));
      && ConnInv(c1) && c1.state == CloseWait
      && var c2 := Step(c1, Close);
      && ConnInv(c2) && c2.state == CloseWait && c2.tx == c1.tx
      && var c3 := Step(c2, out);
      && ConnInv(c3) && c3.state == LastAck && (c3.tx.finSent <==> c1.tx.dataNxt <= c3.tx.sndNxt)
      && (Plain(c3, q) ==>
            var c4 := Step(c3, Segment(q));
            && (c4.state == Closed <==> c3.tx.finSent && Unwrap(q.a.ack, c3.tx.sndUna) == c3.tx.sndNxt)
            && (c4.state == Closed ==> AllDelivered(c4.tx)))
  {
    hide Inv;
    hide Step;
    hide AllDelivered;
    Passive1(c, p);
    var c1 := Step(c, Segment(p));
    Passive2(c1);
    var c2 := Step(c1, Close);
    Passive3(c2, out);
    var c3 := Step(c2, out);
    if Plain(c3, q) {
      Passive4(c3, q);
    }
  }

  lemma Passive1(c: Conn, p: Pkt)
    requires ConnInv(c) && c.state == Established && !c.closeIssued && Plain(c, p) && p.fin
    ensures
      var c1 := Step(c, Segment(p));
      ConnInv(c1) && c1.state == CloseWait && !c1.closeIssued && !c1.closeDone
  {
    SegmentIsGood(c, Segment(p));
    PlainStep(c, p);
    hide Inv;
    hide RcvPkt;
    hide RcvAck;
    hide Unwrap;
  }

  lemma Passive2(c: Conn)
    requires ConnInv(c) && c.state == CloseWait && !c.closeIssued && !c.closeDone
    ensures
      var c2 := Step(c, Close);
      ConnInv(c2) && c2.state == CloseWait && c2.tx == c.tx && c2.closeIssued && !c2.closeDone
  {
    hide Inv;
  }

  lemma Passive3(c: Conn, out: Event)
    requires ConnInv(c) && c.state == CloseWait && c.closeIssued && !c.closeDone && out.Output? && !out.unread
    ensures
      var c3 := Step(c, out);
      ConnInv(c3) && c3.state == LastAck && (c3.tx.finSent <==> c.tx.dataNxt <= c3.tx.sndNxt)
  {
    OutputIsGood(c, out);
    XmitKeeps(c.tx, out.wnd, out.dev, out.lim);
    var t1 := XmitData(c.tx, out.wnd, out.dev, out.lim).0;
    NothingLeft(t1);
    hide Core;
    hide Names;
    hide XmitData;
  }

  lemma Passive4(c: Conn, q: Pkt)
    requires ConnInv(c) && c.state == LastAck && Plain(c, q)
    ensures
      var c4 := Step(c, Segment(q));
      && (c4.state == Closed <==> c.tx.finSent && Unwrap(q.a.ack, c.tx.sndUna) == c.tx.sndNxt)
      && (c4.state == Closed ==> AllDelivered(c4.tx))
  {
    PlainStep(c, q);
    if RcvPkt(c, q).state == Closed {
      LastAckEnds(c, q);
    }
    hide Inv;
    hide RcvPkt;
    hide RcvAck;
    hide Unwrap;
  }

  // ---- the send half of a connection

  /** The events of the send half an event of the connection stands for. */
  function Does(c: Conn, e: Event): seq<SR.Event> {
    if c.state == Closed then []
    else
      match e
      case Segment(p) => if p.seqOk && !p.rst && !p.syn && p.hasAck then [SR.Ack(p.a)] else []
      case Output(unread, wnd, dev, lim) =>
        if c.closeIssued && !c.closeDone && unread then []
        else [SR.Xmit(wnd, dev, lim)] + if Owed(c) then [SR.Fin] else []
      case Write(vs, room, mbufs) => if Writable(c) then [SR.Write(vs, room, mbufs)] else []
      case Rto(giveUp, wnd, dev, lim) => if giveUp then [] else [SR.Rto(wnd, dev, lim)]
      case _ => []
  }

  lemma RunOne(t: Tx, d: SR.Event)
    requires Inv(t) && t.chunk > 0 && (d.Write? ==> d.room > 0)
    ensures SR.Run(t, [d]).tx == SR.Step(t, d).tx
  {
    hide Inv;
    hide SR.Step;
    SR.StepKeeps(t, d);
  }

  lemma RunPair(t: Tx, d: SR.Event, e: SR.Event)
    requires Inv(t) && t.chunk > 0 && !d.Write? && !e.Write?
    ensures
      && Inv(SR.Step(t, d).tx) && SR.Step(t, d).tx.chunk > 0
      && SR.Run(t, [d] + [e]).tx == SR.Step(SR.Step(t, d).tx, e).tx
  {
    hide Inv;
    hide SR.Step;
    SR.StepKeeps(t, d);
    assert ([d] + [e])[1..] == [e];
    RunOne(SR.Step(t, d).tx, e);
  }

  /** An event does to the send half what those events do. */
  lemma StepDoes(c: Conn, e: Event)
    requires ConnInv(c) && (e.Write? ==> e.room > 0)
    ensures Step(c, e).tx == SR.Run(c.tx, Does(c, e)).tx
  {
    hide Core;
    hide Names;
    match e
    case Segment(p) =>
      RunOne(c.tx, SR.Ack(p.a));
      AckFrame(c.tx, p.a);
      hide RcvAck;
      hide SR.Run;
      RunNone(c.tx);
    case Output(unread, wnd, dev, lim) =>
      OutputDoes(c, e);
    case Write(vs, room, mbufs) =>
      if Writable(c) {
        RunOne(c.tx, SR.Write(vs, room, mbufs));
      }
      hide Zwritev;
      hide SR.Run;
      RunNone(c.tx);
    case Rto(giveUp, wnd, dev, lim) =>
      RunOne(c.tx, SR.Rto(wnd, dev, lim));
      hide Timeout;
      hide SR.Run;
      RunNone(c.tx);
    case Close => RunNone(c.tx);
    case WaitTimeout => RunNone(c.tx);
    case KeepaliveTimeout => RunNone(c.tx);
  }

  lemma OutputDoes(c: Conn, e: Event)
    requires ConnInv(c) && e.Output?
    ensures Step(c, e).tx == SR.Run(c.tx, Does(c, e)).tx
  {
    hide Core;
    hide Names;
    hide XmitData;
    RunNone(c.tx);
    RunOne(c.tx, SR.Xmit(e.wnd, e.dev, e.lim));
    RunPair(c.tx, SR.Xmit(e.wnd, e.dev, e.lim), SR.Fin);
    hide SR.Run;
    XmitKeeps(c.tx, e.wnd, e.dev, e.lim);
    assert [SR.Xmit(e.wnd, e.dev, e.lim)] + [] == [SR.Xmit(e.wnd, e.dev, e.lim)];
    SentAll(XmitData(c.tx, e.wnd, e.dev, e.lim).0);
  }

  lemma SentAll(t: Tx)
    requires Core(t)
    ensures t.nxt <= |t.descs|
  {
  }

  lemma RunNone(t: Tx)
    requires Inv(t) && t.chunk > 0
    ensures SR.Run(t, []).tx == t
  {
  }

  /** The events of the send half over a run. */
  ghost function DoesAll(c: Conn, es: seq<Event>): seq<SR.Event>
    requires ConnInv(c) && forall e | e in es :: e.Write? ==> e.room > 0
    decreases |es|
  {
    if es == [] then []
    else
      StepIsGood(c, es[0]);
      Does(c, es[0]) + DoesAll(Step(c, es[0]), es[1..])
  }

  lemma {:induction false} RunAppend(t: Tx, xs: seq<SR.Event>, ys: seq<SR.Event>)
    requires Inv(t) && t.chunk > 0 && forall d | d in xs + ys :: d.Write? ==> d.room > 0
    ensures
      var t1 := SR.Run(t, xs).tx;
      Inv(t1) && t1.chunk > 0 && SR.Run(t, xs + ys).tx == SR.Run(t1, ys).tx
    decreases |xs|
  {
    hide Inv;
    hide SR.Step;
    if xs == [] {
      assert xs + ys == ys;
    } else {
      SR.StepKeeps(t, xs[0]);
      assert (xs + ys)[0] == xs[0] && (xs + ys)[1..] == xs[1..] + ys;
      RunAppend(SR.Step(t, xs[0]).tx, xs[1..], ys);
    }
  }

  /** Every run of a connection is a run of its send half: so whatever holds of every run of the send half,
      such as SendRuns.WritesComplete and XmitExact.WireExact, holds of connections. */
  lemma {:induction false} RunDoes(c: Conn, es: seq<Event>)
    requires ConnInv(c) && forall e | e in es :: e.Write? ==> e.room > 0
    ensures
      && (forall d | d in DoesAll(c, es) :: d.Write? ==> d.room > 0)
      && Run(c, es).0.tx == SR.Run(c.tx, DoesAll(c, es)).tx
    decreases |es|
  {
    hide Inv;
    hide AllDelivered;
    hide Step;
    hide Accepted;
    hide SR.Run;
    if es == [] {
      RunNone(c.tx);
    } else {
      StepIsGood(c, es[0]);
      StepDoes(c, es[0]);
      var c1 := Step(c, es[0]);
      RunDoes(c1, es[1..]);
      RunAppend(c.tx, Does(c, es[0]), DoesAll(c1, es[1..]));
    }
  }
}
