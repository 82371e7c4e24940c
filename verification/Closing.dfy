/** The states of a connection from ESTABLISHED on, and how it is closed (tcp_rcv_pkt, tcp_rcv_ack and
    tcp_rcv_fin of src/tcp/tcp_input.c, tcp_close and tcp_output_one of src/tcp/tcp_output.c,
    src/tcp/tcp_timeout.c).  The receive half only decides whether a segment is acceptable and
    whether its data is taken, so both are inputs here. */
module Closing {
  import opened SeqNum
  import opened Seqs
  import opened Chains
  import opened TxQueue
  import opened XmitSpec
  import opened SendSpec
  import opened Scoreboard
  import opened SendSteps
  import opened SendAcks
  import SR = SendRuns

  datatype State = Established | FinWait1 | FinWait2 | CloseWait | ClosingState | LastAck | TimeWait | Closed

  /** `closeIssued` is the application's request, `closeDone` that tcp_close has seen it. */
  datatype Conn = Conn(state: State, tx: Tx, closeIssued: bool, closeDone: bool, finPending: bool)

  /** A segment: `seqOk` says that process_incoming_seq lets it pass, `dataOk` that tcp_rcv_data
      takes its data. */
  datatype Pkt = Pkt(seqOk: bool, rst: bool, syn: bool, hasAck: bool, a: AckInput, len: nat, dataOk: bool, fin: bool)

  datatype Event =
    | Segment(p: Pkt)
    | Output(unread: bool, wnd: nat, dev: Device, lim: Limits)
    | Close
    | Write(vs: seq<Iov>, room: nat, mbufs: nat)
    | Rto(giveUp: bool, wnd: nat, dev: Device, lim: Limits)
    | WaitTimeout
    | KeepaliveTimeout

  // ---- the code

  /** The part of tcp_rcv_ack that deals with the acknowledgement of our FIN. */
  function FinAcked(c: Conn): Conn {
    c.(finPending := false,
       state := match c.state
                case FinWait1 => FinWait2
                case ClosingState => TimeWait
                case LastAck => Closed
                case _ => c.state)
  }

  /** tcp_rcv_fin for a segment with FIN. */
  function RcvFin(c: Conn): Conn {
    c.(state := match c.state
                case Established => CloseWait
                case FinWait1 => ClosingState
                case FinWait2 => TimeWait
                case _ => c.state)
  }

  /** tcp_rcv_pkt, from the segment text on. */
  function RcvText(c: Conn, p: Pkt): Conn {
    if c.state == Closed then c
    else if if c.state == Established || c.state == FinWait1 || c.state == FinWait2 then !p.dataOk else p.len != 0 then c
    else if p.fin then RcvFin(c)
    else c
  }

  /** tcp_rcv_pkt. */
  ghost function RcvPkt(c: Conn, p: Pkt): (c': Conn)
    requires Inv(c.tx)
  {
    hide Core;
    hide Names;
    if c.state == Closed || !p.seqOk then c
    else if p.rst then c.(state := Closed)
    else if p.syn || !p.hasAck then c
    else
      var r := RcvAck(c.tx, p.a);
      match r.outcome
      case OldAck => RcvText(c, p)
      case InvalidAck => c
      case AckTaken(fin) =>
        var c1 := c.(tx := r.tx);
        RcvText(if fin then FinAcked(c1) else c1, p)
  }

  /** tcp_close; `unread` says that received data was not read. */
  function TcpClose(c: Conn, unread: bool): Conn {
    if c.closeDone then c
    else
      var c1 := c.(closeDone := true);
      if unread then c1.(state := Closed)
      else if c.state == Established then c1.(finPending := true, state := FinWait1)
      else if c.state == CloseWait then c1.(finPending := true, state := LastAck)
      else c1
  }

  /** tcp_output_one. */
  ghost function OutputOne(c: Conn, unread: bool, wnd: nat, dev: Device, lim: Limits): (c': Conn)
    requires Inv(c.tx)
  {
    hide Core;
    hide Names;
    var c1 := if c.closeIssued then TcpClose(c, unread) else c;
    if c1.state == Closed then c1
    else
      var t1 := XmitData(c1.tx, wnd, dev, lim).0;
      c1.(tx := if t1.nxt < |t1.descs| then t1 else if c1.finPending then SendFin(t1) else t1)
  }

  /** TSOCK_WRITE_CHECK, for a socket without a pending error. */
  predicate Writable(c: Conn) {
    !c.closeIssued && (c.state == Established || c.state == CloseWait)
  }

  ghost function Step(c: Conn, e: Event): (c': Conn)
    requires Inv(c.tx) && c.tx.chunk > 0 && (e.Write? ==> e.room > 0)
  {
    hide Core;
    hide Names;
    match e
    case Segment(p) => RcvPkt(c, p)
    case Output(unread, wnd, dev, lim) => OutputOne(c, unread, wnd, dev, lim)
    case Close => c.(closeIssued := true)
    case Write(vs, room, mbufs) => if Writable(c) then c.(tx := Zwritev(c.tx, vs, room, mbufs).0) else c
    case Rto(giveUp, wnd, dev, lim) =>
      if c.state == Closed then c else if giveUp then c.(state := Closed) else c.(tx := Timeout(c.tx, wnd, dev, lim).0)
    case WaitTimeout => if c.state == FinWait2 || c.state == TimeWait then c.(state := Closed) else c
    case KeepaliveTimeout => c.(state := Closed)
  }

  // ---- what every run keeps

  /** Everything written is acknowledged, and so is our FIN. */
  ghost predicate AllDelivered(t: Tx) {
    t.finSent && t.descs == [] && t.sndUna == t.dataNxt
  }

  ghost predicate ConnInv(c: Conn) {
    && Inv(c.tx) && c.tx.chunk > 0
    && (c.closeDone ==> c.closeIssued)
    && (c.tx.finSent || c.finPending ==> c.closeDone)
    && (c.state == Established || c.state == CloseWait ==> !c.closeDone)
    && (c.state == FinWait1 || c.state == ClosingState || c.state == LastAck ==> c.closeDone)
    && (c.state == FinWait2 || c.state == TimeWait ==> c.closeDone && AllDelivered(c.tx))
  }

  /** One invariant says when the FIN is out: everything written has been sent before it. */
  lemma FinMeans(c: Conn)
    requires ConnInv(c) && c.tx.finSent
    ensures c.tx.sndNxt == c.tx.dataNxt + 1 && c.tx.nxt == |c.tx.descs|
  {
  }

  /** When our FIN is acknowledged, everything written is, and the queue is empty. */
  lemma FinAckedDelivers(t: Tx, a: AckInput)
    requires Inv(t) && RcvAck(t, a).outcome == AckTaken(true)
    ensures AllDelivered(RcvAck(t, a).tx)
  {
    hide RcvAck;
    AckFrame(t, a);
    assert t.sndNxt == t.dataNxt + 1;
    SR.AllAcknowledged(RcvAck(t, a).tx);
  }

  lemma DeliveredStays(t: Tx, a: AckInput)
    requires Inv(t) && AllDelivered(t)
    ensures AllDelivered(RcvAck(t, a).tx)
  {
    hide RcvAck;
    AckFrame(t, a);
    assert t.sndNxt == t.dataNxt + 1;
    SR.AllAcknowledged(RcvAck(t, a).tx);
  }

  /** The edges of the state diagram of section 3.2 of RFC 793, from ESTABLISHED on. */
  predicate Edge(s: State, s': State) {
    match s
    case Established => s' == FinWait1 || s' == CloseWait
    case FinWait1 => s' == FinWait2 || s' == ClosingState
    case FinWait2 => s' == TimeWait
    case CloseWait => s' == LastAck
    case ClosingState => s' == TimeWait
    case LastAck => s' == Closed
    case TimeWait => s' == Closed
    case Closed => false
  }

  /** One segment can both acknowledge our FIN and carry the peer's. */
  predicate Path(s: State, s': State) {
    s == s' || Edge(s, s') || (s == FinWait1 && s' == TimeWait)
  }

  /** The connection is reset, given up, or closed with unread data. */
  predicate Aborts(c: Conn, e: Event) {
    match e
    case Segment(p) => p.seqOk && p.rst
    case Output(unread, _, _, _) => c.closeIssued && !c.closeDone && unread
    case Rto(giveUp, _, _, _) => giveUp
    case WaitTimeout => c.state == FinWait2
    case KeepaliveTimeout => true
    case _ => false
  }

  /** The bytes a step accepts for sending. */
  ghost function Accepted(c: Conn, e: Event): nat
    requires Inv(c.tx) && c.tx.chunk > 0 && (e.Write? ==> e.room > 0)
  {
    if e.Write? && Writable(c) && Zwritev(c.tx, e.vs, e.room, e.mbufs).1 then TotalLen(e.vs) else 0
  }

  /** What a step does to the state and to the sequence numbers. */
  ghost predicate GoodStep(c: Conn, e: Event, c': Conn)
    requires Inv(c.tx) && c.tx.chunk > 0 && (e.Write? ==> e.room > 0)
  {
    && ConnInv(c') && c'.tx.dataNxt == c.tx.dataNxt + Accepted(c, e)
    && (if Aborts(c, e) then c'.state == Closed else Path(c.state, c'.state))
  }

  lemma SegmentIsGood(c: Conn, e: Event)
    requires ConnInv(c) && e.Segment?
    ensures GoodStep(c, e, Step(c, e))
  {
    hide Core;
    hide Names;
    hide RcvAck;
    var r := RcvAck(c.tx, e.p.a);
    AckFrame(c.tx, e.p.a);
    if r.outcome == AckTaken(true) {
      FinAckedDelivers(c.tx, e.p.a);
    }
    if AllDelivered(c.tx) {
      DeliveredStays(c.tx, e.p.a);
    }
  }

  lemma OutputIsGood(c: Conn, e: Event)
    requires ConnInv(c) && e.Output?
    ensures GoodStep(c, e, Step(c, e))
  {
    hide Core;
    hide Names;
    hide XmitData;
    XmitKeeps(c.tx, e.wnd, e.dev, e.lim);
    FinKeeps(XmitData(c.tx, e.wnd, e.dev, e.lim).0);
    if AllDelivered(c.tx) {
      DeliveredSent(c.tx);
      XmitNothing(c.tx, e.wnd, e.dev, e.lim);
    }
  }

  lemma DeliveredSent(t: Tx)
    requires Core(t) && AllDelivered(t)
    ensures t.nxt == |t.descs| && t.sndNxt == t.dataNxt + 1
  {
  }

  lemma XmitNothing(t: Tx, wnd: nat, dev: Device, lim: Limits)
    requires Core(t) && t.nxt == |t.descs|
    ensures XmitData(t, wnd, dev, lim) == (t, [])
  {
  }

  lemma WriteIsGood(c: Conn, e: Event)
    requires ConnInv(c) && e.Write? && e.room > 0
    ensures GoodStep(c, e, Step(c, e))
  {
    hide Core;
    hide Names;
    hide Zwritev;
    if Writable(c) {
      WriteKeeps(c.tx, e.vs, e.room, e.mbufs);
    }
  }

  lemma RtoIsGood(c: Conn, e: Event)
    requires ConnInv(c) && e.Rto?
    ensures GoodStep(c, e, Step(c, e))
  {
    hide Core;
    hide Names;
    hide Retrans;
    if c.state != Closed && !e.giveUp {
      ClearKeeps(c.tx);
      var t1 := ClearSacked(c.tx);
      EnterUsable(t1, t1.(stage := RtoRetrans, recover := c.tx.sndNxt, rexSeq := c.tx.sndUna, rexIdx := c.tx.una));
    }
  }

  lemma StepIsGood(c: Conn, e: Event)
    requires ConnInv(c) && (e.Write? ==> e.room > 0)
    ensures GoodStep(c, e, Step(c, e))
  {
    hide Inv;
    match e
    case Segment(_) => SegmentIsGood(c, e);
    case Output(_, _, _, _) => OutputIsGood(c, e);
    case Write(_, _, _) => WriteIsGood(c, e);
    case Rto(_, _, _, _) => RtoIsGood(c, e);
    case Close =>
    case WaitTimeout =>
    case KeepaliveTimeout =>
  }

  /** A run: the connection, and how many bytes it accepted for sending. */
  ghost function Run(c: Conn, es: seq<Event>): (r: (Conn, nat))
    requires ConnInv(c) && forall e | e in es :: e.Write? ==> e.room > 0
    decreases |es|
  {
    hide ConnInv;
    hide Step;
    hide Accepted;
    if es == [] then (c, 0)
    else
      StepIsGood(c, es[0]);
      var (c', more) := Run(Step(c, es[0]), es[1..]);
      (c', Accepted(c, es[0]) + more)
  }

  /** An orderly close loses no written data: over every run, the FIN goes out only behind everything
      ever accepted for sending, and FIN_WAIT_2 and TIME_WAIT are entered only when all of that and
      the FIN are acknowledged. */
  lemma {:induction false} CloseLosesNothing(c: Conn, es: seq<Event>)
    requires ConnInv(c) && forall e | e in es :: e.Write? ==> e.room > 0
    ensures
      var (c', n) := Run(c, es);
      && ConnInv(c') && c'.tx.dataNxt == c.tx.dataNxt + n
      && (c'.tx.finSent ==> c'.tx.sndNxt == c.tx.dataNxt + n + 1 && c'.tx.nxt == |c'.tx.descs|)
      && (c'.state == FinWait2 || c'.state == TimeWait ==> c'.tx.sndUna == c.tx.dataNxt + n && c'.tx.descs == [])
    decreases |es|
  {
    if es == [] {
      if c.tx.finSent {
        FinMeans(c);
      }
    } else {
      hide Step;
      hide Accepted;
      hide Inv;
      StepIsGood(c, es[0]);
      CloseLosesNothing(Step(c, es[0]), es[1..]);
    }
  }

  /** The same for the other orderly end: an acknowledgement takes LAST_ACK to CLOSED only when our
      FIN and everything written are acknowledged. */
  lemma LastAckEnds(c: Conn, p: Pkt)
    requires ConnInv(c) && c.state == LastAck && !p.rst && RcvPkt(c, p).state == Closed
    ensures AllDelivered(RcvPkt(c, p).tx)
  {
    hide Core;
    hide Names;
    hide RcvAck;
    if RcvAck(c.tx, p.a).outcome == AckTaken(true) {
      FinAckedDelivers(c.tx, p.a);
    }
  }

  // ---- what a close request and the peer's FIN mean

  /** A request to close takes effect once: it takes the one edge of the diagram that sends a FIN, and a
      FIN is owed exactly then, or ends the connection when received data was not read.  It changes
      neither the queue nor the sequence numbers, and a second request changes nothing. */
  lemma CloseOnce(c: Conn, unread: bool, again: bool)
    requires ConnInv(c) && c.closeIssued
    ensures
      var c' := TcpClose(c, unread);
      && ConnInv(c') && c'.closeDone && c'.tx == c.tx && TcpClose(c', again) == c'
      && (if !c.closeDone && unread then c'.state == Closed && c'.finPending == c.finPending
          else
            && (c'.state != c.state <==> !c.closeDone && (c.state == Established || c.state == CloseWait))
            && (c'.state != c.state ==> Edge(c.state, c'.state) && c'.finPending)
            && (c'.state == c.state ==> c'.finPending == c.finPending))
  {
    hide Inv;
  }

  /** A segment that passes every check, carries no data, and whose acknowledgement can be taken. */
  ghost predicate Plain(c: Conn, p: Pkt) {
    && p.seqOk && !p.rst && !p.syn && p.hasAck && p.len == 0 && p.dataOk
    && c.tx.sndUna <= Unwrap(p.a.ack, c.tx.sndUna) <= c.tx.sndNxt
  }

  /** The acknowledgement of our FIN and the FIN of the peer lead from FIN_WAIT_1 to TIME_WAIT in either
      order, by way of FIN_WAIT_2 or of CLOSING, and a FIN that comes again changes no state. */
  lemma FinsMeet(c: Conn, p: Pkt, q: Pkt)
    requires ConnInv(c) && c.state == FinWait1 && c.tx.finSent && Plain(c, p) && Plain(c, q) && !p.fin && q.fin
    requires Unwrap(p.a.ack, c.tx.sndUna) == c.tx.sndNxt && Unwrap(q.a.ack, c.tx.sndUna) < c.tx.sndNxt
    ensures
      var (cp, cq) := (RcvPkt(c, p), RcvPkt(c, q));
      && Inv(cp.tx) && Inv(cq.tx) && cp.state == FinWait2 && cq.state == ClosingState
      && RcvPkt(cp, q).state == TimeWait && RcvPkt(cq, p).state == TimeWait
      && RcvFin(cq) == cq && RcvFin(RcvPkt(cp, q)).state == TimeWait
  {
    hide Inv;
    hide Unwrap;
    hide RcvAck;
    hide RcvPkt;
    PlainStep(c, p);
    PlainStep(c, q);
    var (cp, cq) := (RcvPkt(c, p), RcvPkt(c, q));
    StillThere(c.tx, p.a, q.a);
    LateStep(cp, q);
    PlainStep(cq, p);
  }

  /** What is done with a segment whose acknowledgement can be taken. */
  lemma PlainStep(c: Conn, p: Pkt)
    requires Inv(c.tx) && c.state != Closed && Plain(c, p)
    ensures
      var c1 := c.(tx := RcvAck(c.tx, p.a).tx);
      && Inv(c1.tx) && c1.tx.finSent == c.tx.finSent && c1.tx.sndNxt == c.tx.sndNxt
      && RcvPkt(c, p) ==
         RcvText(if c.tx.finSent && Unwrap(p.a.ack, c.tx.sndUna) == c.tx.sndNxt then FinAcked(c1) else c1, p)
  {
    hide Core;
    hide Names;
    hide Unwrap;
    AckFrame(c.tx, p.a);
    TakenWhen(c.tx, p.a);
  }

  /** What is done with one whose acknowledgement is old or can be taken, in FIN_WAIT_2. */
  lemma LateStep(c: Conn, q: Pkt)
    requires Inv(c.tx) && c.state == FinWait2 && q.seqOk && !q.rst && !q.syn && q.hasAck && q.len == 0 && q.dataOk && q.fin
    requires Unwrap(q.a.ack, c.tx.sndUna) <= c.tx.sndNxt
    ensures RcvPkt(c, q).state == TimeWait
  {
    hide Core;
    hide Names;
    hide Unwrap;
    TakenWhen(c.tx, q.a);
    hide RcvAck;
  }

  lemma TakenWhen(t: Tx, a: AckInput)
    requires Inv(t)
    ensures
      var (o, at) := (RcvAck(t, a).outcome, Unwrap(a.ack, t.sndUna));
      && (o == InvalidAck <==> at > t.sndNxt) && (o.AckTaken? <==> t.sndUna <= at <= t.sndNxt)
  {
    assert t.sndUna <= t.sndNxt;
    hide Core;
    hide Names;
    hide Unwrap;
  }

  /** Neither acknowledgement makes the other one unacceptable. */
  lemma StillThere(t: Tx, fin: AckInput, other: AckInput)
    requires Inv(t) && t.finSent
    requires Unwrap(fin.ack, t.sndUna) == t.sndNxt && t.sndUna <= Unwrap(other.ack, t.sndUna) < t.sndNxt
    ensures
      var (f, o) := (RcvAck(t, fin).tx, RcvAck(t, other).tx);
      && Unwrap(other.ack, f.sndUna) <= f.sndNxt && Unwrap(fin.ack, o.sndUna) == o.sndNxt && o.sndUna <= o.sndNxt && o.finSent
  {
    AckRange(t, t.sndNxt);
    AckFrame(t, fin);
    AckFrame(t, other);
    hide Core;
    hide Names;
    hide RcvAck;
    var x, y := Unwrap(fin.ack, t.sndUna), Unwrap(other.ack, t.sndUna);
    TakenRange(t, other);
    UnwrapSame(y, RcvAck(t, fin).tx.sndUna);
    UnwrapSame(x, RcvAck(t, other).tx.sndUna);
  }

  lemma TakenRange(t: Tx, a: AckInput)
    requires Inv(t) && t.sndUna <= Unwrap(a.ack, t.sndUna) <= t.sndNxt
    ensures t.sndUna <= RcvAck(t, a).tx.sndUna <= t.sndNxt
  {
    AckRange(t, Unwrap(a.ack, t.sndUna));
    AckFrame(t, a);
    hide Core;
    hide Names;
    hide RcvAck;
  }

  lemma UnwrapSame(x: int, near: int)
    requires -HALF <= x - near < HALF
    ensures Unwrap(Wrap(x), near) == x
  {
    DiffExact(x, near);
  }
}
