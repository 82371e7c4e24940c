/** The receive fast path and the slow path it stands in for (tcp_rcv_fastpath and tcp_rcv_pkt of
    src/tcp/tcp_input.c), in state ESTABLISHED. */
module FastPath {
  import opened SeqNum
  import opened Seqs
  import opened Chains
  import opened OooQueue
  import opened SackSpec
  import R = ReceiveSpec
  import opened TxQueue
  import opened XmitSpec
  import opened SendSpec
  import opened Scoreboard
  import opened SendSteps
  import opened SendAcks
  import opened SendRecovery
  import SR = SendRuns
  import RR = ReceiveRuns
  import OL = OooLimits
  import ST = SackStall

  /** The two halves of a connection. */
  datatype Both = Both(rx: R.Rx, tx: Tx)

  /** What the fast path asks of the numbers of a segment `g` that acknowledges `a.ack`; that it
      carries no flag but ACK and PSH and no option but a timestamp in order is left to the caller. */
  ghost predicate Guard(c: Both, g: Seg, a: AckInput) {
    && g.start == c.rx.nxt && c.rx.wnd != 0
    && c.tx.sndUna <= Unwrap(a.ack, c.tx.sndUna) <= c.tx.sndNxt
    && !(g.Len() == 0 && a.ack == Wrap(c.tx.sndUna))
    && c.tx.stage == NoRetrans && a.blocks == [] && (a.dup ==> g.Len() == 0)
  }

  ghost predicate Ready(c: Both) {
    R.Inv(c.rx) && Inv(c.tx) && !c.tx.finSent
  }

  /** tcp_rcv_ack_fastpath. */
  ghost function FastAck(t: Tx, ack: u32): (r: (Tx, seq<Completion>))
    requires Inv(t) && !t.finSent && t.sndUna <= Unwrap(ack, t.sndUna) <= t.sndNxt
  {
    var n := Unwrap(ack, t.sndUna) - t.sndUna;
    AckRange(t, Unwrap(ack, t.sndUna));
    if n == 0 then (t, [])
    else
      var (t1, fired) := AckData(t, n);
      (t1.(recover := t1.sndUna - 1, dupack := 0), fired)
  }

  /** tcp_rcv_fastpath: first the data, then the acknowledgement. */
  ghost function Fast(c: Both, g: Seg, a: AckInput): (r: (Both, R.Outcome, seq<Completion>))
    requires Ready(c) && Guard(c, g, a)
  {
    var (rx, o) := R.RcvData(c.rx, g);
    var (tx, fired) := FastAck(c.tx, a.ack);
    (Both(rx, tx), o, fired)
  }

  /** tcp_rcv_pkt: check the sequence number, then the acknowledgement, then the data. */
  ghost function Slow(c: Both, g: Seg, a: AckInput): (r: (Both, R.Outcome, seq<Completion>, seq<Wire>))
    requires Ready(c)
  {
    if !(g.Len() == 0 && g.start == c.rx.nxt) && (g.End() <= c.rx.nxt || g.start >= R.Right(c.rx)) then (c, R.BadSeq, [], [])
    else
      var ack := RcvAck(c.tx, a);
      if ack.outcome == InvalidAck then (c, R.BadSeq, [], [])
      else
        var (rx, o) := R.RcvData(c.rx, g);
        (Both(rx, ack.tx), o, ack.fired, ack.sent)
  }

  /** Without entering fast retransmission nothing is retransmitted. */
  lemma StaysOut(t: Tx, a: AckInput, n: nat)
    requires Loose(t) && t.stage == NoRetrans && (t.dupack < 3 || !SeqGt(a.ack, Wrap(t.recover)))
    ensures HandleFast(t, a, n) == (t, [])
  {
    hide Core;
    hide Names;
    hide FastRex;
  }

  /** An acknowledgement of nothing new that is no duplicate does not make the slow path enter fast
      retransmission: where three duplicates are counted, the recovery point is not passed. */
  lemma NothingBegins(t: Tx, a: AckInput)
    requires Core(t) && Steered(t) && t.stage == NoRetrans && a.ack == Wrap(t.sndUna)
    ensures t.dupack < 3 || !SeqGt(a.ack, Wrap(t.recover))
  {
    hide Core;
    SpanSmall(t);
    DiffExact(t.sndUna, t.recover);
  }

  /** Both paths take an acknowledgement in the same way: the same state, the same completions, and
      nothing is retransmitted. */
  lemma SameAck(t: Tx, a: AckInput)
    requires Inv(t) && Steered(t) && !t.finSent && t.sndUna <= Unwrap(a.ack, t.sndUna) <= t.sndNxt
    requires t.stage == NoRetrans && a.blocks == [] && (a.ack == Wrap(t.sndUna) ==> !a.dup)
    ensures
      var (f, fired) := FastAck(t, a.ack);
      RcvAck(t, a) == Result(f, AckTaken(false), fired, [])
  {
    hide Core;
    hide Names;
    hide AckData;
    hide HandleFast;
    var at := Unwrap(a.ack, t.sndUna);
    var n := Covered(t, at);
    AckRange(t, at);
    WrapInjective(at, t.sndUna);
    var t0 := CountDup(t, a, at);
    if n == 0 {
      NothingBegins(t, a);
      StaysOut(t, a, 0);
    } else {
      SteeringDoesntMatter(t, t0);
      DupDoesntMatter(t, t0, n);
      AckLoose(t0, n);
      AckDataKeeps(t0, n);
      StaysOut(AckData(t0, n).0, a, n);
    }
  }

  lemma {:induction false} DupDoesntMatter(t: Tx, t0: Tx, n: nat)
    requires Core(t) && Core(t0) && t0 == t.(dupack := t0.dupack) && 0 < n <= t.dataNxt - t.sndUna && n <= t.sndNxt - t.sndUna
    ensures AckData(t0, n) == (AckData(t, n).0.(dupack := t0.dupack), AckData(t, n).1)
    decreases |t.descs|
  {
    hide Core;
    hide AckData;
    AckUnfold(t, n);
    AckUnfold(t0, n);
    var d := t.descs[0];
    if t.partial + n >= d.Len() {
      var rest := n - (d.Len() - t.partial);
      if rest > 0 {
        DupDoesntMatter(Pop(t), Pop(t0), rest);
      }
    }
  }

  /** Whenever the guard holds, the fast path and the slow path end in the same state, with the same
      outcome and the same completions, although they take data and acknowledgement in opposite order,
      and the slow path retransmits nothing. */
  lemma FastIsSlow(c: Both, g: Seg, a: AckInput)
    requires Ready(c) && Steered(c.tx) && Guard(c, g, a)
    ensures var (f, o, fired) := Fast(c, g, a); Slow(c, g, a) == (f, o, fired, [])
  {
    hide Core;
    hide Names;
    hide Steered;
    hide RcvAck;
    hide FastAck;
    hide R.RcvData;
    SameAck(c.tx, a);
  }

  /** So it is in every state a connection can reach from ESTABLISHED, until it sends its FIN. */
  lemma FastRefinesSlow(t: Tx, es: seq<SR.Event>, rx: R.Rx, g: Seg, a: AckInput)
    requires SR.Established(t) && Inv(t) && (forall e | e in es :: e.Write? ==> e.room > 0)
    requires R.Inv(rx) && !SR.Run(t, es).tx.finSent
    requires Guard(Both(rx, SR.Run(t, es).tx), g, a)
    ensures
      var c := Both(rx, SR.Run(t, es).tx);
      && Ready(c) && var (f, o, fired) := Fast(c, g, a); Slow(c, g, a) == (f, o, fired, [])
  {
    hide Core;
    hide Names;
    hide Steered;
    hide SR.Run;
    hide R.Inv;
    hide Guard;
    hide Fast;
    hide Slow;
    RecoveryPointOutstanding(t, es);
    FastIsSlow(Both(rx, SR.Run(t, es).tx), g, a);
  }

  // ---- when the data is refused

  /** The segment the slow path then sees: what did not fit the window has been cut off. */
  ghost function Retried(rx: R.Rx, g: Seg): Seg {
    if g.Len() > rx.wnd then CutTail(g, g.Len() - rx.wnd) else g
  }

  /** tcp_rcv_pkt: the fast path, and the slow path on what it leaves when the data is refused. */
  ghost function Received(c: Both, g: Seg, a: AckInput): (r: (Both, R.Outcome, seq<Completion>, seq<Wire>))
    requires Ready(c) && Guard(c, g, a)
  {
    var (f, o, fired) := Fast(c, g, a);
    if o == R.Accepted then (f, o, fired, [])
    else
      RefusedInv(c, g, a);
      Slow(c.(rx := f.rx), if o == R.RxqFull then Retried(c.rx, g) else g, a)
  }

  /** The waiting head of the queue covers the segment: all that happens is that the queue drains. */
  ghost predicate CoveredByHead(rx: R.Rx, g: Seg) {
    rx.ooo != [] && rx.ooo[0].start == g.start == rx.nxt && 0 < g.Len() <= rx.ooo[0].Len()
  }

  /** In-order data is refused only by a full rx ring or as a duplicate of the waiting head. */
  lemma RefusedOnly(rx: R.Rx, g: Seg)
    requires R.Inv(rx) && g.start == rx.nxt && rx.wnd != 0
    ensures
      var (rx', o) := R.RcvData(rx, g);
      && (o != R.Accepted ==> g.Len() > 0)
      && (CoveredByHead(rx, g) ==> (rx', o) == (R.Drain(rx), R.Duplicate))
      && (!CoveredByHead(rx, g) && o != R.Accepted ==> o == R.RxqFull && rx' == rx && |rx.rxq| >= rx.cap)
      && (o == R.RxqFull ==> (rx.ooo == [] || g.End() < rx.ooo[0].start))
  {
    hide Bytes;
    hide R.Drain;
    hide Update;
    if g.Len() > 0 && !(rx.ooo == [] || g.End() < rx.ooo[0].start) {
      HeadOnly(rx, g);
      hide R.OooRcv;
    }
  }

  /** The out-of-order path on a segment that starts at rcv_nxt. */
  lemma HeadOnly(rx: R.Rx, g: Seg)
    requires R.Inv(rx) && g.start == rx.nxt < R.Right(rx) && g.Len() > 0 && rx.ooo != [] && rx.ooo[0].start <= g.End()
    ensures
      var (s1, o) := R.OooRcv(rx, g);
      if CoveredByHead(rx, g) then (s1, o) == (rx, R.Duplicate) else o == R.Accepted
  {
    hide Bytes;
    hide Update;
    hide R.TrimAndInsert;
    hide CutHead;
    var q := rx.ooo;
    var k := Position(q, g.start);
    if |q| > 1 {
      assert g.start < q[0].End() <= q[1].start;
    }
    assert k <= 1;
    if q[0].start == rx.nxt {
      assert k == 1;
      if g.Len() > q[0].Len() {
        SortedRemove(q, 0);
        FrontAccepted(rx.(ooo := Remove(q, 0)), g);
      }
    } else {
      assert k == 0;
      FrontAccepted(rx, g);
    }
  }

  lemma FrontAccepted(rx: R.Rx, g: Seg)
    requires Sorted(rx.ooo) && g.start == rx.nxt < R.Right(rx) && g.Len() > 0 && (rx.ooo != [] ==> g.start < rx.ooo[0].start)
    ensures R.TrimAndInsert(rx, 0, g).1 == R.Accepted
  {
    hide Bytes;
    hide Update;
    hide Trim;
    TrimKeepsBytes(rx.ooo, 0, g);
    TrimLeaves(rx.ooo, g);
  }

  lemma {:induction false} TrimLeaves(q: seq<Seg>, g: Seg)
    requires Sorted(q) && g.Len() > 0 && (q != [] ==> g.start < q[0].start)
    ensures Trim(q, 0, g).1.Len() > 0
    decreases |q|
  {
    hide Bytes;
    if q != [] && g.End() > q[0].start && g.End() - q[0].start >= q[0].Len() {
      SortedRemove(q, 0);
      TrimLeaves(Remove(q, 0), g);
    }
  }

  lemma RefusedInv(c: Both, g: Seg, a: AckInput)
    requires Ready(c) && Guard(c, g, a) && Fast(c, g, a).1 != R.Accepted
    ensures Ready(c.(rx := Fast(c, g, a).0.rx))
  {
    hide Core;
    hide Names;
    hide FastAck;
    hide R.RcvData;
    RefusedOnly(c.rx, g);
    R.DrainKeeps(c.rx);
  }

  /** When the data is refused, the slow path that follows ends as it would have without the fast path -
      except when the segment repeats the waiting head of the queue and the rx ring has room: the fast
      path then delivers that head, and the slow path drops the segment, its acknowledgement unseen, as
      one that lies below rcv_nxt. */
  lemma RetryExactly(c: Both, g: Seg, a: AckInput)
    requires Ready(c) && Steered(c.tx) && Guard(c, g, a)
    ensures
      var lost := CoveredByHead(c.rx, g) && |c.rx.rxq| < c.rx.cap;
      Received(c, g, a) == if lost then (c.(rx := R.Drain(c.rx)), R.BadSeq, [], []) else Slow(c, g, a)
  {
    hide Core;
    hide Names;
    hide Steered;
    hide RcvAck;
    hide FastAck;
    hide Bytes;
    hide R.Inv;
    hide R.Drain;
    hide R.RcvData;
    RefusedOnly(c.rx, g);
    var (rx', o) := R.RcvData(c.rx, g);
    if o == R.Accepted {
      FastIsSlow(c, g, a);
    } else if o == R.RxqFull {
      SameCut(c.rx, g);
    } else {
      HeadDrains(c.rx, g);
    }
  }

  /** What was cut off would not have fitted anyway. */
  lemma SameCut(rx: R.Rx, g: Seg)
    requires R.Inv(rx) && g.start == rx.nxt && g.Len() > 0 && rx.wnd != 0 && (rx.ooo == [] || g.End() < rx.ooo[0].start)
    ensures
      var h := Retried(rx, g);
      h.start == g.start && 0 < h.Len() && h.End() <= g.End() && R.RcvData(rx, h) == R.RcvData(rx, g)
  {
    hide Bytes;
    hide R.OooRcv;
    hide R.Drain;
  }

  /** The waiting head is delivered when the ring has room, and nothing happens otherwise. */
  lemma HeadDrains(rx: R.Rx, g: Seg)
    requires R.Inv(rx) && CoveredByHead(rx, g)
    ensures if |rx.rxq| < rx.cap then g.End() <= R.Drain(rx).nxt else R.Drain(rx) == rx
  {
    hide Bytes;
    hide R.RxBytes;
    var head := rx.ooo[0];
    assert head.Len() <= rx.wnd;
    if |rx.rxq| < rx.cap {
      R.TailInv(rx);
      var s0 := rx.(ooo := rx.ooo[1..]);
      R.EnqueueKeeps(s0, head);
      var s1 := R.Enqueue(s0, head).0;
      assert R.Enqueue(rx, head).0.(ooo := rx.ooo[1..]) == s1;
      R.DrainKeeps(s1);
    }
  }

  /** A receiver gets there: with an rx ring of one packet, two segments in reverse order fill the ring
      and leave one waiting; the application reads, and the segment that waits is sent again. */
  lemma HeadWaits(isn: int, limit: nat)
    requires limit >= 2
    ensures
      var es := [RR.Segment(OL.One(isn + 1)), RR.Segment(OL.One(isn))] + [RR.ReadInto(1)];
      && R.Inv(RR.Fresh(isn, 1, limit, true)) && ST.AllWellFormed(es)
      && var rx := RR.Run(RR.Fresh(isn, 1, limit, true), es).0;
         CoveredByHead(rx, OL.One(isn + 1)) && |rx.rxq| < rx.cap
  {
    hide RR.Fresh;
    hide R.Inv;
    var s, last := ST.Stalled(isn, 0, limit), [RR.ReadInto(1)];
    ST.StalledInv(isn, 0, limit);
    ST.RunOpening(isn, limit, last);
    ST.ReadsOne(s);
    OL.OneByte(isn + 1);
    RR.StepInv(s, last[0]);
    assert last[1..] == [];
    hide Bytes;
    hide R.Read;
    assert RR.Run(s, last).0 == RR.Run(R.Read(s, 1).0, []).0;
  }
}
