/** Two ends of a connection: whatever the network does to the packets of the sending end - lose,
    repeat, reorder, split, merge, delay by less than 2^31 bytes of sequence space - the receiving
    application reads a prefix of what was written. */
module EndToEnd {
  import opened SeqNum
  import opened Seqs
  import opened Chains
  import opened OooQueue
  import R = ReceiveSpec
  import RR = ReceiveRuns
  import SK = SackRuns
  import opened TxQueue
  import opened XmitSpec
  import opened SendSpec
  import SR = SendRuns
  import XE = XmitExact
  import XS = XmitStops
  import opened SendAcks
  import RS = Resend
  import OL = OooLimits

  /** The byte at sequence number `b` was put on the wire with the value `x`. */
  ghost predicate OnWire(ws: seq<Wire>, b: int, x: byte) {
    exists k :: 0 <= k < |ws| && ws[k].start <= b < ws[k].End() && ws[k].data[b - ws[k].start] == x
  }

  /** Every byte of the segment was put on the wire. */
  ghost predicate FromWire(g: Seg, ws: seq<Wire>) {
    forall i | 0 <= i < |Bytes(g.chain)| :: OnWire(ws, g.start + i, Bytes(g.chain)[i])
  }

  /** What the network may hand to the receiving end. */
  ghost predicate Network(e: RR.Event, ws: seq<Wire>) {
    e.Segment? ==> NoEmptyPiece(e.seg.chain) && FromWire(e.seg, ws)
  }

  /** The bytes written, as a stream that starts at `iss`. */
  function Stream(iss: int, written: seq<byte>): int -> byte {
    x => if 0 <= x - iss < |written| then written[x - iss] else 0
  }

  lemma StreamSlice(iss: int, written: seq<byte>, n: nat)
    requires n <= |written|
    ensures Slice(Stream(iss, written), iss, iss + n) == written[..n]
  {
  }

  /** A segment off the wire carries the stream, and ends where the wire ends. */
  lemma FromWireGenuine(g: Seg, ws: seq<Wire>, lo: int, hi: int, stream: int -> byte)
    requires FromWire(g, ws) && forall w | w in ws :: SR.Carries(w, lo, hi, stream)
    ensures R.Matches(g, stream) && (g.Len() > 0 ==> g.End() <= hi)
  {
    var b := Bytes(g.chain);
    forall i | 0 <= i < |b| ensures b[i] == stream(g.start + i) && g.start + i < hi {
      assert OnWire(ws, g.start + i, b[i]);
      var k :| 0 <= k < |ws| && ws[k].start <= g.start + i < ws[k].End() && ws[k].data[g.start + i - ws[k].start] == b[i];
      assert SR.Carries(ws[k], lo, hi, stream);
      assert ws[k].data[g.start + i - ws[k].start] == stream(g.start + i);
    }
    if |b| > 0 {
      var i := |b| - 1;
      assert b[i] == stream(g.start + i);
    }
  }

  // ---- nothing is received that was not sent

  ghost predicate NoneAbove(s: R.Rx, hi: int) {
    forall b | b >= hi :: !R.Held(s, b)
  }

  lemma NextBelow(s: R.Rx, hi: int)
    requires NoneAbove(s, hi)
    ensures s.nxt <= hi
  {
    assert R.Held(s, s.nxt - 1);
  }

  lemma StepBelow(s: R.Rx, e: RR.Event, hi: int)
    requires R.Inv(s) && NoneAbove(s, hi) && RR.WellFormed(e) && (e.Segment? && e.seg.Len() > 0 ==> e.seg.End() <= hi)
    ensures NoneAbove(RR.Step(s, e).0, hi)
  {
    hide Bytes;
    hide R.Arrive;
    hide R.ReadPieces;
    hide Covers;
    match e
    case Segment(g) => R.ArriveExact(s, g);
    case ReadInto(n) =>
      forall b | b >= hi ensures !R.Held(RR.Step(s, e).0, b) {
        assert !R.Held(s, b);
      }
    case MemoryPressure => DropBelow(s, hi);
  }

  lemma DropBelow(s: R.Rx, hi: int)
    requires R.Inv(s) && NoneAbove(s, hi)
    ensures NoneAbove(R.DropOoo(s), hi)
  {
    hide Bytes;
    RR.DropInv(s);
    var q := R.DropOoo(s).ooo;
    forall b | b >= hi ensures !R.Held(R.DropOoo(s), b) {
      CoversPrefix(q, s.ooo, b);
      assert !R.Held(s, b);
    }
  }

  lemma CoversPrefix(q: seq<Seg>, q': seq<Seg>, b: int)
    requires q <= q'
    ensures Covers(q, b) ==> Covers(q', b)
  {
    if Covers(q, b) {
      var i :| 0 <= i < |q| && q[i].Has(b);
      assert q'[i].Has(b);
    }
  }

  lemma {:induction false} RunBelow(s: R.Rx, es: seq<RR.Event>, hi: int)
    requires R.Inv(s) && NoneAbove(s, hi) && forall i | 0 <= i < |es| :: RR.WellFormed(es[i])
    requires forall i | 0 <= i < |es| :: es[i].Segment? && es[i].seg.Len() > 0 ==> es[i].seg.End() <= hi
    ensures RR.Run(s, es).0.nxt <= hi
    decreases |es|
  {
    hide Bytes;
    hide RR.Step;
    hide R.Inv;
    if es == [] {
      NextBelow(s, hi);
    } else {
      hide NoneAbove;
      RR.StepInv(s, es[0]);
      StepBelow(s, es[0], hi);
      RunBelow(RR.Step(s, es[0]).0, es[1..], hi);
    }
  }

  // ---- sequence numbers on the wire have 32 bits

  /** What the receiving end takes an event for: of the sequence number it sees only 32 bits. */
  ghost function Heard(s: R.Rx, e: RR.Event): RR.Event {
    if e.Segment? then RR.Segment(Seg(Unwrap(Wrap(e.seg.start), s.nxt), e.seg.chain)) else e
  }

  /** A segment is taken for what it is exactly when it starts within 2^31 of rcv_nxt. */
  lemma HeardExactly(s: R.Rx, g: Seg)
    ensures Heard(s, RR.Segment(g)) == RR.Segment(g) <==> -HALF <= g.start - s.nxt < HALF
  {
    DiffExact(g.start, s.nxt);
    var x := Unwrap(Wrap(g.start), s.nxt);
    if -HALF <= g.start - s.nxt < HALF {
      DiffExact(x, s.nxt);
    }
  }

  ghost function HeardRun(s: R.Rx, es: seq<RR.Event>): (r: (R.Rx, seq<byte>))
    requires R.Inv(s) && forall i | 0 <= i < |es| :: RR.WellFormed(es[i])
    decreases |es|
  {
    if es == [] then (s, [])
    else
      assert RR.WellFormed(es[0]);
      RR.StepInv(s, Heard(s, es[0]));
      var (s1, out) := RR.Step(s, Heard(s, es[0]));
      var (s2, more) := HeardRun(s1, es[1..]);
      (s2, out + more)
  }

  /** No segment arrives 2^31 bytes or more from rcv_nxt. */
  ghost predicate InReach(s: R.Rx, es: seq<RR.Event>)
    requires R.Inv(s) && forall i | 0 <= i < |es| :: RR.WellFormed(es[i])
    decreases |es|
  {
    es == [] ||
    ((es[0].Segment? ==> -HALF <= es[0].seg.start - s.nxt < HALF) &&
     (RR.StepInv(s, es[0]); InReach(RR.Step(s, es[0]).0, es[1..])))
  }

  lemma {:induction false} HeardRunIs(s: R.Rx, es: seq<RR.Event>)
    requires R.Inv(s) && (forall i | 0 <= i < |es| :: RR.WellFormed(es[i])) && InReach(s, es)
    ensures HeardRun(s, es) == RR.Run(s, es)
    decreases |es|
  {
    hide RR.Step;
    hide R.Inv;
    hide Wrap;
    hide Unwrap;
    if es != [] {
      RR.StepInv(s, es[0]);
      if es[0].Segment? {
        HeardExactly(s, es[0].seg);
      }
      HeardRunIs(RR.Step(s, es[0]).0, es[1..]);
    }
  }

  /** A segment that starts 2^32 bytes too low is taken for the next data. */
  lemma StaleTaken(s: R.Rx, g: Seg)
    requires R.Inv(s) && s.ooo == [] && |s.rxq| < s.cap && 0 < g.Len() <= s.wnd && g.start == s.nxt - M32
    ensures RR.Step(s, Heard(s, RR.Segment(g))).0 ==
            s.(nxt := s.nxt + g.Len(), wnd := s.wnd - g.Len(), rxq := s.rxq + [g.chain])
  {
    hide Bytes;
    hide Wrap;
    hide Unwrap;
    hide R.OooRcv;
    hide R.Drain;
    WrapTurn(s.nxt);
    HeardExactly(s, Seg(s.nxt, g.chain));
  }

  lemma WrapTurn(x: int)
    ensures Wrap(x - M32) == Wrap(x)
  {
  }

  // ---- the two ends together

  /** What the network hands over carries the stream and ends where the written data ends. */
  lemma NetworkGenuine(t: Tx, es: seq<SR.Event>, rs: seq<RR.Event>)
    requires SR.Established(t) && Inv(t) && (forall e | e in es :: e.Write? ==> e.room > 0)
    requires forall i | 0 <= i < |rs| :: Network(rs[i], SR.Run(t, es).sent)
    ensures
      var (iss, written) := (t.sndUna, SR.Run(t, es).written);
      forall i | 0 <= i < |rs| ::
        && RR.Genuine(rs[i], Stream(iss, written))
        && (rs[i].Segment? && rs[i].seg.Len() > 0 ==> rs[i].seg.End() <= iss + |written|)
  {
    hide Inv;
    hide SR.Run;
    var o, iss := SR.Run(t, es), t.sndUna;
    var stream := Stream(iss, o.written);
    StreamSlice(iss, o.written, |o.written|);
    SentCarries(t, es, stream);
    forall i | 0 <= i < |rs|
      ensures RR.Genuine(rs[i], stream) && (rs[i].Segment? && rs[i].seg.Len() > 0 ==> rs[i].seg.End() <= iss + |o.written|)
    {
      if rs[i].Segment? {
        FromWireGenuine(rs[i].seg, o.sent, iss, iss + |o.written|, stream);
      }
    }
  }

  /** The receiving application reads a prefix of what the sending application wrote, and what is
      left in the rx ring continues it.  The sending end starts in ESTABLISHED and does anything for
      any time; the receiving end gets any bytes that were put on the wire, in any segments and any
      order, under 32-bit sequence numbers, and reads when and how much it likes.  The network keeps no
      segment for so long that it arrives 2^31 bytes behind. */
  lemma ReadsWhatWasWritten(t: Tx, es: seq<SR.Event>, s: R.Rx, rs: seq<RR.Event>)
    requires SR.Established(t) && Inv(t) && (forall e | e in es :: e.Write? ==> e.room > 0)
    requires s == RR.Fresh(t.sndUna, s.cap, s.limit, s.sackOk) && R.Inv(s)
    requires forall i | 0 <= i < |rs| :: Network(rs[i], SR.Run(t, es).sent) && RR.WellFormed(rs[i])
    requires InReach(s, rs)
    ensures
      var (s', out) := HeardRun(s, rs);
      out + R.RxBytes(s'.rxq) <= SR.Run(t, es).written
  {
    hide Inv;
    hide R.Inv;
    hide SR.Run;
    hide HeardRun;
    hide InReach;
    hide R.RxBytes;
    NetworkGenuine(t, es, rs);
    hide Stream;
    hide Network;
    ReadsPrefix(s, rs, SR.Run(t, es).written);
  }

  /** Where the segments carry the stream and none reaches beyond it. */
  lemma ReadsPrefix(s: R.Rx, rs: seq<RR.Event>, written: seq<byte>)
    requires s == RR.Fresh(s.nxt, s.cap, s.limit, s.sackOk) && R.Inv(s)
    requires (forall i | 0 <= i < |rs| :: RR.WellFormed(rs[i])) && InReach(s, rs)
    requires forall i | 0 <= i < |rs| ::
               && RR.Genuine(rs[i], Stream(s.nxt, written))
               && (rs[i].Segment? && rs[i].seg.Len() > 0 ==> rs[i].seg.End() <= s.nxt + |written|)
    ensures var (s', out) := HeardRun(s, rs); out + R.RxBytes(s'.rxq) <= written
  {
    hide R.Inv;
    hide RR.Run;
    hide HeardRun;
    hide InReach;
    hide Bytes;
    hide R.RxBytes;
    hide Slice;
    hide Stream;
    hide NoneAbove;
    hide R.Consistent;
    hide RR.Genuine;
    hide RR.WellFormed;
    hide RR.Fresh;
    var iss, stream := s.nxt, Stream(s.nxt, written);
    FreshReady(s, stream);
    RunBelow(s, rs, iss + |written|);
    RR.StreamIntegrity(s, rs, stream, iss);
    HeardRunIs(s, rs);
    var s' := RR.Run(s, rs).0;
    StreamSlice(iss, written, s'.nxt - iss);
  }

  /** A connection over which fewer than 2^31 bytes are written meets that by itself, provided that
      empty segments do not stray. */
  lemma {:induction false} ShortInReach(s: R.Rx, rs: seq<RR.Event>, lo: int, hi: int)
    requires R.Inv(s) && (forall i | 0 <= i < |rs| :: RR.WellFormed(rs[i])) && lo <= s.nxt && NoneAbove(s, hi) && hi - lo < HALF
    requires forall i | 0 <= i < |rs| && rs[i].Segment? :: lo <= rs[i].seg.start && rs[i].seg.End() <= hi
    ensures InReach(s, rs)
    decreases |rs|
  {
    hide Bytes;
    hide RR.Step;
    hide R.Inv;
    NextBelow(s, hi);
    if rs != [] {
      hide NoneAbove;
      RR.StepInv(s, rs[0]);
      StepBelow(s, rs[0], hi);
      SK.StepMovesOn(s, rs[0]);
      ShortInReach(RR.Step(s, rs[0]).0, rs[1..], lo, hi);
    }
  }

  lemma FreshReady(s: R.Rx, stream: int -> byte)
    requires s == RR.Fresh(s.nxt, s.cap, s.limit, s.sackOk)
    ensures R.Consistent(s, stream, s.nxt) && forall hi | hi >= s.nxt :: NoneAbove(s, hi)
  {
  }

  /** Every packet carries written bytes, and none lies beyond them. */
  lemma SentCarries(t: Tx, es: seq<SR.Event>, stream: int -> byte)
    requires SR.Established(t) && Inv(t) && (forall e | e in es :: e.Write? ==> e.room > 0)
    requires SR.Continues(t, SR.Run(t, es), stream)
    ensures var o := SR.Run(t, es); forall w | w in o.sent :: SR.Carries(w, t.sndUna, t.sndUna + |o.written|, stream)
  {
    hide Inv;
    hide SR.Run;
    hide Matching;
    hide Pending;
    hide Slice;
    SR.EstablishedInv(t, stream);
    SR.SendIntegrity(t, es, stream);
  }

  // ---- nothing that was sent is missing

  lemma OnWireSent(g: Seg, ws: seq<Wire>, b: int)
    requires FromWire(g, ws) && g.Has(b)
    ensures Sent(ws, b)
  {
    assert OnWire(ws, g.start + (b - g.start), Bytes(g.chain)[b - g.start]);
  }

  /** The segments hold exactly the bytes put on the wire. */
  ghost predicate Delivers(gs: seq<Seg>, ws: seq<Wire>) {
    && (forall i | 0 <= i < |gs| :: FromWire(gs[i], ws))
    && (forall b | Sent(ws, b) :: RR.Sent(gs, b))
  }

  lemma DeliversSame(gs: seq<Seg>, ws: seq<Wire>, b: int)
    requires Delivers(gs, ws)
    ensures RR.Sent(gs, b) <==> Sent(ws, b)
  {
    hide FromWire;
    hide Sent;
    if RR.Sent(gs, b) {
      var i :| 0 <= i < |gs| && gs[i].Has(b);
      OnWireSent(gs[i], ws, b);
    }
  }

  /** Once every byte on the wire has arrived, in whatever segments, order and number of copies, with
      room for each, rcv_nxt is the sender's snd_nxt - or the right edge of the window, if that is lower;
      and what the application can read is the written stream up to there. */
  lemma EverythingArrives(t: Tx, es: seq<SR.Event>, s: R.Rx, gs: seq<Seg>, stream: int -> byte)
    requires SR.Established(t) && Inv(t) && (forall e | e in es :: e.Write? ==> e.room > 0)
    requires SR.Continues(t, SR.Run(t, es), stream)
    requires s == RR.Fresh(t.sndUna, s.cap, s.limit, s.sackOk) && R.Inv(s)
    requires RR.AllWell(gs) && RR.Unobstructed(s, gs) && Delivers(gs, SR.Run(t, es).sent)
    ensures
      var s' := RR.ArriveAll(s, gs);
      && s'.nxt == Min(Top(SR.Run(t, es).tx), R.Right(s))
      && t.sndUna <= s'.nxt && R.RxBytes(s'.rxq) == Slice(stream, t.sndUna, s'.nxt)
  {
    hide Inv;
    hide R.Inv;
    hide SR.Run;
    hide SR.Continues;
    hide RR.ArriveAll;
    hide RR.Unobstructed;
    hide Delivers;
    hide Sent;
    hide RR.Sent;
    hide Top;
    hide Slice;
    hide R.RxBytes;
    var o, s' := SR.Run(t, es), RR.ArriveAll(s, gs);
    TopAbove(t, es);
    ArrivedBytes(t, es, s, gs, stream);
    XE.WireExact(t, es, stream);
    RR.ReassemblyExact(s, gs);
    forall b ensures RR.Sent(gs, b) <==> t.sndUna <= b < Top(o.tx) {
      DeliversSame(gs, o.sent, b);
    }
    forall b ensures R.Held(s, b) <==> b < t.sndUna {
    }
    hide R.Held;
    assert !R.Held(s', s'.nxt);
    assert R.Held(s', s'.nxt - 1);
  }

  lemma TopAbove(t: Tx, es: seq<SR.Event>)
    requires SR.Established(t) && Inv(t) && (forall e | e in es :: e.Write? ==> e.room > 0)
    ensures t.sndUna <= Top(SR.Run(t, es).tx)
  {
    hide Inv;
    hide SR.Run;
    XE.RunSends(t, es);
  }

  lemma ArrivedBytes(t: Tx, es: seq<SR.Event>, s: R.Rx, gs: seq<Seg>, stream: int -> byte)
    requires SR.Established(t) && Inv(t) && (forall e | e in es :: e.Write? ==> e.room > 0)
    requires SR.Continues(t, SR.Run(t, es), stream)
    requires s == RR.Fresh(t.sndUna, s.cap, s.limit, s.sackOk) && R.Inv(s)
    requires RR.AllWell(gs) && Delivers(gs, SR.Run(t, es).sent)
    ensures var s' := RR.ArriveAll(s, gs); t.sndUna <= s'.nxt && R.RxBytes(s'.rxq) == Slice(stream, t.sndUna, s'.nxt)
  {
    hide Inv;
    hide R.Inv;
    hide SR.Run;
    hide SR.Continues;
    hide RR.ArriveAll;
    hide R.Matches;
    hide FromWire;
    hide Sent;
    hide SR.Carries;
    hide Slice;
    hide R.RxBytes;
    var o := SR.Run(t, es);
    SentCarries(t, es, stream);
    forall i | 0 <= i < |gs| ensures R.Matches(gs[i], stream) {
      FromWireGenuine(gs[i], o.sent, t.sndUna, t.sndUna + |o.written|, stream);
    }
    FreshReady(s, stream);
    RR.ArriveAllConsistent(s, gs, stream, t.sndUna);
  }

  // ---- a timeout makes up for what was lost

  /** A segment that holds the byte at rcv_nxt moves it, when there is room. */
  lemma NextArrives(s: R.Rx, g: Seg)
    requires R.Inv(s) && R.Tight(s) && NoEmptyPiece(g.chain) && g.start <= s.nxt < g.End() && s.wnd > 0
    requires |s.rxq| + |s.ooo| < s.cap
    ensures R.Arrive(s, g).0.nxt > s.nxt
  {
    hide Bytes;
    hide R.RxBytes;
    R.ArriveExact(s, g);
    if R.Arrive(s, g).1 == R.OooLimit {
      OL.OooRefusesArrived(s, g);
    }
    hide R.Arrive;
    var s' := R.Arrive(s, g).0;
    assert g.Has(s.nxt) && R.Held(s', s.nxt);
    CoversFirst(s'.ooo, s'.nxt, R.Right(s'));
  }

  /** Whatever was lost before: when the receiver waits for the first unacknowledged byte, a timeout sends it
      again, and any packet of that timeout that holds it moves rcv_nxt. */
  lemma TimeoutRecovers(t: Tx, wnd: nat, dev: Device, lim: Limits, s: R.Rx)
    requires Inv(t) && t.sndUna < Top(t) && wnd > 0 && lim.mss > 0 && lim.segs > 0
    requires BurstSize(dev) > 0 && XS.Memory(EnvAt(dev, 0))
    requires R.Inv(s) && R.Tight(s) && s.nxt == t.sndUna && s.wnd > 0 && |s.rxq| + |s.ooo| < s.cap
    ensures
      var ws := Timeout(t, wnd, dev, lim).1;
      && Sent(ws, s.nxt)
      && forall w | w in ws && w.start <= s.nxt < w.End() :: R.Arrive(s, Seg(w.start, [w.data])).0.nxt > s.nxt
  {
    hide Inv;
    hide Timeout;
    hide R.Arrive;
    hide R.Inv;
    hide Sent;
    RS.TimeoutSendsFirst(t, wnd, dev, lim);
    var ws := Timeout(t, wnd, dev, lim).1;
    forall w | w in ws && w.start <= s.nxt < w.End() ensures R.Arrive(s, Seg(w.start, [w.data])).0.nxt > s.nxt {
      BytesSingle(w.data);
      hide Bytes;
      NextArrives(s, Seg(w.start, [w.data]));
    }
  }
}
