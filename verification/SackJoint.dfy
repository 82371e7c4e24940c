/** Selective acknowledgement between two ends.  The receiving end reports blocks, the options carry them,
    the sending end marks descriptors: whatever is lost, repeated, reordered or delayed on the way, a
    descriptor is marked only if the receiving end holds every byte of it. */
module SackJoint {
  import opened SeqNum
  import opened Seqs
  import opened Chains
  import opened OooQueue
  import SackSpec
  import R = ReceiveSpec
  import RR = ReceiveRuns
  import OL = OooLimits
  import SK = SackRuns
  import opened TxQueue
  import opened XmitSpec
  import opened SendSpec
  import opened Scoreboard
  import opened SendSteps
  import opened SendAcks
  import SR = SendRuns
  import XE = XmitExact
  import OP = TcpOptions
  import opened EndToEnd

  // ---- one report

  /** The blocks as they go on the wire. */
  function Reported(bs: seq<SackSpec.Block>): (r: seq<Report>)
    ensures |r| == |bs|
  {
    seq(|bs|, i requires 0 <= i < |bs| => Report(Wrap(bs[i].start), Wrap(bs[i].end)))
  }

  /** The options of a packet deliver the blocks that were put into them. */
  lemma ReportTravels(bs: seq<SackSpec.Block>, ts: Option<u32>, mss: u16, ws: bool, perm: bool, rest: seq<u8>)
    requires |bs| <= SackSpec.MAX_BLOCKS && |rest| >= 8
    ensures
      var c := OP.Choice(false, ts, mss, ws, perm, Reported(bs));
      && OP.Parse(OP.OptBytes(c) + rest, 0, |OP.OptBytes(c)|, OP.NO_OPTS, false).Ok?
      && OP.Parse(OP.OptBytes(c) + rest, 0, |OP.OptBytes(c)|, OP.NO_OPTS, false).opts.sacks == Reported(bs)
  {
    hide OP.Parse;
    hide OP.OptBytes;
    OP.RoundTrip(OP.Choice(false, ts, mss, ws, perm, Reported(bs)), rest);
  }

  ghost predicate HoldsAll(s: R.Rx, d: Desc) {
    forall b | d.start <= b < d.End() :: R.Held(s, b)
  }

  /** Every marked descriptor is held by the receiving end. */
  ghost predicate MarksHeld(ds: seq<Desc>, s: R.Rx) {
    forall i {:trigger ds[i].sacked} | 0 <= i < |ds| && ds[i].sacked :: HoldsAll(s, ds[i])
  }

  /** A block lies where modular comparison with the queue is exact. */
  lemma BlockNear(s: R.Rx, lo: int, hi: int, j: nat)
    requires SK.Sacked(s, lo) && NoneAbove(s, hi) && j < |s.blocks|
    ensures lo <= s.blocks[j].start < s.blocks[j].end <= hi
    ensures forall b | s.blocks[j].Has(b) :: R.Held(s, b)
  {
    hide Covers;
    var blk := s.blocks[j];
    forall b | blk.Has(b) ensures R.Held(s, b) {
      assert SackSpec.Reports(s.blocks, b);
    }
    assert blk.Has(blk.end - 1);
  }

  /** A descriptor newly marked from the blocks of a receiver is held by that receiver. */
  lemma NewMarkHeld(t: Tx, s: R.Rx, lo: int, i: nat)
    requires Core(t) && SK.Sacked(s, lo) && NoneAbove(s, t.sndNxt) && t.sndNxt - HALF < lo
    requires i < |t.descs| && |RcvSack(t, Reported(s.blocks)).descs| == |t.descs|
    requires !t.descs[i].sacked && RcvSack(t, Reported(s.blocks)).descs[i].sacked
    ensures HoldsAll(s, t.descs[i])
  {
    hide Core;
    hide RcvSack;
    hide Inside;
    hide SK.Sacked;
    hide NoneAbove;
    var bs := Reported(s.blocks);
    SackSound(t, bs);
    assert RcvSack(t, bs).descs[i].sacked;
    var j :| 0 <= j < |bs| && Inside(t.descs[i], bs[j], t.sndNxt);
    BlockNear(s, lo, t.sndNxt, j);
    InsideExact(t, i, s.blocks[j].start, s.blocks[j].end);
  }

  // ---- what every step of the sending end does to the marks

  lemma SuffixHeld(ds: seq<Desc>, k: nat, s: R.Rx)
    requires MarksHeld(ds, s) && k <= |ds|
    ensures MarksHeld(ds[k..], s)
  {
    hide HoldsAll;
    forall i | 0 <= i < |ds[k..]| && ds[k..][i].sacked ensures HoldsAll(s, ds[k..][i]) {
      assert ds[k + i].sacked;
    }
  }

  lemma AppendHeld(a: seq<Desc>, b: seq<Desc>, s: R.Rx)
    requires MarksHeld(a, s) && forall i | 0 <= i < |b| :: !b[i].sacked
    ensures MarksHeld(a + b, s)
  {
    hide HoldsAll;
  }

  lemma WriteHeld(t: Tx, e: SR.Event, s: R.Rx)
    requires Inv(t) && t.chunk > 0 && e.Write? && e.room > 0 && MarksHeld(t.descs, s)
    ensures MarksHeld(SR.Step(t, e).tx.descs, s)
  {
    hide Core;
    hide Names;
    hide ChopAll;
    hide HoldsAll;
    hide Tiled;
    ChopAllTiles(e.vs, t.dataNxt, t.chunk, e.room);
    AppendHeld(t.descs, ChopAll(e.vs, t.dataNxt, t.chunk, e.room), s);
  }

  /** The blocks of an acknowledgement are those a receiver reported that holds no more than `s` does. */
  ghost predicate From(t: Tx, bs: seq<Report>, h: R.Rx, lo: int, s: R.Rx) {
    && bs == Reported(h.blocks) && SK.Sacked(h, lo) && t.sndNxt - HALF < lo
    && NoneAbove(h, t.sndNxt) && forall b | R.Held(h, b) :: R.Held(s, b)
  }

  lemma SackHeld(t: Tx, bs: seq<Report>, h: R.Rx, lo: int, s: R.Rx)
    requires Loose(t) && MarksHeld(t.descs, s) && (bs == [] || From(t, bs, h, lo, s))
    ensures MarksHeld(TakeSack(t, bs).descs, s)
  {
    hide Core;
    hide Names;
    hide RcvSack;
    hide R.Held;
    hide SK.Sacked;
    hide NoneAbove;
    if bs != [] {
      SackSound(t, bs);
      var t' := RcvSack(t, bs);
      forall i | 0 <= i < |t'.descs| && t'.descs[i].sacked ensures HoldsAll(s, t'.descs[i]) {
        if t.descs[i].sacked {
          assert HoldsAll(s, t.descs[i]);
        } else {
          NewMarkHeld(t, h, lo, i);
        }
      }
    }
  }

  lemma AckHeld(t: Tx, a: AckInput, h: R.Rx, lo: int, s: R.Rx)
    requires Inv(t) && MarksHeld(t.descs, s) && (a.blocks == [] || From(t, a.blocks, h, lo, s))
    ensures MarksHeld(RcvAck(t, a).tx.descs, s)
  {
    hide Core;
    hide Names;
    hide AckData;
    hide TakeSack;
    hide HandleFast;
    hide FinishStage;
    hide MarksHeld;
    hide SK.Sacked;
    hide NoneAbove;
    hide R.Held;
    var at := Unwrap(a.ack, t.sndUna);
    if t.sndUna <= at <= t.sndNxt {
      var n := Covered(t, at);
      AckRange(t, at);
      var t0 := CountDup(t, a, at);
      SteeringDoesntMatter(t, t0);
      var t1 := TakeAck(t, a, at).0;
      if n > 0 {
        AckDataKeeps(t0, n);
        SuffixHeld(t.descs, t1.una - t.una, s);
      }
      SackHeld(t1, a.blocks, h, lo, s);
      var t2 := TakeSack(t1, a.blocks);
      FastKeeps(t2, a, n);
      FinishKeeps(HandleFast(t2, a, n).0, a, n);
    }
  }

  lemma SendHeld(t: Tx, e: SR.Event, h: R.Rx, lo: int, s: R.Rx, stream: int -> byte)
    requires Inv(t) && t.chunk > 0 && (e.Write? ==> e.room > 0) && Matching(t.descs, stream) && MarksHeld(t.descs, s)
    requires e.Ack? && e.a.blocks != [] ==> From(t, e.a.blocks, h, lo, s)
    ensures MarksHeld(SR.Step(t, e).tx.descs, s)
  {
    hide Core;
    hide Names;
    hide Matching;
    match e
    case Write(_, _, _) =>
      WriteHeld(t, e, s);
      hide SR.Step;
    case Xmit(_, _, _) =>
      hide XmitMany;
    case Ack(a) =>
      AckHeld(t, a, h, lo, s);
      hide RcvAck;
    case Rto(_, _, _) =>
      SR.RtoIsGood(t, e, stream);
      hide SR.Step;
    case Fin =>
  }

  // ---- what every step of the receiving end does to the bytes held

  lemma ReceiveHeld(s: R.Rx, e: RR.Event, ds: seq<Desc>)
    requires R.Inv(s) && RR.WellFormed(e) && OL.Lossless(s, e) && MarksHeld(ds, s)
    ensures MarksHeld(ds, RR.Step(s, e).0)
  {
    hide R.Inv;
    hide R.Held;
    hide RR.Step;
    hide OL.Lossless;
    OL.LosslessExactly(s, e);
    var s' := RR.Step(s, e).0;
    forall i | 0 <= i < |ds| && ds[i].sacked ensures HoldsAll(s', ds[i]) {
      assert HoldsAll(s, ds[i]);
    }
  }

  // ---- the two ends together

  /** What the receiving end was when it sent an acknowledgement, and its anchor (see SackRuns). */
  datatype Past = Past(rx: R.Rx, lo: int)

  /** Both ends, the packets put on the wire so far, and every acknowledgement sent so far. */
  datatype Pair = Pair(tx: Tx, rx: R.Rx, lo: int, sent: seq<Wire>, past: seq<Past>)

  /** The sending end does something; an acknowledgement with blocks carries those of the k-th report.
      Or the receiving end does, and acknowledges. */
  datatype Move = Sends(e: SR.Event, k: nat) | Receives(r: RR.Event)

  /** What may happen: the network delivers bytes that are on the wire, to within 2^31 of rcv_nxt; the
      receiving end loses no byte it holds; a report is not older than 2^31 bytes. */
  ghost predicate Possible(p: Pair, m: Move, stream: int -> byte)
    requires Inv(p.tx) && p.tx.chunk > 0 && R.Inv(p.rx)
  {
    match m
    case Sends(e, k) =>
      && (e.Write? ==> e.room > 0) && SR.Continues(p.tx, SR.Step(p.tx, e), stream)
      && (e.Ack? && e.a.blocks != [] ==>
            k < |p.past| && e.a.blocks == Reported(p.past[k].rx.blocks) && p.tx.sndNxt - HALF < p.past[k].lo)
    case Receives(e) =>
      && RR.WellFormed(e) && Network(e, p.sent) && OL.Lossless(p.rx, e)
      && (e.Segment? ==> -HALF <= e.seg.start - p.rx.nxt < HALF)
      && R.Right(RR.Step(p.rx, e).0) - p.lo < HALF
  }

  ghost function Next(p: Pair, m: Move): (p': Pair)
    requires Inv(p.tx) && p.tx.chunk > 0 && R.Inv(p.rx)
    requires m.Sends? && m.e.Write? ==> m.e.room > 0
  {
    match m
    case Sends(e, _) => var o := SR.Step(p.tx, e); p.(tx := o.tx, sent := p.sent + o.sent)
    case Receives(e) =>
      var s := RR.Step(p.rx, Heard(p.rx, e)).0;
      var lo := SK.Anchor(s, p.lo);
      p.(rx := s, lo := lo, past := p.past + [Past(s, lo)])
  }

  /** What holds of the acknowledgements on their way. */
  ghost predicate Older(h: Past, s: R.Rx) {
    SK.Sacked(h.rx, h.lo) && forall b | R.Held(h.rx, b) :: R.Held(s, b)
  }

  ghost predicate Sound(p: Pair, iss: int, stream: int -> byte) {
    && Inv(p.tx) && p.tx.chunk > 0 && Matching(p.tx.descs, stream) && iss <= p.tx.sndUna
    && (forall w | w in p.sent :: SR.Carries(w, iss, Top(p.tx), stream))
    && R.Inv(p.rx) && SK.Anchored(p.rx, p.lo) && NoneAbove(p.rx, Top(p.tx))
    && (forall k | 0 <= k < |p.past| :: Older(p.past[k], p.rx))
    && MarksHeld(p.tx.descs, p.rx)
  }

  lemma NoneAboveLess(h: R.Rx, s: R.Rx, hi: int, hi': int)
    requires NoneAbove(s, hi) && hi <= hi' && forall b | R.Held(h, b) :: R.Held(s, b)
    ensures NoneAbove(h, hi')
  {
    hide R.Held;
    forall b | b >= hi' ensures !R.Held(h, b) {
      assert !R.Held(s, b);
    }
  }

  lemma CarriesMore(ws: seq<Wire>, lo: int, hi: int, hi': int, stream: int -> byte)
    requires hi <= hi' && forall w | w in ws :: SR.Carries(w, lo, hi, stream)
    ensures forall w | w in ws :: SR.Carries(w, lo, hi', stream)
  {
    hide Slice;
  }

  lemma SendsSound(p: Pair, m: Move, iss: int, stream: int -> byte)
    requires Sound(p, iss, stream) && m.Sends? && Possible(p, m, stream)
    ensures Sound(Next(p, m), iss, stream)
  {
    hide Core;
    hide Names;
    hide R.Inv;
    hide SR.Step;
    hide SK.Anchored;
    hide SK.Sacked;
    hide Matching;
    hide MarksHeld;
    hide SR.Continues;
    hide Pending;
    hide R.Held;
    hide NoneAbove;
    hide Slice;
    hide AvoidsSacked;
    var t, o := p.tx, SR.Step(p.tx, m.e);
    SR.StepIsGood(t, m.e, stream);
    XE.StepSends(t, m.e);
    NoneAboveLess(p.rx, p.rx, Top(t), Top(o.tx));
    CarriesMore(p.sent, iss, Top(t), Top(o.tx), stream);
    var h := if m.k < |p.past| then p.past[m.k] else Past(p.rx, p.lo);
    if m.e.Ack? && m.e.a.blocks != [] {
      assert Older(h, p.rx);
      NoneAboveLess(h.rx, p.rx, Top(t), t.sndNxt);
    }
    SendHeld(t, m.e, h.rx, h.lo, p.rx, stream);
  }

  lemma ReceivesSound(p: Pair, m: Move, iss: int, stream: int -> byte)
    requires Sound(p, iss, stream) && m.Receives? && Possible(p, m, stream)
    ensures Sound(Next(p, m), iss, stream)
  {
    hide Core;
    hide Names;
    hide R.Inv;
    hide RR.Step;
    hide Matching;
    hide MarksHeld;
    hide R.Held;
    hide NoneAbove;
    hide OL.Lossless;
    hide FromWire;
    hide SR.Carries;
    hide SK.Sacked;
    hide Wrap;
    hide Unwrap;
    var s, e := p.rx, m.r;
    if e.Segment? {
      HeardExactly(s, e.seg);
      FromWireGenuine(e.seg, p.sent, iss, Top(p.tx), stream);
    }
    assert Heard(s, e) == e;
    var s' := RR.Step(s, e).0;
    RR.StepInv(s, e);
    StepBelow(s, e, Top(p.tx));
    SK.StepAnchored(s, e, p.lo);
    OL.LosslessExactly(s, e);
    ReceiveHeld(s, e, p.tx.descs);
    var past := Next(p, m).past;
    forall k | 0 <= k < |past| ensures Older(past[k], s') {
      if k < |p.past| {
        assert Older(p.past[k], s);
      }
    }
  }

  ghost predicate AllPossible(p: Pair, ms: seq<Move>, iss: int, stream: int -> byte)
    requires Sound(p, iss, stream)
    decreases |ms|
  {
    ms == [] ||
    (Possible(p, ms[0], stream) && (StepSound(p, ms[0], iss, stream); AllPossible(Next(p, ms[0]), ms[1..], iss, stream)))
  }

  ghost function After(p: Pair, ms: seq<Move>, iss: int, stream: int -> byte): (p': Pair)
    requires Sound(p, iss, stream) && AllPossible(p, ms, iss, stream)
    decreases |ms|
  {
    if ms == [] then p
    else
      StepSound(p, ms[0], iss, stream);
      After(Next(p, ms[0]), ms[1..], iss, stream)
  }

  lemma StepSound(p: Pair, m: Move, iss: int, stream: int -> byte)
    requires Sound(p, iss, stream) && Possible(p, m, stream)
    ensures Sound(Next(p, m), iss, stream)
  {
    hide Sound;
    hide Possible;
    hide Next;
    if m.Sends? {
      SendsSound(p, m, iss, stream);
    } else {
      ReceivesSound(p, m, iss, stream);
    }
  }

  /** Over every joint run of a sending and a receiving end: a descriptor the sending end has marked as
      received holds only bytes the receiving end holds.  Two ends that have just established the
      connection are a sound pair (FreshSound). */
  lemma {:induction false} MarkedIsHeld(p: Pair, ms: seq<Move>, iss: int, stream: int -> byte)
    requires Sound(p, iss, stream) && AllPossible(p, ms, iss, stream)
    ensures var p' := After(p, ms, iss, stream); Sound(p', iss, stream) && MarksHeld(p'.tx.descs, p'.rx)
    decreases |ms|
  {
    if ms != [] {
      hide Next;
      hide Possible;
      StepSound(p, ms[0], iss, stream);
      MarkedIsHeld(Next(p, ms[0]), ms[1..], iss, stream);
    }
  }

  /** Two ends that have just established the connection. */
  lemma FreshSound(t: Tx, s: R.Rx, stream: int -> byte)
    requires SR.Established(t) && s == RR.Fresh(t.sndUna, s.cap, s.limit, s.sackOk) && s.wnd < HALF
    ensures Sound(Pair(t, s, s.nxt, [], []), t.sndUna, stream)
  {
    SR.EstablishedInv(t, stream);
  }
}
