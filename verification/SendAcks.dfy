/** Acknowledgements and timeouts of the send half. */
module SendAcks {
  import opened SeqNum
  import opened Chains
  import opened TxQueue
  import opened XmitSpec
  import opened SendSpec
  import opened Scoreboard
  import opened SendSteps

  /** An acknowledgement and what decides how it is answered: `dup` says that the segment is empty
      and leaves the window as it was; `spurious` that its timestamp predates the retransmission;
      the budgets come from the congestion window, `dev` is the device. */
  datatype AckInput = AckInput(ack: u32, dup: bool, blocks: seq<Report>, spurious: bool,
                               fastBudget: int, wnd: nat, mss: nat, dev: Device, lim: Limits)

  datatype AckOutcome = OldAck | InvalidAck | AckTaken(finAcked: bool)

  datatype Result = Result(tx: Tx, outcome: AckOutcome, fired: seq<Completion>, sent: seq<Wire>)

  /** The cached pointers are usable once regulated: they name their descriptor, or lie below
      snd_una by no more than 32-bit comparison can tell. */
  ghost predicate Usable(t: Tx) {
    Core(t) && (t.sndUna - HALF < t.rexSeq < t.sndUna || Names(t))
  }

  ghost predicate Loose(t: Tx) {
    Core(t) && (t.stage != NoRetrans ==> Usable(t))
  }

  /** tcp_retrans. */
  ghost function Retrans(t: Tx, wnd: nat, dev: Device, lim: Limits): (r: (Tx, seq<Wire>))
    requires Usable(t)
    ensures Core(r.0) && Names(r.0) && r.0 == t.(rexSeq := r.0.rexSeq, rexIdx := r.0.rexIdx)
  {
    hide Core;
    hide Names;
    hide Rex;
    RegulateNames(t);
    var t1 := Regulate(t);
    RexNames(t1, wnd - (t1.rexSeq - t1.sndUna), dev, lim);
    Rex(t1, wnd - (t1.rexSeq - t1.sndUna), dev, lim)
  }

  /** tcp_fast_retrans. */
  ghost function FastRex(t: Tx, budget: int, mss: nat, dev: Device, lim: Limits): (r: (Tx, seq<Wire>))
    requires Usable(t)
    ensures Core(r.0) && Names(r.0) && r.0 == t.(rexSeq := r.0.rexSeq, rexIdx := r.0.rexIdx)
  {
    hide Core;
    hide Names;
    hide Rex;
    RegulateNames(t);
    var t1 := Regulate(t);
    var b := budget - (t1.rexSeq - t1.sndUna);
    RexNames(t1, if b < mss then mss else b, dev, lim);
    Rex(t1, if b < mss then mss else b, dev, lim)
  }

  /** handle_fast_retransmit, after `n` bytes were acknowledged. */
  ghost function HandleFast(t: Tx, a: AckInput, n: nat): (r: (Tx, seq<Wire>))
    requires Loose(t)
  {
    if t.dupack < 3 && t.stage != FastRetrans then (t, [])
    else if t.stage == NoRetrans && SeqGt(a.ack, Wrap(t.recover)) then
      var t1 := t.(recover := t.sndNxt, stage := FastRetrans, rexSeq := t.sndUna, rexIdx := t.una);
      EnterUsable(t, t1);
      var (t2, ws) := FastRex(t1, a.mss, a.mss, a.dev, a.lim);
      LeaveOrGoOn(t2, a, n, ws)
    else LeaveOrGoOn(t, a, n, [])
  }

  lemma EnterUsable(t: Tx, t1: Tx)
    requires Core(t) && t1 == t.(recover := t1.recover, stage := t1.stage, rexSeq := t.sndUna, rexIdx := t.una)
    ensures Usable(t1)
  {
    hide SackedBytes;
    SpanBound(t.descs, Lo(t), t.dataNxt, t.chunk);
  }

  /** The second half of handle_fast_retransmit. */
  ghost function LeaveOrGoOn(t: Tx, a: AckInput, n: nat, ws: seq<Wire>): (r: (Tx, seq<Wire>))
    requires t.stage == FastRetrans ==> Usable(t)
  {
    if t.stage != FastRetrans || n == 0 then (t, ws)
    else if SeqLt(a.ack, Wrap(t.recover)) then
      if a.spurious then (t.(stage := NoRetrans, dupack := 0), ws)
      else
        var (t', more) := FastRex(t, a.fastBudget, a.mss, a.dev, a.lim);
        (t', ws + more)
    else (t.(stage := NoRetrans, dupack := 0), ws)
  }

  /** The rest of tcp_rcv_ack: finish a recovery, or go on with it. */
  ghost function FinishStage(t: Tx, a: AckInput, n: nat): (r: (Tx, seq<Wire>))
    requires Loose(t)
  {
    if t.stage == NoRetrans then (if n > 0 then t.(recover := t.sndUna - 1) else t, [])
    else if SeqGe(a.ack, Wrap(t.recover)) then (t.(stage := NoRetrans), [])
    else if t.stage == RtoRetrans then Retrans(t, a.wnd, a.dev, a.lim)
    else (t, [])
  }

  // ---- every acknowledgement

  /** Only what steers retransmission differs. */
  ghost predicate SameQueue(t: Tx, t': Tx) {
    t' == t.(stage := t'.stage, recover := t'.recover, dupack := t'.dupack, rexSeq := t'.rexSeq, rexIdx := t'.rexIdx)
  }

  lemma SteeringDoesntMatter(t: Tx, t': Tx)
    requires Core(t) && SameQueue(t, t')
    ensures Core(t')
  {
    hide SackedBytes;
    hide Tiled;
    hide Within;
  }

  /** The number of bytes an acceptable acknowledgement covers is outstanding data. */
  lemma AckRange(t: Tx, at: int)
    requires Core(t) && t.sndUna <= at <= t.sndNxt
    ensures
      var n := at - t.sndUna - (if t.finSent && at == t.sndNxt then 1 else 0);
      0 <= n <= t.dataNxt - t.sndUna && n <= t.sndNxt - t.sndUna
    ensures t.sndUna <= t.dataNxt && t.sndNxt - t.sndUna < HALF - 1
  {
    hide SackedBytes;
    SpanBound(t.descs, Lo(t), t.dataNxt, t.chunk);
    MulMonotone(|t.descs|, t.size, t.chunk);
    if !t.finSent {
      StartMonotone(t.descs, Lo(t), t.dataNxt, t.nxt, |t.descs|);
    }
    if t.descs != [] {
      StartMonotone(t.descs, Lo(t), t.dataNxt, 0, |t.descs|);
    }
  }

  lemma SpanSmall(t: Tx)
    requires Core(t)
    ensures 0 <= t.dataNxt - Lo(t) < HALF - 2 && Lo(t) <= t.sndUna <= t.sndNxt <= t.dataNxt + 1
    ensures forall i | 0 <= i < |t.descs| :: t.descs[i].Len() < HALF
  {
    hide SackedBytes;
    SpanBound(t.descs, Lo(t), t.dataNxt, t.chunk);
    MulMonotone(|t.descs|, t.size, t.chunk);
    StartMonotone(t.descs, Lo(t), t.dataNxt, 0, |t.descs|);
    if !t.finSent {
      StartMonotone(t.descs, Lo(t), t.dataNxt, t.nxt, |t.descs|);
    }
    forall i | 0 <= i < |t.descs| ensures t.descs[i].Len() < HALF {
      StartMonotone(t.descs, Lo(t), t.dataNxt, 0, i);
      StartMonotone(t.descs, Lo(t), t.dataNxt, i, |t.descs|);
    }
  }

  /** However an acknowledgement interleaves with retransmission, the cached pointers either lie
      below snd_una, and will be regulated, or still name their descriptor. */
  lemma AckLoose(t: Tx, n: nat)
    requires Inv(t) && 0 < n <= t.dataNxt - t.sndUna && n <= t.sndNxt - t.sndUna
    ensures Loose(AckData(t, n).0)
  {
    hide AckData;
    hide Pending;
    AckRange(t, t.sndNxt);
    hide Core;
    AckDataKeeps(t, n);
    var t' := AckData(t, n).0;
    if t.stage != NoRetrans && t.rexSeq >= t'.sndUna {
      var m, k := t'.una - t.una, t.rexIdx - t.una;
      if k < m {
        AckedOnly(t, n, k);
      }
      WithinSuffix(t.descs, t.dataNxt, k, m, t.rexSeq);
    }
  }

  lemma WithinSuffix(ds: seq<Desc>, hi: int, k: nat, m: nat, at: int)
    requires Within(ds, hi, k, at) && m <= k
    ensures Within(ds[m..], hi, k - m, at)
  {
  }

  lemma SackLoose(t: Tx, bs: seq<Report>)
    requires Loose(t)
    ensures var t' := RcvSack(t, bs);
            Loose(t') && (Names(t) ==> Names(t')) && t' == t.(descs := t'.descs, sackedBytes := t'.sackedBytes)
  {
    hide Core;
    hide RcvSack;
    SackSound(t, bs);
  }

  lemma FastKeeps(t: Tx, a: AckInput, n: nat)
    requires Loose(t) && (n == 0 && t.stage == FastRetrans ==> Names(t))
    ensures
      var t' := HandleFast(t, a, n).0;
      Loose(t') && SameQueue(t, t') && (t'.stage == FastRetrans ==> Names(t'))
  {
    hide Core;
    hide Names;
    hide FastRex;
    var t' := HandleFast(t, a, n).0;
    if !(t.dupack < 3 && t.stage != FastRetrans) && t.stage == NoRetrans && SeqGt(a.ack, Wrap(t.recover)) {
      var t1 := t.(recover := t.sndNxt, stage := FastRetrans, rexSeq := t.sndUna, rexIdx := t.una);
      EnterUsable(t, t1);
    }
    SteeringDoesntMatter(t, t');
  }

  lemma FinishKeeps(t: Tx, a: AckInput, n: nat)
    requires Loose(t) && (t.stage == FastRetrans ==> Names(t))
    ensures var t' := FinishStage(t, a, n).0; Inv(t') && SameQueue(t, t')
  {
    hide Core;
    hide Names;
    hide Retrans;
    var t' := FinishStage(t, a, n).0;
    SteeringDoesntMatter(t, t');
  }

  /** Counting duplicate acknowledgements. */
  function CountDup(t: Tx, a: AckInput, at: int): Tx {
    t.(dupack := if at > t.sndUna then 0 else if a.dup && t.sndNxt != t.sndUna then t.dupack + 1 else t.dupack)
  }

  /** The bytes an acknowledgement covers, not counting our FIN. */
  function Covered(t: Tx, at: int): int {
    at - t.sndUna - (if t.finSent && at == t.sndNxt then 1 else 0)
  }

  /** The part of tcp_rcv_ack that takes the acknowledged data off the queue. */
  ghost function TakeAck(t: Tx, a: AckInput, at: int): (r: (Tx, seq<Completion>))
    requires Inv(t) && t.sndUna <= at <= t.sndNxt
    ensures Loose(r.0) && (Covered(t, at) == 0 ==> r.0 == CountDup(t, a, at) && Inv(r.0)) && r.0.chunk == t.chunk
  {
    hide AckData;
    AckRange(t, at);
    var t0 := CountDup(t, a, at);
    SteeringDoesntMatter(t, t0);
    hide Core;
    if Covered(t, at) > 0 then
      AckLoose(t0, Covered(t, at));
      AckDataKeeps(t0, Covered(t, at));
      AckData(t0, Covered(t, at))
    else (t0, [])
  }

  ghost function TakeSack(t: Tx, bs: seq<Report>): (r: Tx)
    requires Loose(t)
    ensures Loose(r) && (Names(t) ==> Names(r)) && r == t.(descs := r.descs, sackedBytes := r.sackedBytes)
  {
    hide Core;
    hide Names;
    hide RcvSack;
    SackLoose(t, bs);
    if bs == [] then t else RcvSack(t, bs)
  }

  /** tcp_rcv_ack in a synchronized state: the new state, whether our FIN is acknowledged, the
      writes that completed and the packets retransmitted. */
  ghost function RcvAck(t: Tx, a: AckInput): (r: Result)
    requires Inv(t)
    ensures Inv(r.tx) && r.tx.chunk == t.chunk
  {
    hide Core;
    hide Names;
    hide TakeAck;
    hide TakeSack;
    hide HandleFast;
    hide FinishStage;
    var at := Unwrap(a.ack, t.sndUna);
    if at < t.sndUna then Result(t, OldAck, [], [])
    else if at > t.sndNxt then Result(t, InvalidAck, [], [])
    else
      var n := Covered(t, at);
      AckRange(t, at);
      var (t1, fired) := TakeAck(t, a, at);
      var t2 := TakeSack(t1, a.blocks);
      FastKeeps(t2, a, n);
      var (t3, ws) := HandleFast(t2, a, n);
      FinishKeeps(t3, a, n);
      var (t4, more) := FinishStage(t3, a, n);
      Result(t4, AckTaken(t.finSent && at == t.sndNxt), fired, ws + more)
  }

  /** What an acknowledgement leaves alone, and how far it moves snd_una. */
  lemma AckFrame(t: Tx, a: AckInput)
    requires Inv(t)
    ensures
      var (r, at) := (RcvAck(t, a), Unwrap(a.ack, t.sndUna));
      && r.tx.finSent == t.finSent && r.tx.dataNxt == t.dataNxt && r.tx.sndNxt == t.sndNxt
      && (r.outcome.AckTaken? ==>
            && t.sndUna <= at <= t.sndNxt && r.tx.sndUna == t.sndUna + Covered(t, at)
            && r.outcome.finAcked == (t.finSent && at == t.sndNxt))
      && (!r.outcome.AckTaken? ==> r.tx == t)
  {
    hide Core;
    hide Names;
    hide AckData;
    hide TakeSack;
    hide HandleFast;
    hide FinishStage;
    var at := Unwrap(a.ack, t.sndUna);
    if t.sndUna <= at <= t.sndNxt {
      var n := Covered(t, at);
      AckRange(t, at);
      var t0 := CountDup(t, a, at);
      SteeringDoesntMatter(t, t0);
      if n > 0 {
        AckDataKeeps(t0, n);
      }
      var t1 := TakeAck(t, a, at).0;
      var t2 := TakeSack(t1, a.blocks);
      FastKeeps(t2, a, n);
      FinishKeeps(HandleFast(t2, a, n).0, a, n);
    }
  }

  /** tcp_timeout_rto when the connection is not given up. */
  ghost function Timeout(t: Tx, wnd: nat, dev: Device, lim: Limits): (r: (Tx, seq<Wire>))
    requires Inv(t)
    ensures Inv(r.0)
  {
    ClearKeeps(t);
    var t1 := ClearSacked(t);
    var t2 := t1.(stage := RtoRetrans, recover := t.sndNxt, rexSeq := t.sndUna, rexIdx := t.una);
    hide ClearSacked;
    hide Core;
    hide Names;
    EnterUsable(t1, t2);
    Retrans(t2, wnd, dev, lim)
  }
}
