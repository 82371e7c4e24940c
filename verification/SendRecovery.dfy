/** Loss recovery over whole runs: where the recovery point lies, and when recovery begins and ends
    (handle_fast_retransmit and the end of tcp_rcv_ack of src/tcp/tcp_input.c, tcp_timeout_rto of
    src/tcp/tcp_timeout.c). */
module SendRecovery {
  import opened SeqNum
  import opened Seqs
  import opened Chains
  import opened TxQueue
  import opened XmitSpec
  import opened SendSpec
  import opened Scoreboard
  import opened SendSteps
  import opened SendAcks
  import opened SendRuns

  /** Still in the recovery a retransmitted SYN began: no acknowledgement has come since. */
  predicate SynTimedOut(t: Tx) {
    t.stage == RtoRetrans && t.recover == t.sndUna - 1 && t.dupack == 0
  }

  /** The recovery point is never ahead of what was sent.  It lies in the outstanding data during
      recovery, and also outside it as long as three duplicate acknowledgements stay counted. */
  predicate Steered(t: Tx) {
    && t.sndUna - HALF < t.recover <= t.sndNxt
    && (t.stage != NoRetrans || t.dupack >= 3 ==> t.sndUna <= t.recover || SynTimedOut(t))
  }

  // ---- one acknowledgement

  /** The duplicate acknowledgements counted after one of `at`: one more for a duplicate while data is
      outstanding, none once snd_una has moved. */
  function Dups(t: Tx, a: AckInput, at: int): nat {
    if at > t.sndUna then 0 else t.dupack + if a.dup && t.sndUna < t.sndNxt then 1 else 0
  }

  /** Taking acknowledged data off the queue changes what steers recovery only by the count. */
  lemma TakeAckSteers(t: Tx, a: AckInput, at: int)
    requires Inv(t) && t.sndUna <= at <= t.sndNxt
    ensures
      var t1 := TakeAck(t, a, at).0;
      && t1.stage == t.stage && t1.recover == t.recover && t1.sndNxt == t.sndNxt
      && t1.dupack == Dups(t, a, at) && t1.sndUna == t.sndUna + Covered(t, at)
  {
    hide AckData;
    AckRange(t, at);
    var t0 := CountDup(t, a, at);
    SteeringDoesntMatter(t, t0);
    hide Core;
    if Covered(t, at) > 0 {
      AckDataKeeps(t0, Covered(t, at));
    }
  }

  /** Whether an acknowledgement of `at` makes fast retransmission begin. */
  predicate Begins(t: Tx, a: AckInput, at: int) {
    t.stage == NoRetrans && Dups(t, a, at) >= 3 && t.recover < at
  }

  /** Whether it ends fast retransmission: it reaches the recovery point, or is partial and shows that
      the retransmission was spurious. */
  predicate Leaves(t: Tx, a: AckInput, at: int) {
    t.stage == FastRetrans && Covered(t, at) > 0 && (at >= t.recover || a.spurious)
  }

  /** What begins does so on a duplicate acknowledgement, with data outstanding. */
  lemma BeginsOnDuplicate(t: Tx, a: AckInput, at: int)
    requires Steered(t) && t.sndUna <= at <= t.sndNxt && Begins(t, a, at)
    ensures at == t.sndUna < t.sndNxt && Covered(t, at) == 0
  {
  }

  /** What handle_fast_retransmit makes of stage, recovery point and count. */
  lemma FastSteers(t: Tx, a: AckInput, at: int, t2: Tx)
    requires Steered(t) && Core(t) && t.sndUna <= at <= t.sndNxt && a.ack == Wrap(at) && Loose(t2)
    requires t2.stage == t.stage && t2.recover == t.recover && t2.sndNxt == t.sndNxt
    requires t2.dupack == Dups(t, a, at) && t2.sndUna == t.sndUna + Covered(t, at) && Covered(t, at) >= 0
    ensures
      var t3 := HandleFast(t2, a, Covered(t, at)).0;
      && t3.sndUna == t2.sndUna && t3.sndNxt == t2.sndNxt
      && t3.recover == (if Begins(t, a, at) then t.sndNxt else t.recover)
      && t3.stage == (if Begins(t, a, at) then FastRetrans else if Leaves(t, a, at) then NoRetrans else t.stage)
      && t3.dupack == (if Leaves(t, a, at) then 0 else t2.dupack)
  {
    AckRange(t, t.sndNxt);
    hide Core;
    hide Names;
    hide FastRex;
    hide Wrap;
    hide Diff;
    DiffExact(at, t.recover);
    if Begins(t, a, at) {
      BeginsOnDuplicate(t, a, at);
      EnterUsable(t2, t2.(recover := t2.sndNxt, stage := FastRetrans, rexSeq := t2.sndUna, rexIdx := t2.una));
    }
  }

  /** What the end of tcp_rcv_ack makes of them. */
  lemma FinishSteers(t3: Tx, a: AckInput, at: int, n: nat)
    requires Loose(t3) && a.ack == Wrap(at) && (t3.stage != NoRetrans ==> -HALF <= at - t3.recover < HALF)
    ensures
      var t4 := FinishStage(t3, a, n).0;
      && t4.sndUna == t3.sndUna && t4.sndNxt == t3.sndNxt && t4.dupack == t3.dupack
      && t4.stage == (if t3.stage != NoRetrans && at >= t3.recover then NoRetrans else t3.stage)
      && t4.recover == (if t3.stage == NoRetrans && n > 0 then t3.sndUna - 1 else t3.recover)
  {
    hide Core;
    hide Names;
    hide Retrans;
    hide Wrap;
    hide Diff;
    DiffExact(at, t3.recover);
  }

  /** What an accepted acknowledgement makes of stage, recovery point and count, in unbounded numbers. */
  lemma AckSteers(t: Tx, a: AckInput)
    requires Inv(t) && Steered(t) && t.sndUna <= Unwrap(a.ack, t.sndUna) <= t.sndNxt
    ensures
      var (at, t') := (Unwrap(a.ack, t.sndUna), RcvAck(t, a).tx);
      var n := Covered(t, at);
      var begins, leaves := Begins(t, a, at), Leaves(t, a, at);
      && t'.sndUna == t.sndUna + n && t'.sndNxt == t.sndNxt && n >= 0
      && t'.dupack == (if leaves then 0 else Dups(t, a, at))
      && t'.stage == (if begins then FastRetrans
                      else if t.stage != NoRetrans && (at >= t.recover || leaves) then NoRetrans
                      else t.stage)
      && t'.recover == (if begins then t.sndNxt
                        else if (t.stage == NoRetrans || leaves) && n > 0 then t'.sndUna - 1
                        else t.recover)
  {
    hide TakeAck;
    hide TakeSack;
    hide HandleFast;
    hide FinishStage;
    hide Core;
    hide Names;
    hide Wrap;
    hide Unwrap;
    var at := Unwrap(a.ack, t.sndUna);
    UnwrapIs(a.ack, t.sndUna);
    var n := Covered(t, at);
    AckRange(t, at);
    TakeAckSteers(t, a, at);
    var t1 := TakeAck(t, a, at).0;
    var t2 := TakeSack(t1, a.blocks);
    FastKeeps(t2, a, n);
    FastSteers(t, a, at, t2);
    var t3 := HandleFast(t2, a, n).0;
    if Begins(t, a, at) {
      BeginsOnDuplicate(t, a, at);
    }
    FinishSteers(t3, a, at, n);
  }

  lemma UnwrapIs(x: u32, near: int)
    ensures Wrap(Unwrap(x, near)) == x
  {
  }

  /** When recovery goes on after an accepted acknowledgement: one that was going on, exactly as long
      as the recovery point is not reached and no partial acknowledgement shows it was spurious; one
      that was not, exactly when the third duplicate has come and the recovery point is passed. */
  lemma RecoveryExactly(t: Tx, a: AckInput)
    requires Inv(t) && Steered(t) && t.sndUna <= Unwrap(a.ack, t.sndUna) <= t.sndNxt
    ensures
      var (at, t') := (Unwrap(a.ack, t.sndUna), RcvAck(t, a).tx);
      t'.stage != NoRetrans <==>
        match t.stage
        case NoRetrans => at == t.sndUna < t.sndNxt && a.dup && t.dupack >= 2 && t.recover < at
        case FastRetrans => at < t.recover && !(Covered(t, at) > 0 && a.spurious)
        case RtoRetrans => at < t.recover
    ensures Unwrap(a.ack, t.sndUna) > t.sndUna ==> RcvAck(t, a).tx.dupack == 0
  {
    hide RcvAck;
    hide Inv;
    hide Unwrap;
    AckSteers(t, a);
  }

  // ---- every run

  lemma AckKeepsSteered(t: Tx, a: AckInput)
    requires Inv(t) && Steered(t)
    ensures var r := RcvAck(t, a);
            Steered(r.tx) && (SynTimedOut(r.tx) ==> SynTimedOut(t) && !r.outcome.AckTaken?)
  {
    var at := Unwrap(a.ack, t.sndUna);
    if t.sndUna <= at <= t.sndNxt {
      AckRange(t, at);
      hide Core;
      hide Names;
      AckSteers(t, a);
      hide RcvAck;
      hide Unwrap;
      if Begins(t, a, at) {
        BeginsOnDuplicate(t, a, at);
      }
    }
  }

  /** The event is an acknowledgement that is accepted. */
  ghost predicate Taken(t: Tx, e: Event)
    requires Inv(t)
  {
    e.Ack? && RcvAck(t, e.a).outcome.AckTaken?
  }

  /** Every step keeps it. */
  lemma StepSteered(t: Tx, e: Event)
    requires Inv(t) && t.chunk > 0 && (e.Write? ==> e.room > 0) && Steered(t)
    ensures Steered(Step(t, e).tx) && (SynTimedOut(Step(t, e).tx) ==> SynTimedOut(t) && !Taken(t, e))
  {
    match e
    case Write(vs, room, mbufs) =>
      hide Core;
      hide Names;
      hide ChopAll;
    case Xmit(wnd, dev, lim) =>
      hide Core;
      hide Names;
      hide XmitData;
      XmitKeeps(t, wnd, dev, lim);
    case Ack(a) =>
      hide Core;
      hide Names;
      hide RcvAck;
      AckKeepsSteered(t, a);
    case Rto(wnd, dev, lim) =>
      assert t.sndUna <= t.sndNxt;
      hide Core;
      hide Names;
      hide Timeout;
      TimeoutSteers(t, wnd, dev, lim);
    case Fin =>
      AckRange(t, t.sndNxt);
      FinSteers(t);
  }

  lemma TimeoutSteers(t: Tx, wnd: nat, dev: Device, lim: Limits)
    requires Inv(t)
    ensures
      var t' := Timeout(t, wnd, dev, lim).0;
      t'.sndUna == t.sndUna && t'.sndNxt == t'.recover == t.sndNxt
  {
    ClearKeeps(t);
    var t1 := ClearSacked(t);
    hide ClearSacked;
    hide Core;
    hide Names;
    EnterUsable(t1, t1.(stage := RtoRetrans, recover := t.sndNxt, rexSeq := t.sndUna, rexIdx := t.una));
    hide Retrans;
  }

  lemma FinSteers(t: Tx)
    requires Core(t)
    ensures var t' := SendFin(t); t'.sndUna == t.sndUna && t.sndNxt <= t'.sndNxt
  {
    hide SackedBytes;
    hide Tiled;
  }

  /** No acknowledgement is accepted in the run. */
  ghost predicate NoneTaken(t: Tx, es: seq<Event>)
    requires Inv(t) && t.chunk > 0 && forall e | e in es :: e.Write? ==> e.room > 0
    decreases |es|
  {
    es == [] || (!Taken(t, es[0]) && (StepKeeps(t, es[0]); NoneTaken(Step(t, es[0]).tx, es[1..])))
  }

  lemma {:induction false} RunSteered(t: Tx, es: seq<Event>)
    requires Inv(t) && t.chunk > 0 && (forall e | e in es :: e.Write? ==> e.room > 0) && Steered(t)
    ensures Steered(Run(t, es).tx) && Inv(Run(t, es).tx)
    ensures SynTimedOut(Run(t, es).tx) ==> SynTimedOut(t) && NoneTaken(t, es)
    decreases |es|
  {
    hide Inv;
    hide Step;
    hide Steered;
    hide Taken;
    if es != [] {
      StepKeeps(t, es[0]);
      StepSteered(t, es[0]);
      RunSteered(Step(t, es[0]).tx, es[1..]);
    }
  }

  /** The first acknowledgement that is accepted ends the recovery of a retransmitted SYN. */
  lemma SynRecoveryEnds(t: Tx, a: AckInput)
    requires Inv(t) && SynTimedOut(t) && t.sndUna <= Unwrap(a.ack, t.sndUna) <= t.sndNxt
    ensures var t' := RcvAck(t, a).tx; t'.stage == NoRetrans && Steered(t') && !SynTimedOut(t')
  {
    AckKeepsSteered(t, a);
    RecoveryExactly(t, a);
    hide RcvAck;
    hide Core;
  }

  /** From ESTABLISHED on, whatever happens: during recovery, and as long as three duplicates stay
      counted, the recovery point lies in the outstanding data.  The one exception is the recovery of
      a retransmitted SYN, which the first accepted acknowledgement ends for good. */
  lemma RecoveryPointOutstanding(t: Tx, es: seq<Event>)
    requires Established(t) && Inv(t) && forall e | e in es :: e.Write? ==> e.room > 0
    ensures
      var t' := Run(t, es).tx;
      Inv(t') && Steered(t') && (SynTimedOut(t') ==> SynTimedOut(t) && NoneTaken(t, es))
  {
    hide Core;
    hide Run;
    RunSteered(t, es);
  }
}
