/** What is sent again, and when (tcp_retrans, tcp_fast_retrans and do_tcp_retrans of src/tcp/tcp_output.c,
    tcp_rcv_ack and handle_fast_retransmit of src/tcp/tcp_input.c, tcp_timeout_rto of
    src/tcp/tcp_timeout.c). */
module Resend {
  import opened SeqNum
  import opened Seqs
  import opened Chains
  import opened TxQueue
  import opened XmitSpec
  import opened SendSpec
  import opened Scoreboard
  import opened SendSteps
  import opened SendAcks
  import opened SR = SendRuns
  import opened SendRecovery
  import opened XmitExact
  import opened XmitStops

  /** The packets hold exactly the bytes of [from, to) the peer has not reported, in order.  They are no more
      than the budget, and stop short of `top` only when it is spent, the device has no more room, or
      memory runs out. */
  ghost predicate Resends(ds: seq<Desc>, from: int, to: int, top: int, budget: int, dev: Device, lim: Limits, ws: seq<Wire>) {
    && Exactly(ds, ws, from, to) && InOrder(ws, from, lim.mss)
    && (lim.mss > 0 && lim.segs > 0 ==>
          Total(ws) <= Max(budget, 0) && Stopped(Turns(dev), |ws|, to, top, budget - Total(ws)))
  }

  /** So the first byte that is not reported goes out, if anything may. */
  lemma FirstIsSent(ds: seq<Desc>, from: int, to: int, top: int, budget: int, dev: Device, lim: Limits, ws: seq<Wire>, p: int)
    requires Resends(ds, from, to, top, budget, dev, lim, ws) && budget > 0 && lim.mss > 0 && lim.segs > 0
    requires BurstSize(dev) > 0 && Memory(EnvAt(dev, 0))
    requires from <= p < top && !Reported(ds, p) && forall q | from <= q < p :: Reported(ds, q)
    ensures Sent(ws, p)
  {
    hide Reported;
    if ws == [] {
      assert Sent(ws, p);
    } else {
      assert ws[0].start <= ws[0].start < ws[0].End();
      assert Sent(ws, ws[0].start);
      assert p <= ws[0].start < to;
    }
  }

  lemma RexResends(t: Tx, budget: int, dev: Device, lim: Limits)
    requires Core(t) && Names(t)
    ensures var (t', ws) := Rex(t, budget, dev, lim); Resends(t.descs, t.rexSeq, t'.rexSeq, Top(t), budget, dev, lim, ws)
  {
    hide Core;
    hide Names;
    hide Ready;
    hide XmitMany;
    hide Exactly;
    hide InOrder;
    hide Turns;
    hide Stopped;
    hide AllFull;
    RexReady(t, budget);
    RexExact(t, budget, dev, lim);
    RexOutstanding(t);
    var c := Ctx(t.rexSeq, t.rexIdx - t.una, budget);
    XmitManyCovers(t.descs, Lo(t), t.dataNxt, c, t.sndNxt, Turns(dev), lim);
    NeverRefused(dev);
    if lim.mss > 0 && lim.segs > 0 {
      TakenStops(t.descs, Lo(t), t.dataNxt, c, t.sndNxt, Turns(dev), lim);
    }
  }

  /** Where retransmission goes on: the cached pointer, or snd_una when that is ahead of it. */
  function Pointer(t: Tx): int { Max(t.rexSeq, t.sndUna) }

  /** tcp_retrans: what the window leaves beyond the pointer. */
  lemma RetransResends(t: Tx, wnd: nat, dev: Device, lim: Limits)
    requires Usable(t)
    ensures
      var (t', ws) := Retrans(t, wnd, dev, lim);
      Resends(t.descs, Pointer(t), t'.rexSeq, Top(t), wnd - (Pointer(t) - t.sndUna), dev, lim, ws)
  {
    hide Core;
    hide Names;
    hide Rex;
    hide Resends;
    RegulateNames(t);
    var t1 := Regulate(t);
    RexResends(t1, wnd - (t1.rexSeq - t1.sndUna), dev, lim);
    NamesBound(t);
  }

  lemma NamesBound(t: Tx)
    requires Usable(t)
    ensures Regulate(t).rexSeq == Pointer(t)
  {
    hide Core;
  }

  /** tcp_fast_retrans: the same, but never less than one MSS. */
  lemma FastRexResends(t: Tx, budget: int, mss: nat, dev: Device, lim: Limits)
    requires Usable(t)
    ensures
      var (t', ws) := FastRex(t, budget, mss, dev, lim);
      Resends(t.descs, Pointer(t), t'.rexSeq, Top(t), Max(mss, budget - (Pointer(t) - t.sndUna)), dev, lim, ws)
  {
    hide Core;
    hide Names;
    hide Rex;
    hide Resends;
    RegulateNames(t);
    var t1 := Regulate(t);
    var b := budget - (t1.rexSeq - t1.sndUna);
    RexResends(t1, if b < mss then mss else b, dev, lim);
    NamesBound(t);
  }

  // ---- a timeout

  /** A timeout sends again from snd_una on, as much as the window allows, and forgets every report. */
  lemma TimeoutResends(t: Tx, wnd: nat, dev: Device, lim: Limits)
    requires Inv(t)
    ensures
      var (t', ws) := Timeout(t, wnd, dev, lim);
      && Resends(t'.descs, t.sndUna, t'.rexSeq, Top(t), wnd, dev, lim, ws)
      && forall p :: !Reported(t'.descs, p)
  {
    hide Core;
    hide Names;
    hide Retrans;
    hide Resends;
    ClearKeeps(t);
    var t1 := ClearSacked(t);
    hide ClearSacked;
    var t2 := t1.(stage := RtoRetrans, recover := t.sndNxt, rexSeq := t.sndUna, rexIdx := t.una);
    EnterUsable(t1, t2);
    RetransResends(t2, wnd, dev, lim);
  }

  /** With room for one packet, the first unacknowledged byte is sent again. */
  lemma TimeoutSendsFirst(t: Tx, wnd: nat, dev: Device, lim: Limits)
    requires Inv(t) && t.sndUna < Top(t) && wnd > 0 && lim.mss > 0 && lim.segs > 0
    requires BurstSize(dev) > 0 && Memory(EnvAt(dev, 0))
    ensures Sent(Timeout(t, wnd, dev, lim).1, t.sndUna)
  {
    hide Inv;
    hide Timeout;
    hide Resends;
    hide Reported;
    hide Sent;
    TimeoutResends(t, wnd, dev, lim);
    var (t', ws) := Timeout(t, wnd, dev, lim);
    FirstIsSent(t'.descs, t.sndUna, t'.rexSeq, Top(t), wnd, dev, lim, ws, t.sndUna);
  }

  // ---- an acknowledgement

  /** Whether an acknowledgement of `at` makes fast retransmission go on: it is partial and not spurious. */
  predicate GoesOn(t: Tx, a: AckInput, at: int) {
    t.stage == FastRetrans && Covered(t, at) > 0 && at < t.recover && !a.spurious
  }

  /** Whether it makes the retransmission after a timeout go on. */
  predicate RtoGoesOn(t: Tx, at: int) {
    t.stage == RtoRetrans && at < t.recover
  }

  /** What handle_fast_retransmit sends on entering. */
  lemma EnterResends(t2: Tx, a: AckInput)
    requires Loose(t2) && t2.stage == NoRetrans && t2.dupack >= 3 && SeqGt(a.ack, Wrap(t2.recover))
    ensures
      var (t3, ws) := HandleFast(t2, a, 0);
      Resends(t2.descs, t2.sndUna, t3.rexSeq, Top(t2), a.mss, a.dev, a.lim, ws)
  {
    hide Core;
    hide Names;
    hide FastRex;
    hide Resends;
    hide SeqGt;
    hide Wrap;
    var t1 := t2.(recover := t2.sndNxt, stage := FastRetrans, rexSeq := t2.sndUna, rexIdx := t2.una);
    EnterUsable(t2, t1);
    FastRexResends(t1, a.mss, a.mss, a.dev, a.lim);
  }

  /** What it sends on a partial acknowledgement. */
  lemma PartialResends(t2: Tx, a: AckInput, n: nat)
    requires Loose(t2) && t2.stage == FastRetrans && n > 0 && SeqLt(a.ack, Wrap(t2.recover)) && !a.spurious
    ensures
      var (t3, ws) := HandleFast(t2, a, n);
      Resends(t2.descs, Pointer(t2), t3.rexSeq, Top(t2), Max(a.mss, a.fastBudget - (Pointer(t2) - t2.sndUna)), a.dev, a.lim, ws)
  {
    hide Core;
    hide Names;
    hide FastRex;
    hide Resends;
    hide SeqLt;
    hide Wrap;
    FastRexResends(t2, a.fastBudget, a.mss, a.dev, a.lim);
    assert forall ws: seq<Wire> :: [] + ws == ws;
  }

  /** Otherwise it sends nothing. */
  lemma NothingResends(t2: Tx, a: AckInput, n: nat)
    requires Loose(t2) && (t2.stage == NoRetrans ==> t2.dupack < 3 || !SeqGt(a.ack, Wrap(t2.recover)))
    requires t2.stage == FastRetrans ==> n == 0 || !SeqLt(a.ack, Wrap(t2.recover)) || a.spurious
    ensures var (t3, ws) := HandleFast(t2, a, n); ws == [] && t3.rexSeq == t2.rexSeq
  {
    hide Core;
    hide Names;
    hide FastRex;
    hide SeqLt;
    hide SeqGt;
    hide Wrap;
  }

  /** What handle_fast_retransmit sends, in unbounded numbers. */
  lemma HandleResends(t: Tx, a: AckInput, at: int, t2: Tx)
    requires Steered(t) && Core(t) && t.sndUna <= at <= t.sndNxt && a.ack == Wrap(at) && Loose(t2)
    requires t2.stage == t.stage && t2.recover == t.recover && t2.sndNxt == t.sndNxt
    requires t2.dupack == Dups(t, a, at) && t2.sndUna == t.sndUna + Covered(t, at) && Covered(t, at) >= 0
    ensures
      var (t3, ws) := HandleFast(t2, a, Covered(t, at));
      if Begins(t, a, at) then Resends(t2.descs, t2.sndUna, t3.rexSeq, Top(t2), a.mss, a.dev, a.lim, ws)
      else if GoesOn(t, a, at) then
        Resends(t2.descs, Pointer(t2), t3.rexSeq, Top(t2), Max(a.mss, a.fastBudget - (Pointer(t2) - t2.sndUna)), a.dev, a.lim, ws)
      else ws == [] && t3.rexSeq == t2.rexSeq
  {
    AckRange(t, t.sndNxt);
    hide Core;
    hide Loose;
    hide HandleFast;
    hide Wrap;
    hide Diff;
    hide Resends;
    DiffExact(at, t.recover);
    if Begins(t, a, at) {
      BeginsOnDuplicate(t, a, at);
      EnterResends(t2, a);
    } else if GoesOn(t, a, at) {
      PartialResends(t2, a, Covered(t, at));
    } else {
      NothingResends(t2, a, Covered(t, at));
    }
  }

  /** What the end of tcp_rcv_ack sends. */
  lemma FinishResends(t3: Tx, a: AckInput, at: int, n: nat)
    requires Loose(t3) && a.ack == Wrap(at) && (t3.stage != NoRetrans ==> -HALF <= at - t3.recover < HALF)
    ensures
      var (t4, ws) := FinishStage(t3, a, n);
      if RtoGoesOn(t3, at) then
        Resends(t3.descs, Pointer(t3), t4.rexSeq, Top(t3), a.wnd - (Pointer(t3) - t3.sndUna), a.dev, a.lim, ws)
      else ws == [] && t4.rexSeq == t3.rexSeq
  {
    hide Core;
    hide Names;
    hide Retrans;
    hide Wrap;
    hide Diff;
    hide Resends;
    DiffExact(at, t3.recover);
    if RtoGoesOn(t3, at) {
      RetransResends(t3, a.wnd, a.dev, a.lim);
    }
  }

  /** What an accepted acknowledgement makes the sender send: from snd_una on when fast retransmission begins,
      from the retransmit pointer on while a recovery goes on, and nothing otherwise. */
  lemma AckResends(t: Tx, a: AckInput)
    requires Inv(t) && Steered(t) && t.sndUna <= Unwrap(a.ack, t.sndUna) <= t.sndNxt
    ensures
      var (at, r) := (Unwrap(a.ack, t.sndUna), RcvAck(t, a));
      var una, from, ds, top := r.tx.sndUna, Max(t.rexSeq, r.tx.sndUna), r.tx.descs, Top(t);
      if Begins(t, a, at) then Resends(ds, una, r.tx.rexSeq, top, a.mss, a.dev, a.lim, r.sent)
      else if GoesOn(t, a, at) then
        Resends(ds, from, r.tx.rexSeq, top, Max(a.mss, a.fastBudget - (from - una)), a.dev, a.lim, r.sent)
      else if RtoGoesOn(t, at) then Resends(ds, from, r.tx.rexSeq, top, a.wnd - (from - una), a.dev, a.lim, r.sent)
      else r.sent == []
  {
    hide TakeAck;
    hide TakeSack;
    hide HandleFast;
    hide FinishStage;
    hide Core;
    hide Names;
    hide Wrap;
    hide Unwrap;
    hide Resends;
    var at := Unwrap(a.ack, t.sndUna);
    UnwrapIs(a.ack, t.sndUna);
    var n := Covered(t, at);
    AckRange(t, at);
    TakeAckSteers(t, a, at);
    TakeAckPlaces(t, a, at);
    var t1 := TakeAck(t, a, at).0;
    var t2 := TakeSack(t1, a.blocks);
    FastKeeps(t2, a, n);
    FastSteers(t, a, at, t2);
    HandleResends(t, a, at, t2);
    var (t3, ws) := HandleFast(t2, a, n);
    if Begins(t, a, at) {
      BeginsOnDuplicate(t, a, at);
    }
    FinishKeeps(t3, a, n);
    FinishSteers(t3, a, at, n);
    FinishResends(t3, a, at, n);
    assert ws + [] == ws && forall more: seq<Wire> :: [] + more == more;
  }

  lemma TakeAckPlaces(t: Tx, a: AckInput, at: int)
    requires Inv(t) && t.sndUna <= at <= t.sndNxt
    ensures var t1 := TakeAck(t, a, at).0; t1.rexSeq == t.rexSeq && t1.dataNxt == t.dataNxt
  {
    hide AckData;
    AckRange(t, at);
    var t0 := CountDup(t, a, at);
    SteeringDoesntMatter(t, t0);
    hide Core;
    if Covered(t, at) > 0 {
      AckDataKeeps(t0, Covered(t, at));
    }
  }

  // ---- three duplicates

  /** A duplicate acknowledgement: of snd_una, without data, reports or a change of the window. */
  predicate Duplicate(a: AckInput, una: int) {
    a.ack == Wrap(una) && a.dup && a.blocks == []
  }

  lemma UnwrapHere(x: int)
    ensures Unwrap(Wrap(x), x) == x
  {
  }

  lemma DuplicateCounts(t: Tx, a: AckInput)
    requires Inv(t) && Duplicate(a, t.sndUna) && t.sndUna < t.sndNxt && t.stage == NoRetrans && t.dupack < 2
    ensures RcvAck(t, a) == Result(t.(dupack := t.dupack + 1), AckTaken(false), [], [])
  {
    UnwrapHere(t.sndUna);
    hide Core;
    hide Wrap;
    hide Unwrap;
  }

  lemma DuplicateEnters(t: Tx, a: AckInput)
    requires Inv(t) && Steered(t) && Duplicate(a, t.sndUna) && t.recover < t.sndUna < t.sndNxt
    requires t.stage == NoRetrans && t.dupack == 2
    ensures
      var t' := RcvAck(t, a).tx;
      && t'.stage == FastRetrans && t'.recover == t.sndNxt == t'.sndNxt && t'.sndUna == t.sndUna
      && t'.dupack == 3 && Steered(t')
  {
    UnwrapHere(t.sndUna);
    AckSteers(t, a);
    AckKeepsSteered(t, a);
    hide RcvAck;
    hide Core;
    hide Wrap;
    hide Unwrap;
  }

  lemma DuplicateStays(t: Tx, a: AckInput)
    requires Inv(t) && Steered(t) && Duplicate(a, t.sndUna) && t.sndUna < t.sndNxt == t.recover && t.stage == FastRetrans
    ensures
      var r := RcvAck(t, a);
      && r.tx.stage == FastRetrans && r.tx.recover == t.sndNxt == r.tx.sndNxt && r.tx.sndUna == t.sndUna
      && Steered(r.tx) && r.sent == []
  {
    UnwrapHere(t.sndUna);
    AckSteers(t, a);
    AckKeepsSteered(t, a);
    AckResends(t, a);
    hide RcvAck;
    hide Core;
    hide Wrap;
    hide Unwrap;
    hide Resends;
  }

  function Acks(xs: seq<AckInput>): seq<Event> {
    seq(|xs|, i requires 0 <= i < |xs| => Ack(xs[i]))
  }

  lemma AcksCons(t: Tx, xs: seq<AckInput>)
    requires Inv(t) && t.chunk > 0 && xs != []
    ensures
      var r := RcvAck(t, xs[0]);
      && Inv(r.tx) && r.tx.chunk > 0
      && SR.Run(t, Acks(xs)).tx == SR.Run(r.tx, Acks(xs[1..])).tx
      && SR.Run(t, Acks(xs)).sent == r.sent + SR.Run(r.tx, Acks(xs[1..])).sent
  {
    hide Inv;
    hide RcvAck;
    assert Acks(xs)[0] == Ack(xs[0]) && Acks(xs)[1..] == Acks(xs[1..]);
    StepKeeps(t, Ack(xs[0]));
  }

  lemma {:induction false} StaysFast(t: Tx, xs: seq<AckInput>)
    requires Inv(t) && t.chunk > 0 && Steered(t) && t.sndUna < t.sndNxt == t.recover && t.stage == FastRetrans
    requires forall a | a in xs :: Duplicate(a, t.sndUna)
    ensures SR.Run(t, Acks(xs)).tx.stage == FastRetrans && SR.Run(t, Acks(xs)).sent == []
    decreases |xs|
  {
    hide Inv;
    hide Duplicate;
    hide RcvAck;
    if xs != [] {
      AcksCons(t, xs);
      DuplicateStays(t, xs[0]);
      StaysFast(RcvAck(t, xs[0]).tx, xs[1..]);
    }
  }

  /** Two duplicates are counted and nothing else; the third begins fast retransmission, once. */
  lemma {:induction false} ThreeDuplicates(t: Tx, xs: seq<AckInput>)
    requires Inv(t) && t.chunk > 0 && Steered(t) && t.recover < t.sndUna < t.sndNxt && t.stage == NoRetrans
    requires t.dupack <= 2 && forall a | a in xs :: Duplicate(a, t.sndUna)
    ensures
      var o := SR.Run(t, Acks(xs));
      if t.dupack + |xs| < 3 then o.tx == t.(dupack := t.dupack + |xs|) && o.sent == []
      else o.tx.stage == FastRetrans && o.sent == RcvAck(t.(dupack := 2), xs[2 - t.dupack]).sent
    decreases |xs|
  {
    hide Core;
    hide Names;
    hide Duplicate;
    hide RcvAck;
    if xs != [] {
      AcksCons(t, xs);
      if t.dupack < 2 {
        DuplicateCounts(t, xs[0]);
        ThreeDuplicates(t.(dupack := t.dupack + 1), xs[1..]);
      } else {
        DuplicateEnters(t, xs[0]);
        StaysFast(RcvAck(t, xs[0]).tx, xs[1..]);
        assert RcvAck(t, xs[0]).sent + [] == RcvAck(t, xs[0]).sent;
      }
    }
  }

  /** Entering fast retransmission sends the first byte that is not reported. */
  lemma FastSendsFirst(t: Tx, a: AckInput, p: int)
    requires Inv(t) && Steered(t) && Duplicate(a, t.sndUna) && t.recover < t.sndUna < t.sndNxt
    requires t.stage == NoRetrans && t.dupack == 2
    requires a.mss > 0 && a.lim.mss > 0 && a.lim.segs > 0 && BurstSize(a.dev) > 0 && Memory(EnvAt(a.dev, 0))
    requires t.sndUna <= p < Top(t) && !Reported(RcvAck(t, a).tx.descs, p)
    requires forall q | t.sndUna <= q < p :: Reported(RcvAck(t, a).tx.descs, q)
    ensures Sent(RcvAck(t, a).sent, p)
  {
    UnwrapHere(t.sndUna);
    AckResends(t, a);
    DuplicateEnters(t, a);
    hide Core;
    hide Wrap;
    hide Unwrap;
    hide RcvAck;
    hide Resends;
    hide Reported;
    hide Sent;
    var r := RcvAck(t, a);
    FirstIsSent(r.tx.descs, t.sndUna, r.tx.rexSeq, Top(t), a.mss, a.dev, a.lim, r.sent, p);
  }

  // ---- which descriptors an acknowledgement marks

  /** The descriptors an acknowledgement leaves are the last ones, with the marks its blocks add to them. */
  lemma AckMarks(t: Tx, a: AckInput, i: nat)
    requires Inv(t) && t.sndUna <= Unwrap(a.ack, t.sndUna) <= t.sndNxt && i < |RcvAck(t, a).tx.descs|
    ensures
      var t' := RcvAck(t, a).tx;
      var m := t'.una - t.una;
      && 0 <= m && m + |t'.descs| == |t.descs| && t'.descs[i] == t.descs[m + i].(sacked := t'.descs[i].sacked)
      && (t'.descs[i].sacked <==>
            t.descs[m + i].sacked || (NoIntersection(Sort(a.blocks)) && Seen(t', Sort(a.blocks), 0, i)))
  {
    hide Core;
    hide Names;
    hide AckData;
    hide RcvSack;
    hide HandleFast;
    hide FinishStage;
    hide Seen;
    hide Sort;
    hide Unwrap;
    var at := Unwrap(a.ack, t.sndUna);
    var n := Covered(t, at);
    AckRange(t, at);
    var t0 := CountDup(t, a, at);
    SteeringDoesntMatter(t, t0);
    var t1 := TakeAck(t, a, at).0;
    if n > 0 {
      AckDataKeeps(t0, n);
    }
    var t2 := TakeSack(t1, a.blocks);
    FastKeeps(t2, a, n);
    FinishKeeps(HandleFast(t2, a, n).0, a, n);
    SackLoose(t1, a.blocks);
    SackLength(t1, a.blocks);
    assert t1.descs == t.descs[t1.una - t.una..];
    SackMarks(t1, a.blocks, i);
    SeenSame(t2, RcvAck(t, a).tx, Sort(a.blocks), i);
  }

  lemma SackLength(t: Tx, bs: seq<Report>)
    requires Loose(t)
    ensures |TakeSack(t, bs).descs| == |t.descs|
  {
    hide Core;
    hide RcvSack;
    SackSound(t, bs);
  }

  lemma SackMarks(t: Tx, bs: seq<Report>, i: nat)
    requires Loose(t) && i < |t.descs|
    ensures
      var t' := TakeSack(t, bs);
      && |t'.descs| == |t.descs| && t'.descs[i] == t.descs[i].(sacked := t'.descs[i].sacked)
      && (t'.descs[i].sacked <==> t.descs[i].sacked || (NoIntersection(Sort(bs)) && Seen(t', Sort(bs), 0, i)))
  {
    hide Core;
    hide Names;
    hide Inside;
    if bs != [] {
      SackSound(t, bs);
      SackExact(t, bs, i);
      SeenMarks(t, RcvSack(t, bs), Sort(bs), i);
      hide RcvSack;
    }
  }

  /** Which descriptors are seen does not depend on the marks. */
  lemma SeenMarks(t: Tx, t': Tx, bs: seq<Report>, i: nat)
    requires SameButMarks(t.descs, t'.descs) && t'.sndNxt == t.sndNxt && i < |t.descs|
    ensures |t'.descs| == |t.descs| && (Seen(t, bs, 0, i) <==> Seen(t', bs, 0, i))
  {
    InsideAll(t, t', i);
    hide Inside;
    forall j | 0 <= j < |bs| ensures Begin(t.descs, bs, t.sndNxt, 0, j) == Begin(t'.descs, bs, t.sndNxt, 0, j) {
      BeginSame(t.descs, t'.descs, bs, t.sndNxt, 0, j);
    }
    hide Begin;
  }

  lemma InsideAll(t: Tx, t': Tx, i: nat)
    requires SameButMarks(t.descs, t'.descs) && i < |t.descs|
    ensures forall b: Report :: Inside(t.descs[i], b, t.sndNxt) == Inside(t'.descs[i], b, t.sndNxt)
  {
  }

  lemma SeenSame(t: Tx, t': Tx, bs: seq<Report>, i: nat)
    requires t'.descs == t.descs && t'.sndNxt == t.sndNxt && i < |t.descs|
    ensures Seen(t, bs, 0, i) <==> Seen(t', bs, 0, i)
  {
  }
}
