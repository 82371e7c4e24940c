/** Whole runs of the send half: writes, transmissions, acknowledgements, timeouts and the FIN, in
    any order and with any failure underneath. */
module SendRuns {
  import opened SeqNum
  import opened Seqs
  import opened Chains
  import opened TxQueue
  import opened XmitSpec
  import opened SendSpec
  import opened Scoreboard
  import opened SendSteps
  import opened SendAcks

  // ---- what is put on the wire

  lemma RetransSafe(t: Tx, wnd: nat, dev: Device, lim: Limits, stream: int -> byte)
    requires Usable(t) && Matching(t.descs, stream)
    ensures forall w | w in Retrans(t, wnd, dev, lim).1 :: Safe(w, t.descs, t.sndUna, Top(t), stream)
  {
    hide Core;
    hide Names;
    hide Rex;
    hide Safe;
    RegulateNames(t);
    var t1 := Regulate(t);
    RexSafe(t1, wnd - (t1.rexSeq - t1.sndUna), dev, lim, stream);
  }

  lemma FastRexSafe(t: Tx, budget: int, mss: nat, dev: Device, lim: Limits, stream: int -> byte)
    requires Usable(t) && Matching(t.descs, stream)
    ensures forall w | w in FastRex(t, budget, mss, dev, lim).1 :: Safe(w, t.descs, t.sndUna, Top(t), stream)
  {
    hide Core;
    hide Names;
    hide Rex;
    hide Safe;
    RegulateNames(t);
    var t1 := Regulate(t);
    var b := budget - (t1.rexSeq - t1.sndUna);
    RexSafe(t1, if b < mss then mss else b, dev, lim, stream);
  }

  lemma LeaveOrGoOnSafe(t: Tx, a: AckInput, n: nat, ws: seq<Wire>, stream: int -> byte)
    requires (t.stage == FastRetrans ==> Usable(t)) && Matching(t.descs, stream)
    requires forall w | w in ws :: Safe(w, t.descs, t.sndUna, Top(t), stream)
    ensures forall w | w in LeaveOrGoOn(t, a, n, ws).1 :: Safe(w, t.descs, t.sndUna, Top(t), stream)
  {
    hide Usable;
    hide FastRex;
    hide Safe;
    if t.stage == FastRetrans {
      FastRexSafe(t, a.fastBudget, a.mss, a.dev, a.lim, stream);
    }
  }

  lemma HandleFastSafe(t: Tx, a: AckInput, n: nat, stream: int -> byte)
    requires Loose(t) && Matching(t.descs, stream)
    ensures forall w | w in HandleFast(t, a, n).1 :: Safe(w, t.descs, t.sndUna, Top(t), stream)
  {
    hide Core;
    hide Names;
    hide FastRex;
    hide Safe;
    hide LeaveOrGoOn;
    if t.dupack < 3 && t.stage != FastRetrans {
    } else if t.stage == NoRetrans && SeqGt(a.ack, Wrap(t.recover)) {
      var t1 := t.(recover := t.sndNxt, stage := FastRetrans, rexSeq := t.sndUna, rexIdx := t.una);
      EnterUsable(t, t1);
      FastRexSafe(t1, a.mss, a.mss, a.dev, a.lim, stream);
      var (t2, ws) := FastRex(t1, a.mss, a.mss, a.dev, a.lim);
      LeaveOrGoOnSafe(t2, a, n, ws, stream);
    } else {
      LeaveOrGoOnSafe(t, a, n, [], stream);
    }
  }

  lemma FinishSafe(t: Tx, a: AckInput, n: nat, stream: int -> byte)
    requires Loose(t) && Matching(t.descs, stream)
    ensures forall w | w in FinishStage(t, a, n).1 :: Safe(w, t.descs, t.sndUna, Top(t), stream)
  {
    hide Core;
    hide Names;
    hide Retrans;
    hide Safe;
    if t.stage == RtoRetrans {
      RetransSafe(t, a.wnd, a.dev, a.lim, stream);
    }
  }

  // ---- loss recovery

  /** A retransmission timeout starts over: the reports are forgotten, the recovery point is snd_nxt,
      and the packets come in order from snd_una on and leave no hole. */
  lemma TimeoutRestarts(t: Tx, wnd: nat, dev: Device, lim: Limits)
    requires Inv(t)
    ensures
      var (t', ws) := Timeout(t, wnd, dev, lim);
      && t'.stage == RtoRetrans && t'.recover == t.sndNxt
      && InOrder(ws, t.sndUna, lim.mss)
      && forall p | t.sndUna <= p < LastEnd(ws, t.sndUna) :: Sent(ws, p)
  {
    hide Core;
    hide Names;
    hide XmitMany;
    hide Ready;
    hide Sent;
    hide InOrder;
    ClearKeeps(t);
    var t1 := ClearSacked(t);
    hide ClearSacked;
    var t2 := t1.(stage := RtoRetrans, recover := t.sndNxt, rexSeq := t.sndUna, rexIdx := t.una);
    EnterUsable(t1, t2);
    RegulateNames(t2);
    RexReady(t2, wnd);
    XmitManyCovers(t2.descs, Lo(t2), t2.dataNxt, Ctx(t2.sndUna, 0, wnd), t2.sndNxt, Turns(dev), lim);
  }

  // ---- the descriptors keep holding the stream

  lemma MatchingSame(ds: seq<Desc>, es: seq<Desc>, stream: int -> byte)
    requires Matching(ds, stream) && SameButMarks(ds, es)
    ensures Matching(es, stream)
  {
    hide Slice;
    forall i | 0 <= i < |es| ensures DescMatches(es[i], stream) {
      assert DescMatches(ds[i], stream);
    }
  }

  lemma MatchingSuffix(ds: seq<Desc>, k: nat, stream: int -> byte)
    requires Matching(ds, stream) && k <= |ds|
    ensures Matching(ds[k..], stream)
  {
    forall i | 0 <= i < |ds[k..]| ensures DescMatches(ds[k..][i], stream) {
      assert DescMatches(ds[k + i], stream);
    }
  }

  lemma MatchingAppend(ds: seq<Desc>, es: seq<Desc>, stream: int -> byte)
    requires Matching(ds, stream) && Matching(es, stream)
    ensures Matching(ds + es, stream)
  {
    forall i | 0 <= i < |ds + es| ensures DescMatches((ds + es)[i], stream) {
      if i < |ds| {
        assert DescMatches(ds[i], stream);
      } else {
        assert DescMatches(es[i - |ds|], stream);
      }
    }
  }

  lemma {:induction false} ChopMatches(data: seq<byte>, start: int, max: nat, id: nat, stream: int -> byte)
    requires max > 0 && data == Slice(stream, start, start + |data|)
    ensures Matching(Chop(data, start, max, id), stream)
    decreases |data|
  {
    if |data| > max {
      SliceSub(stream, data, start, 0, max);
      SliceSub(stream, data, start, max, |data| - max);
      hide Slice;
      assert data[0..max] == data[..max] && data[max..|data|] == data[max..];
      ChopMatches(data[max..], start + max, max, id, stream);
      var d := Desc(start, data[..max], false, None);
      assert DescMatches(d, stream);
      MatchingAppend([d], Chop(data[max..], start + max, max, id), stream);
    }
  }

  /** The bytes of all buffers. */
  function AllBytes(vs: seq<Iov>): seq<byte> {
    if vs == [] then [] else vs[0].data + AllBytes(vs[1..])
  }

  lemma {:induction false} AllBytesLength(vs: seq<Iov>)
    ensures |AllBytes(vs)| == TotalLen(vs)
  {
    if vs != [] {
      AllBytesLength(vs[1..]);
    }
  }

  lemma {:induction false} ChopAllMatches(vs: seq<Iov>, start: int, chunk: nat, room: nat, stream: int -> byte)
    requires chunk > 0 && room > 0 && AllBytes(vs) == Slice(stream, start, start + TotalLen(vs))
    ensures Matching(ChopAll(vs, start, chunk, room), stream)
  {
    if vs != [] {
      var a, all := vs[0].data, AllBytes(vs);
      AllBytesLength(vs);
      SliceSub(stream, all, start, 0, |a|);
      SliceSub(stream, all, start, |a|, |all| - |a|);
      hide Slice;
      assert all[0..|a|] == a && all[|a|..|all|] == AllBytes(vs[1..]);
      ChopMatches(a, start, PieceMax(vs[0], chunk, room), vs[0].id, stream);
      ChopAllMatches(vs[1..], start + |a|, chunk, room, stream);
      hide Chop;
      MatchingAppend(Chop(a, start, PieceMax(vs[0], chunk, room), vs[0].id),
                     ChopAll(vs[1..], start + |a|, chunk, room), stream);
    }
  }

  // ---- steps

  datatype Event =
    | Write(vs: seq<Iov>, room: nat, mbufs: nat)
    | Xmit(wnd: nat, dev: Device, lim: Limits)
    | Ack(a: AckInput)
    | Rto(wnd: nat, dev: Device, lim: Limits)
    | Fin

  /** The new state, the completions a write registered, those signalled, the bytes accepted and
      the packets put on the wire. */
  datatype Out = Out(tx: Tx, owed: seq<Completion>, fired: seq<Completion>, written: seq<byte>, sent: seq<Wire>)

  ghost function Step(t: Tx, e: Event): (o: Out)
    requires Inv(t) && t.chunk > 0 && (e.Write? ==> e.room > 0)
  {
    hide Core;
    hide Names;
    match e
    case Write(vs, room, mbufs) =>
      if t.finSent then Out(t, [], [], [], [])
      else
        var (t', ok) := Zwritev(t, vs, room, mbufs);
        if ok then Out(t', Owed(vs, t.dataNxt), [], AllBytes(vs), []) else Out(t', [], [], [], [])
    case Xmit(wnd, dev, lim) => var (t', ws) := XmitData(t, wnd, dev, lim); Out(t', [], [], [], ws)
    case Ack(a) => var r := RcvAck(t, a); Out(r.tx, [], r.fired, [], r.sent)
    case Rto(wnd, dev, lim) => var (t', ws) := Timeout(t, wnd, dev, lim); Out(t', [], [], [], ws)
    case Fin => Out(SendFin(t), [], [], [], [])
  }

  /** What holds of every step, when the bytes it accepts continue the stream. */
  ghost predicate GoodStep(t: Tx, o: Out, stream: int -> byte) {
    && Inv(o.tx) && Matching(o.tx.descs, stream)
    && o.tx.size == t.size && o.tx.chunk == t.chunk
    && o.tx.free + |o.tx.descs| == t.free + |t.descs|
    && o.tx.dataNxt == t.dataNxt + |o.written|
    && t.sndUna <= o.tx.sndUna && t.sndNxt <= o.tx.sndNxt
    && Pending(t.descs) + o.owed == o.fired + Pending(o.tx.descs)
    && (forall c | c in o.fired :: c.end <= o.tx.sndUna)
    && (forall w | w in o.sent :: Safe(w, o.tx.descs, o.tx.sndUna, Top(o.tx), stream))
  }

  ghost predicate Continues(t: Tx, o: Out, stream: int -> byte) {
    o.written == Slice(stream, t.dataNxt, t.dataNxt + |o.written|)
  }

  lemma WriteIsGood(t: Tx, e: Event, stream: int -> byte)
    requires Inv(t) && t.chunk > 0 && e.Write? && e.room > 0 && Matching(t.descs, stream)
    requires Continues(t, Step(t, e), stream)
    ensures GoodStep(t, Step(t, e), stream)
  {
    hide Core;
    hide Names;
    hide ChopAll;
    hide Pending;
    hide Slice;
    if !t.finSent {
      WriteKeeps(t, e.vs, e.room, e.mbufs);
      AllBytesLength(e.vs);
      var (t', ok) := Zwritev(t, e.vs, e.room, e.mbufs);
      if ok {
        ChopAllMatches(e.vs, t.dataNxt, t.chunk, e.room, stream);
        MatchingAppend(t.descs, ChopAll(e.vs, t.dataNxt, t.chunk, e.room), stream);
      }
    }
  }

  lemma XmitIsGood(t: Tx, e: Event, stream: int -> byte)
    requires Inv(t) && t.chunk > 0 && e.Xmit? && Matching(t.descs, stream)
    ensures GoodStep(t, Step(t, e), stream)
  {
    hide Pending;
    hide Names;
    hide Matching;
    hide XmitData;
    hide AvoidsSacked;
    hide Slice;
    XmitKeeps(t, e.wnd, e.dev, e.lim);
    XmitSafe(t, e.wnd, e.dev, e.lim, stream);
    assert t.sndUna <= t.sndNxt;
    hide Core;
  }

  /** Taking acknowledged data off the queue. */
  lemma TakeAckGood(t: Tx, a: AckInput, at: int, stream: int -> byte)
    requires Inv(t) && t.sndUna <= at <= t.sndNxt && Matching(t.descs, stream)
    ensures
      var (t1, fired) := TakeAck(t, a, at);
      && Matching(t1.descs, stream) && t1.free + |t1.descs| == t.free + |t.descs|
      && t1.size == t.size && t1.chunk == t.chunk && t1.dataNxt == t.dataNxt && t1.sndNxt == t.sndNxt
      && t.sndUna <= t1.sndUna && Pending(t.descs) == fired + Pending(t1.descs)
      && (forall c | c in fired :: c.end <= t1.sndUna)
  {
    hide AckData;
    hide Pending;
    hide Matching;
    hide Core;
    hide Names;
    AckRange(t, at);
    var t0, n := CountDup(t, a, at), Covered(t, at);
    SteeringDoesntMatter(t, t0);
    if n > 0 {
      AckDataKeeps(t0, n);
      MatchingSuffix(t.descs, AckData(t0, n).0.una - t.una, stream);
    }
  }

  lemma TakeSackGood(t: Tx, bs: seq<Report>, stream: int -> byte)
    requires Loose(t) && Matching(t.descs, stream)
    ensures var t1 := TakeSack(t, bs);
            Matching(t1.descs, stream) && |t1.descs| == |t.descs| && Pending(t1.descs) == Pending(t.descs)
  {
    hide Core;
    hide Names;
    hide Pending;
    hide Matching;
    hide RcvSack;
    if bs != [] {
      SackSound(t, bs);
      SamePending(t.descs, RcvSack(t, bs).descs);
      MatchingSame(t.descs, RcvSack(t, bs).descs, stream);
    }
  }

  lemma AckIsGood(t: Tx, e: Event, stream: int -> byte)
    requires Inv(t) && t.chunk > 0 && e.Ack? && Matching(t.descs, stream)
    ensures GoodStep(t, Step(t, e), stream)
  {
    hide Pending;
    hide Matching;
    hide Core;
    hide Names;
    hide Safe;
    hide TakeAck;
    hide TakeSack;
    hide HandleFast;
    hide FinishStage;
    var a := e.a;
    var at := Unwrap(a.ack, t.sndUna);
    if t.sndUna <= at <= t.sndNxt {
      var n := Covered(t, at);
      AckRange(t, at);
      TakeAckGood(t, a, at, stream);
      var (t1, fired) := TakeAck(t, a, at);
      TakeSackGood(t1, a.blocks, stream);
      var t2 := TakeSack(t1, a.blocks);
      FastKeeps(t2, a, n);
      HandleFastSafe(t2, a, n, stream);
      var t3 := HandleFast(t2, a, n).0;
      FinishKeeps(t3, a, n);
      FinishSafe(t3, a, n, stream);
    }
  }

  lemma RtoIsGood(t: Tx, e: Event, stream: int -> byte)
    requires Inv(t) && t.chunk > 0 && e.Rto? && Matching(t.descs, stream)
    ensures GoodStep(t, Step(t, e), stream)
    ensures var t' := Step(t, e).tx; t'.sackedBytes == 0 && forall i | 0 <= i < |t'.descs| :: !t'.descs[i].sacked
  {
    hide Pending;
    hide Matching;
    hide SackedBytes;
    hide Core;
    hide Names;
    hide Retrans;
    hide Safe;
    ClearKeeps(t);
    var t1 := ClearSacked(t);
    SamePending(t.descs, t1.descs);
    MatchingSame(t.descs, t1.descs, stream);
    var t2 := t1.(stage := RtoRetrans, recover := t.sndNxt, rexSeq := t.sndUna, rexIdx := t.una);
    EnterUsable(t1, t2);
    RetransSafe(t2, e.wnd, e.dev, e.lim, stream);
  }

  lemma FinIsGood(t: Tx, e: Event, stream: int -> byte)
    requires Inv(t) && t.chunk > 0 && e.Fin? && Matching(t.descs, stream)
    ensures GoodStep(t, Step(t, e), stream)
  {
    FinKeeps(t);
    hide Pending;
    hide Matching;
    hide Tiled;
    hide SackedBytes;
    if t.nxt == |t.descs| && !t.finSent {
      assert t.sndNxt == t.dataNxt;
    }
  }

  /** Every step keeps the invariant: descriptors are neither lost nor invented, completions are
      signalled in order and only once acknowledged, every packet carries outstanding, unreported
      bytes of the stream. */
  lemma StepIsGood(t: Tx, e: Event, stream: int -> byte)
    requires Inv(t) && t.chunk > 0 && (e.Write? ==> e.room > 0) && Matching(t.descs, stream)
    requires Continues(t, Step(t, e), stream)
    ensures GoodStep(t, Step(t, e), stream)
  {
    hide Inv;
    hide Step;
    hide GoodStep;
    hide Matching;
    match e
    case Write(_, _, _) => WriteIsGood(t, e, stream);
    case Xmit(_, _, _) => XmitIsGood(t, e, stream);
    case Ack(_) => AckIsGood(t, e, stream);
    case Rto(_, _, _) => RtoIsGood(t, e, stream);
    case Fin => FinIsGood(t, e, stream);
  }

  // ---- runs

  /** A run: everything owed, fired, written and sent, in order. */
  ghost function Run(t: Tx, es: seq<Event>): (o: Out)
    requires Inv(t) && t.chunk > 0 && forall e | e in es :: e.Write? ==> e.room > 0
    decreases |es|
  {
    hide Inv;
    hide Step;
    if es == [] then Out(t, [], [], [], [])
    else
      StepKeeps(t, es[0]);
      var o := Step(t, es[0]);
      Join(o, Run(o.tx, es[1..]))
  }

  lemma StepKeeps(t: Tx, e: Event)
    requires Inv(t) && t.chunk > 0 && (e.Write? ==> e.room > 0)
    ensures Inv(Step(t, e).tx) && Step(t, e).tx.chunk == t.chunk
  {
    hide Core;
    hide Names;
    hide Zwritev;
    hide XmitData;
    hide Retrans;
    match e
    case Write(vs, room, mbufs) =>
      if !t.finSent {
        WriteKeeps(t, vs, room, mbufs);
      }
    case Xmit(wnd, dev, lim) => XmitKeeps(t, wnd, dev, lim);
    case Ack(a) =>
    case Rto(wnd, dev, lim) =>
    case Fin => FinKeeps(t);
  }

  /** The packet lies in [lo, hi) and carries the bytes of the stream there. */
  ghost predicate Carries(w: Wire, lo: int, hi: int, stream: int -> byte) {
    w.data != [] && lo <= w.start && w.End() <= hi && w.data == Slice(stream, w.start, w.End())
  }

  ghost predicate GoodRun(t: Tx, o: Out, stream: int -> byte) {
    && Inv(o.tx) && Matching(o.tx.descs, stream)
    && o.tx.size == t.size && o.tx.chunk == t.chunk
    && o.tx.free + |o.tx.descs| == t.free + |t.descs|
    && o.tx.dataNxt == t.dataNxt + |o.written|
    && t.sndUna <= o.tx.sndUna && t.sndNxt <= o.tx.sndNxt
    && Pending(t.descs) + o.owed == o.fired + Pending(o.tx.descs)
    && (forall c | c in o.fired :: c.end <= o.tx.sndUna)
    && (forall w | w in o.sent :: Carries(w, t.sndUna, Top(o.tx), stream))
  }

  lemma StepIsRun(t: Tx, o: Out, stream: int -> byte)
    requires GoodStep(t, o, stream)
    ensures GoodRun(t, o, stream)
  {
    hide Inv;
    hide Matching;
    hide Pending;
    hide Slice;
    hide AvoidsSacked;
  }

  /** Two runs in a row. */
  function Join(a: Out, b: Out): Out {
    Out(b.tx, a.owed + b.owed, a.fired + b.fired, a.written + b.written, a.sent + b.sent)
  }

  lemma JoinGood(t: Tx, a: Out, b: Out, stream: int -> byte)
    requires GoodRun(t, a, stream) && GoodRun(a.tx, b, stream)
    ensures GoodRun(t, Join(a, b), stream)
  {
    hide Inv;
    hide Matching;
    hide Slice;
    var p, q, s := Pending(t.descs), Pending(a.tx.descs), Pending(b.tx.descs);
    hide Pending;
    calc {
      p + (a.owed + b.owed);
    == { Associative(p, a.owed, b.owed); }
      (a.fired + q) + b.owed;
    == { Associative(a.fired, q, b.owed); }
      a.fired + (b.fired + s);
    == { Associative(a.fired, b.fired, s); }
      (a.fired + b.fired) + s;
    }
  }

  lemma ContinuesSplit(t: Tx, a: Out, b: Out, stream: int -> byte)
    requires Continues(t, Join(a, b), stream)
    ensures Continues(t, a, stream)
    ensures a.tx.dataNxt == t.dataNxt + |a.written| ==> Continues(a.tx, b, stream)
  {
    var all := a.written + b.written;
    SliceSub(stream, all, t.dataNxt, 0, |a.written|);
    SliceSub(stream, all, t.dataNxt, |a.written|, |b.written|);
    hide Slice;
    assert all[0..|a.written|] == a.written && all[|a.written|..|a.written| + |b.written|] == b.written;
  }

  /** Over every run: one invariant ties the ring indices to the sequence numbers; descriptors are
      conserved; every non-empty buffer of an accepted write completes at most once, in write order,
      and only when its last byte is acknowledged; every packet carries the written bytes. */
  lemma {:induction false} SendIntegrity(t: Tx, es: seq<Event>, stream: int -> byte)
    requires Inv(t) && t.chunk > 0 && Matching(t.descs, stream)
    requires forall e | e in es :: e.Write? ==> e.room > 0
    requires Continues(t, Run(t, es), stream)
    ensures GoodRun(t, Run(t, es), stream)
    decreases |es|
  {
    hide Inv;
    hide Matching;
    hide Step;
    hide GoodStep;
    if es == [] {
      hide Pending;
      assert Pending(t.descs) + [] == [] + Pending(t.descs);
    } else {
      StepKeeps(t, es[0]);
      var a := Step(t, es[0]);
      var b := Run(a.tx, es[1..]);
      hide Continues;
      ContinuesSplit(t, a, b, stream);
      StepIsGood(t, es[0], stream);
      StepIsRun(t, a, stream);
      SendIntegrity(a.tx, es[1..], stream);
      JoinGood(t, a, b, stream);
    }
  }

  /** A connection as it enters ESTABLISHED; snd_recover is the number of the SYN.  When the SYN timed
      out it starts in recovery, which the handshake does not end; snd_recover is then the number behind
      the SYN until the SYN is sent again. */
  ghost predicate Established(t: Tx) {
    && t.descs == [] && t.nxt == 0 && t.partial == 0 && t.sackedBytes == 0
    && t.sndUna == t.sndNxt == t.dataNxt && !t.finSent
    && t.dupack == 0
    && (|| (t.stage == NoRetrans && t.recover == t.sndUna - 1)
        || (t.stage == RtoRetrans && t.sndUna - 1 <= t.recover <= t.sndUna && t.rexSeq == t.sndUna && t.rexIdx == t.una))
    && t.chunk > 0 && t.size * t.chunk < HALF - 2
  }

  lemma EstablishedInv(t: Tx, stream: int -> byte)
    requires Established(t)
    ensures Inv(t) && Matching(t.descs, stream) && Pending(t.descs) == []
  {
  }

  /** From ESTABLISHED on, whatever happens: completions come in the order of the writes, a write has
      completed exactly when its last byte is acknowledged, and once everything is acknowledged each
      has come exactly once and every descriptor is back. */
  lemma WritesComplete(t: Tx, es: seq<Event>, stream: int -> byte)
    requires Established(t) && Inv(t)
    requires forall e | e in es :: e.Write? ==> e.room > 0
    requires Continues(t, Run(t, es), stream)
    ensures
      var o := Run(t, es);
      && o.fired <= o.owed
      && (forall c | c in o.owed :: c in o.fired <==> c.end <= o.tx.sndUna)
      && (o.tx.sndUna == o.tx.dataNxt ==> o.fired == o.owed && o.tx.free == t.free)
      && (forall w | w in o.sent :: Carries(w, t.sndUna, Top(o.tx), stream))
  {
    EstablishedInv(t, stream);
    SendIntegrity(t, es, stream);
    hide Run;
    hide Core;
    hide Names;
    hide Matching;
    hide Carries;
    var o := Run(t, es);
    assert o.owed == o.fired + Pending(o.tx.descs) by {
      assert [] + o.owed == o.owed;
    }
    StillPending(o.tx);
    if o.tx.sndUna == o.tx.dataNxt {
      AllAcknowledged(o.tx);
      assert o.fired + [] == o.fired;
    }
  }

  /** A write that is still pending has bytes that are not acknowledged. */
  lemma StillPending(t: Tx)
    requires Core(t)
    ensures forall c | c in Pending(t.descs) :: t.sndUna < c.end
  {
    hide SackedBytes;
    hide Pending;
    if t.descs != [] {
      FirstTwo(t.descs, Lo(t), t.dataNxt);
    }
    PendingBeyond(t.descs, Lo(t), t.dataNxt, t.sndUna);
  }

  lemma AllAcknowledged(t: Tx)
    requires Core(t) && t.sndUna == t.dataNxt
    ensures t.descs == []
  {
    hide SackedBytes;
    if t.descs != [] {
      StartMonotone(t.descs, Lo(t), t.dataNxt, 0, |t.descs|);
    }
  }
}
