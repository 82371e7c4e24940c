/** The receive fast path over a Receiver and a Sender (tcp_rcv_fastpath and tcp_rcv_ack_fastpath of
    src/tcp/tcp_input.c). */
module FastPathCode {
  import opened SeqNum
  import opened Seqs
  import opened Chains
  import opened Packets
  import opened OooQueue
  import opened RingIndex
  import R = ReceiveSpec
  import opened Receivers
  import opened TxQueue
  import opened TxDescs
  import opened SendSpec
  import opened SendSteps
  import opened SendAcks
  import opened Senders
  import opened Transmit
  import opened AckPath
  import opened FastPath

  /** tcp_rcv_ack_fastpath; also the writes that complete. */
  method RcvAckFast(s: Sender, ack: u32) returns (ids: seq<nat>)
    requires s.Valid() && !s.abs.finSent && s.abs.stage == NoRetrans
    requires s.abs.sndUna <= Unwrap(ack, s.abs.sndUna) <= s.abs.sndNxt
    modifies s`recover, s`dupack, s`stage, s`sndUna, s`partial, s`sackedBytes, s`abs, s.pool, s.pool.descs, s.ring
    ensures s.Valid() && s.Owned(0) == old(s.Owned(0))
    ensures var (t', fired) := FastAck(old(s.abs), ack); s.abs == t' && ids == IdsOf(fired)
  {
    hide Core;
    hide Names;
    hide AckData;
    hide Wrap;
    hide Wrap16;
    hide Stored;
    hide RingSize;
    hide Distinct;
    hide HoldAll;
    ghost var t, at := s.abs, Unwrap(ack, s.abs.sndUna);
    AckRange(t, at);
    WrapDiff(at, t.sndUna);
    var acked := Wrap(ack - s.sndUna);
    ids := [];
    if acked > 0 {
      AckDataKeeps(t, acked);
      ids := s.AckSentData(acked);
      WrapAdd(s.abs.sndUna, -1);
      Steer(s, s.stage, Wrap(s.sndUna - 1), 0, s.abs.sndUna - 1);
      SteeringDoesntMatter(AckData(t, acked).0, s.abs);
    }
  }

  /** The state of both halves. */
  ghost function Halves(r: Receiver, s: Sender): Both
    reads r, r.sack, r.rxq, s
  {
    Both(r.Abs(), s.abs)
  }

  /** The test tcp_rcv_fastpath starts with; `plain` says that the segment carries no flag but ACK
      and PSH, and no option but a timestamp that is in order. */
  method FastGuard(r: Receiver, s: Sender, pkt: Packet, a: AckInput, plain: bool) returns (ok: bool)
    requires r.Valid() && s.Valid() && pkt.Valid() && pkt.lent == 0 && pkt.start == Unwrap(pkt.seqno, r.nxt)
    requires plain ==> a.blocks == [] && (a.dup ==> pkt.len == 0)
    ensures ok == (plain && Guard(Halves(r, s), SegOf(pkt), a))
  {
    hide Core;
    hide Names;
    hide Bytes;
    hide R.RxBytes;
    hide Wrap;
    hide Wrap16;
    hide Stored;
    hide RingSize;
    hide Distinct;
    hide HoldAll;
    hide HoldsSeg;
    hide HoldsChain;
    hide R.Inv;
    ghost var at := Unwrap(a.ack, s.abs.sndUna);
    SpanSmall(s.abs);
    DiffExact(at, s.abs.sndUna);
    DiffExact(at, s.abs.sndNxt);
    WrapInjective(pkt.start, r.nxt);
    ok := !(pkt.seqno != r.rcvNxt || SeqLt(a.ack, s.sndUna) || SeqGt(a.ack, s.sndNxt) || !plain ||
            (pkt.len == 0 && a.ack == s.sndUna) || s.stage != NoRetrans || r.rcvWnd == 0);
  }

  /** tcp_rcv_fastpath: `taken` says that the packet is dealt with; otherwise the slow path follows. */
  method RcvFastpath(r: Receiver, s: Sender, pkt: Packet, a: AckInput, plain: bool)
    returns (taken: bool, o: R.Outcome, ids: seq<nat>)
    requires r.Valid() && s.Valid() && r.Foreign(pkt) && pkt.start == Unwrap(pkt.seqno, r.nxt) && !s.abs.finSent
    requires plain ==> a.blocks == [] && (a.dup ==> pkt.len == 0)
    modifies r, r.rxq, r.rxq.objs, r.sack, r.sack.cells, pkt, r.ooo
    modifies s`recover, s`dupack, s`stage, s`sndUna, s`partial, s`sackedBytes, s`abs, s.pool, s.pool.descs, s.ring
    ensures r.Valid() && s.Valid()
    ensures taken == (old(plain && Guard(Halves(r, s), SegOf(pkt), a)) && o == R.Accepted)
    ensures taken ==>
      var c := old(Halves(r, s));
      Ready(c) && (Halves(r, s), o) == (Fast(c, old(SegOf(pkt)), a).0, Fast(c, old(SegOf(pkt)), a).1) &&
      ids == IdsOf(Fast(c, old(SegOf(pkt)), a).2)
    ensures !taken ==> ids == [] && s.abs == old(s.abs)
    ensures !taken && !old(plain && Guard(Halves(r, s), SegOf(pkt), a)) ==> r.Abs() == old(r.Abs())
    ensures !taken && old(plain && Guard(Halves(r, s), SegOf(pkt), a)) ==>
      var c := old(Halves(r, s));
      Ready(c) && (r.Abs(), o) == R.RcvData(c.rx, old(SegOf(pkt)))
  {
    hide Core;
    hide Names;
    hide R.RcvData;
    hide FastAck;
    hide Receiver.Valid;
    hide Sender.Valid;
    taken, o, ids := false, R.Accepted, [];
    var ok := FastGuard(r, s, pkt, a, plain);
    if !ok {
      return;
    }
    HalvesReady(r, s);
    o := r.RcvData(pkt);
    if o != R.Accepted {
      return;
    }
    ids := RcvAckFast(s, a.ack);
    taken := true;
  }

  lemma HalvesReady(r: Receiver, s: Sender)
    requires r.Valid() && s.Valid() && !s.abs.finSent
    ensures Ready(Halves(r, s)) && s.stage == s.abs.stage
  {
    hide R.Inv;
    hide Core;
    hide Names;
    hide HoldsSeg;
    hide HoldsChain;
    hide HoldAll;
    hide Stored;
    hide RingSize;
    hide Distinct;
  }
}
