/** The state machine of a socket over its Sender (tcp_rcv_pkt and tcp_rcv_fin of
    src/tcp/tcp_input.c, tcp_close and tcp_output_one of src/tcp/tcp_output.c, tcp_timeout_rto of
    src/tcp/tcp_timeout.c).  Every operation is proved to do what Closing says it does. */
module Sockets {
  import opened SeqNum
  import opened Seqs
  import opened Chains
  import opened RingIndex
  import opened TxQueue
  import opened TxDescs
  import opened XmitSpec
  import opened SendSpec
  import opened SendSteps
  import opened SendAcks
  import opened Senders
  import opened Transmit
  import opened AckPath
  import opened Closing

  class Socket {
    const snd: Sender
    var state: State
    var closeIssued: bool
    var closeDone: bool
    var finPending: bool

    ghost function Abs(): Conn
      reads this, snd
    {
      Conn(state, snd.abs, closeIssued, closeDone, finPending)
    }

    ghost predicate Valid()
      reads this, snd, snd.ring, snd.ring.slots, snd.ring.items, snd.pool, snd.pool.descs
    {
      snd.Valid() && ConnInv(Abs())
    }

    constructor (snd: Sender)
      requires snd.Valid() && !snd.abs.finSent && snd.abs.chunk > 0
      ensures Valid() && this.snd == snd && Abs() == Conn(Established, snd.abs, false, false, false)
    {
      hide Inv;
      this.snd := snd;
      state, closeIssued, closeDone, finPending := Established, false, false, false;
    }

    /** The part of tcp_rcv_ack that deals with the acknowledgement of our FIN. */
    method OnFinAcked()
      modifies this`state, this`finPending
      ensures Abs() == FinAcked(old(Abs()))
    {
      finPending := false;
      match state
      case FinWait1 => state := FinWait2;
      case ClosingState => state := TimeWait;
      case LastAck => state := Closed;
      case _ =>
    }

    /** tcp_rcv_fin for a segment with FIN. */
    method OnFin()
      modifies this`state
      ensures Abs() == RcvFin(old(Abs()))
    {
      match state
      case Established => state := CloseWait;
      case FinWait1 => state := ClosingState;
      case FinWait2 => state := TimeWait;
      case _ =>
    }

    /** tcp_rcv_pkt, from the segment text on. */
    method OnText(p: Pkt)
      modifies this`state
      ensures Abs() == RcvText(old(Abs()), p)
    {
      if state == Closed {
        return;
      }
      if state == Established || state == FinWait1 || state == FinWait2 {
        if !p.dataOk {
          return;
        }
      } else if p.len != 0 {
        return;
      }
      if p.fin {
        OnFin();
      }
    }

    /** tcp_rcv_pkt in a synchronized state; also the writes that complete and what is retransmitted. */
    method OnPacket(p: Pkt) returns (ids: seq<nat>, ps: seq<OutPacket>)
      requires Valid() && Ranges(p.a)
      modifies this`state, this`finPending, snd, snd.pool, snd.pool.descs, snd.ring, snd.ring.items
      ensures Valid() && Abs() == RcvPkt(old(Abs()), p)
      ensures
        if old(state != Closed) && p.seqOk && !p.rst && !p.syn && p.hasAck then
          var r := RcvAck(old(snd.abs), p.a);
          ids == IdsOf(r.fired) && SamePackets(ps, r.sent)
        else ids == [] && ps == []
    {
      hide Core;
      hide Names;
      hide RcvAck;
      hide FinAcked;
      hide RcvText;
      hide SamePackets;
      hide IdsOf;
      hide Sender.Valid;
      SegmentIsGood(Abs(), Segment(p));
      ids, ps := [], [];
      if state == Closed || !p.seqOk {
        return;
      }
      if p.rst {
        state := Closed;
        return;
      }
      if p.syn || !p.hasAck {
        return;
      }
      var o;
      o, ids, ps := RcvAckPacket(snd, p.a);
      AckFrame(old(snd.abs), p.a);
      if o == InvalidAck {
        return;
      }
      if o == AckTaken(true) {
        OnFinAcked();
      }
      OnText(p);
    }

    /** tsock_zwritev, with the checks of TSOCK_WRITE_CHECK. */
    method OnWrite(vs: seq<Iov>, room: nat, mbufs: nat) returns (ok: bool)
      requires Valid() && room > 0
      modifies snd`dataNxt, snd`abs, snd.ring, snd.ring.slots, snd.pool, snd.pool.descs, snd.pool.free
      ensures Valid() && Abs() == Step(old(Abs()), Write(vs, room, mbufs))
      ensures ok == (Writable(old(Abs())) && SendSpec.Zwritev(old(snd.abs), vs, room, mbufs).1)
    {
      hide Core;
      hide Names;
      hide SendSpec.Zwritev;
      hide Sender.Valid;
      WriteIsGood(Abs(), Write(vs, room, mbufs));
      NumbersOf(snd);
      var writable := !closeIssued && (state == Established || state == CloseWait);
      ok := snd.Zwritev(writable, vs, room, mbufs);
    }

    /** tcp_close. */
    method DoClose(unread: bool)
      modifies this`state, this`closeDone, this`finPending
      ensures Abs() == TcpClose(old(Abs()), unread)
    {
      if closeDone {
        return;
      }
      closeDone := true;
      if unread {
        state := Closed;
        return;
      }
      match state
      case Established => finPending, state := true, FinWait1;
      case CloseWait => finPending, state := true, LastAck;
      case _ =>
    }

    /** tcp_output_one. */
    method Output(unread: bool, wnd: u32, dev: Device, lim: Limits) returns (ps: seq<OutPacket>)
      requires Valid() && wnd < HALF
      modifies this`state, this`closeDone, this`finPending, snd`sndNxt, snd`finSent, snd`abs, snd.ring`nxt, snd.ring`sent
      ensures Valid() && Abs() == OutputOne(old(Abs()), unread, wnd, dev, lim)
      ensures if state == Closed then ps == [] else SamePackets(ps, SendSpec.XmitData(old(snd.abs), wnd, dev, lim).1)
    {
      hide Core;
      hide Names;
      hide SendSpec.XmitData;
      hide SamePackets;
      hide Sender.Valid;
      OutputIsGood(Abs(), Event.Output(unread, wnd, dev, lim));
      ps := [];
      if closeIssued {
        DoClose(unread);
      }
      if state == Closed {
        return;
      }
      ps := Transmit.XmitData(snd, wnd, dev, lim);
      var unsent := Unsent(snd);
      if unsent == 0 && finPending {
        SendFinNow(snd);
      }
    }

    /** tcp_timeout_rto. */
    method OnRto(giveUp: bool, wnd: u32, dev: Device, lim: Limits) returns (ps: seq<OutPacket>)
      requires Valid() && wnd < HALF
      modifies this`state, snd, snd.ring.items
      ensures Valid() && Abs() == Step(old(Abs()), Rto(giveUp, wnd, dev, lim))
      ensures if state == Closed then ps == [] else SamePackets(ps, Timeout(old(snd.abs), wnd, dev, lim).1)
    {
      hide Core;
      hide Names;
      hide Timeout;
      hide SamePackets;
      hide Sender.Valid;
      RtoIsGood(Abs(), Rto(giveUp, wnd, dev, lim));
      ps := [];
      if state == Closed {
        return;
      }
      if giveUp {
        state := Closed;
        return;
      }
      ps := TimeoutRto(snd, wnd, dev, lim);
    }
  }

  lemma NumbersOf(s: Sender)
    requires s.Valid()
    ensures s.finSent == s.abs.finSent && s.chunk == s.abs.chunk
  {
    hide Core;
    hide Names;
    hide Stored;
    hide RingSize;
    hide Distinct;
    hide HoldAll;
  }

  /** tcp_txq_to_send_pkts. */
  method Unsent(s: Sender) returns (n: u16)
    requires s.Valid()
    ensures n == |s.abs.descs| - s.abs.nxt
  {
    hide Core;
    hide Names;
    hide Stored;
    hide RingSize;
    hide Distinct;
    hide HoldAll;
    s.ItemsCount();
    n := s.ring.ToSendPkts();
  }

  /** The end of tcp_output_one: the FIN takes the sequence number behind the data. */
  method SendFinNow(s: Sender)
    requires s.Valid() && s.abs.nxt == |s.abs.descs|
    modifies s`sndNxt, s`finSent, s`abs
    ensures s.Valid() && s.abs == SendFin(old(s.abs))
  {
    hide Core;
    hide Names;
    hide Stored;
    hide RingSize;
    hide Distinct;
    hide HoldAll;
    FinKeeps(s.abs);
    WrapAdd(s.abs.dataNxt, 1);
    hide Wrap;
    hide Wrap16;
    s.sndNxt := Wrap(s.dataNxt + 1);
    s.finSent := true;
    s.abs := SendFin(s.abs);
  }
}
