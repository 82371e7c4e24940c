/** The send half of a connection as a value (src/tcp/tcp_output.c, the acknowledgement part of
    src/tcp/tcp_input.c, src/tcp/tcp_timeout.c).  Sequence numbers and ring indices are unbounded;
    the size of the congestion window, the peer's window and what can be allocated are inputs. */
module SendSpec {
  import opened SeqNum
  import opened Seqs
  import opened Chains
  import opened TxQueue
  import opened XmitSpec

  datatype Stage = NoRetrans | FastRetrans | RtoRetrans

  /** `una` is the ring index of the first descriptor, `nxt` the number of descriptors before the
      one that holds snd_nxt, `partial` is partial_ack, (rexSeq, rexIdx) the cached retransmit
      pointers, `free` the number of free descriptors in the worker's pool. */
  datatype Tx = Tx(size: nat, chunk: nat, free: nat,
                   una: nat, descs: seq<Desc>, nxt: nat,
                   sndUna: int, sndNxt: int, dataNxt: int, partial: nat, sackedBytes: nat,
                   finSent: bool, stage: Stage, recover: int, dupack: nat,
                   rexSeq: int, rexIdx: int)

  function Lo(t: Tx): int { t.sndUna - t.partial }

  /** The end of the data that was ever sent: snd_nxt without the FIN. */
  function Top(t: Tx): int { if t.sndNxt < t.dataNxt then t.sndNxt else t.dataNxt }

  /** One invariant ties the three ring indices to the three sequence numbers. */
  ghost predicate Core(t: Tx) {
    && Tiled(t.descs, Lo(t), t.dataNxt)
    && |t.descs| <= t.size && t.size * t.chunk < HALF - 2
    && (forall i | 0 <= i < |t.descs| :: t.descs[i].Len() <= t.chunk)
    && (if t.descs == [] then t.partial == 0 else t.partial < t.descs[0].Len())
    && t.nxt <= |t.descs| && t.sndUna <= t.sndNxt
    && (if t.finSent then t.nxt == |t.descs| && t.sndNxt == t.dataNxt + 1
        else Within(t.descs, t.dataNxt, t.nxt, t.sndNxt))
    && t.sackedBytes == SackedBytes(t.descs)
    && (forall i {:trigger t.descs[i].sacked} | 0 <= i < |t.descs| && t.descs[i].sacked :: t.descs[i].End() < t.sndNxt)
  }

  /** The cached retransmit pointers name the descriptor that holds the sequence number, and
      that number is outstanding. */
  ghost predicate Names(t: Tx) {
    && t.sndUna <= t.rexSeq <= t.sndNxt && t.una <= t.rexIdx
    && Within(t.descs, t.dataNxt, t.rexIdx - t.una, t.rexSeq)
  }

  ghost predicate Inv(t: Tx) {
    Core(t) && (t.stage != NoRetrans ==> Names(t))
  }

  // ---- writing

  /** One buffer the application hands over; `phys` says that it can be sent without a copy. */
  datatype Iov = Iov(data: seq<byte>, phys: bool, id: nat)

  /** The descriptors of one buffer: pieces of at most `max` bytes, the last of which signals
      the completion of the write. */
  function Chop(data: seq<byte>, start: int, max: nat, id: nat): (ds: seq<Desc>)
    requires max > 0
    decreases |data|
  {
    if data == [] then []
    else if |data| <= max then [Desc(start, data, false, Some(id))]
    else [Desc(start, data[..max], false, None)] + Chop(data[max..], start + max, max, id)
  }

  /** `room` is the tail room of an mbuf the data is copied to when it cannot be sent in place. */
  function PieceMax(v: Iov, chunk: nat, room: nat): nat {
    if v.phys || chunk <= room then chunk else room
  }

  function ChopAll(vs: seq<Iov>, start: int, chunk: nat, room: nat): (ds: seq<Desc>)
    requires chunk > 0 && room > 0
  {
    if vs == [] then []
    else Chop(vs[0].data, start, PieceMax(vs[0], chunk, room), vs[0].id) +
         ChopAll(vs[1..], start + |vs[0].data|, chunk, room)
  }

  function TotalLen(vs: seq<Iov>): nat {
    if vs == [] then 0 else |vs[0].data| + TotalLen(vs[1..])
  }

  /** How many mbufs the buffers that must be copied need. */
  function CopiesNeeded(vs: seq<Iov>, start: int, chunk: nat, room: nat): nat
    requires chunk > 0 && room > 0
  {
    if vs == [] then 0
    else (if vs[0].phys then 0 else |Chop(vs[0].data, start, PieceMax(vs[0], chunk, room), vs[0].id)|) +
         CopiesNeeded(vs[1..], start + |vs[0].data|, chunk, room)
  }

  /** tsock_zwritev: all buffers are queued, or nothing changes. */
  function Zwritev(t: Tx, vs: seq<Iov>, room: nat, mbufs: nat): (r: (Tx, bool))
    requires t.chunk > 0 && room > 0
  {
    var ds := ChopAll(vs, t.dataNxt, t.chunk, room);
    if |t.descs| + |ds| > t.size || |ds| > t.free || CopiesNeeded(vs, t.dataNxt, t.chunk, room) > mbufs then
      (t, false)
    else
      (t.(descs := t.descs + ds, dataNxt := t.dataNxt + TotalLen(vs), free := t.free - |ds|), true)
  }

  // ---- transmitting

  lemma NewDataReady(t: Tx, budget: int)
    requires Core(t) && !t.finSent
    ensures Ready(t.descs, Lo(t), t.dataNxt, Ctx(t.sndNxt, t.nxt, budget), t.dataNxt)
  {
    SpanBound(t.descs, Lo(t), t.dataNxt, t.chunk);
    if t.nxt < |t.descs| {
      StartMonotone(t.descs, Lo(t), t.dataNxt, t.nxt, |t.descs|);
    }
    forall i {:trigger t.descs[i].sacked} | 0 <= i < |t.descs| && t.descs[i].sacked
      ensures t.descs[i].End() <= t.dataNxt
    {
      StartMonotone(t.descs, Lo(t), t.dataNxt, i, |t.descs|);
    }
  }

  lemma FinLeavesNothing(t: Tx)
    requires Core(t) && t.nxt != |t.descs|
    ensures !t.finSent
  {
  }

  /** tcp_xmit_data with `wnd` the smaller of the two windows. */
  ghost function XmitData(t: Tx, wnd: nat, dev: Device, lim: Limits): (r: (Tx, seq<Wire>))
    requires Core(t)
  {
    if wnd == 0 || t.nxt == |t.descs| then (t, [])
    else
      var budget := wnd - (t.sndNxt - t.sndUna);
      NewDataReady(t, budget);
      var (c, ws) := XmitMany(t.descs, Lo(t), t.dataNxt, Ctx(t.sndNxt, t.nxt, budget), t.dataNxt, Turns(dev), lim);
      (t.(sndNxt := c.seqno, nxt := c.idx), ws)
  }

  /** The end of tcp_output_one: once everything is sent, the FIN takes one sequence number. */
  function SendFin(t: Tx): Tx {
    if t.nxt == |t.descs| then t.(finSent := true, sndNxt := t.dataNxt + 1) else t
  }

  // ---- retransmitting

  /** The regulation both retransmit functions start with. */
  function Regulate(t: Tx): Tx {
    if t.rexSeq < t.sndUna then t.(rexSeq := t.sndUna, rexIdx := t.una) else t
  }

  lemma RexReady(t: Tx, budget: int)
    requires Core(t) && Names(t)
    ensures Ready(t.descs, Lo(t), t.dataNxt, Ctx(t.rexSeq, t.rexIdx - t.una, budget), t.sndNxt)
  {
  }

  /** do_tcp_retrans. */
  ghost function Rex(t: Tx, budget: int, dev: Device, lim: Limits): (r: (Tx, seq<Wire>))
    requires Core(t) && Names(t)
  {
    RexReady(t, budget);
    var (c, ws) := XmitMany(t.descs, Lo(t), t.dataNxt, Ctx(t.rexSeq, t.rexIdx - t.una, budget), t.sndNxt, Turns(dev), lim);
    (t.(rexSeq := c.seqno, rexIdx := t.una + c.idx), ws)
  }

  // ---- acknowledgements

  /** The first descriptor is acknowledged as a whole. */
  function Pop(t: Tx): Tx
    requires t.descs != [] && t.sackedBytes >= (if t.descs[0].sacked then t.descs[0].Len() else 0)
  {
    var d := t.descs[0];
    t.(una := t.una + 1, descs := t.descs[1..], nxt := if t.nxt > 0 then t.nxt - 1 else 0,
       sndUna := d.End(), partial := 0,
       sackedBytes := t.sackedBytes - (if d.sacked then d.Len() else 0), free := t.free + 1)
  }

  /** The peer holds every byte of the first descriptor: what is left satisfies the invariant,
      and snd_nxt was beyond that descriptor, so `nxt` never has to be pushed. */
  lemma PopKeepsCore(t: Tx)
    requires Core(t) && t.descs != [] && t.descs[0].End() <= t.sndNxt
    ensures t.sackedBytes >= (if t.descs[0].sacked then t.descs[0].Len() else 0)
    ensures t.nxt > 0 && Core(Pop(t))
    ensures t.descs[0].End() <= t.dataNxt
  {
    hide SackedBytes;
    hide Tiled;
    var d, tail := t.descs[0], t.descs[1..];
    SackedUnfold(t.descs);
    TiledTail(t.descs, Lo(t), t.dataNxt);
    StartMonotone(t.descs, Lo(t), t.dataNxt, 0, |t.descs|);
    FirstTwo(t.descs, Lo(t), t.dataNxt);
    var p := Pop(t);
    if !t.finSent {
      WithinTail(t.descs, t.dataNxt, t.nxt, t.sndNxt);
    }
    hide Within;
    forall i {:trigger tail[i].sacked} | 0 <= i < |tail| && tail[i].sacked ensures tail[i].End() < t.sndNxt {
      assert t.descs[i + 1].sacked;
    }
  }

  lemma FirstTwo(ds: seq<Desc>, lo: int, hi: int)
    requires Tiled(ds, lo, hi) && ds != []
    ensures ds[0].start == lo && ds[0].End() == Start(ds, hi, 1) && ds[0].Len() > 0 && (|ds| > 1 ==> ds[1].Len() > 0)
  {
  }

  /** Behind the first descriptor a position keeps its descriptor when the first one leaves. */
  lemma WithinTail(ds: seq<Desc>, hi: int, i: nat, at: int)
    requires ds != [] && Within(ds, hi, i, at) && i > 0
    ensures Within(ds[1..], hi, i - 1, at)
  {
  }

  lemma SackedUnfold(ds: seq<Desc>)
    requires ds != []
    ensures SackedBytes(ds) == (if ds[0].sacked then ds[0].Len() else 0) + SackedBytes(ds[1..])
  {
  }

  /** ack_sent_data: `n` more bytes are acknowledged; also the writes that completed. */
  ghost function AckData(t: Tx, n: nat): (r: (Tx, seq<Completion>))
    requires Core(t) && 0 < n <= t.dataNxt - t.sndUna && n <= t.sndNxt - t.sndUna
    decreases |t.descs|
  {
    AckSomething(t);
    var d := t.descs[0];
    if t.partial + n < d.Len() then (t.(partial := t.partial + n, sndUna := t.sndUna + n), [])
    else
      PopKeepsCore(t);
      var t1, rest := Pop(t), n - (d.Len() - t.partial);
      if rest == 0 then (t1, Signal(d))
      else
        var (t2, more) := AckData(t1, rest);
        (t2, Signal(d) + more)
  }

  lemma AckSomething(t: Tx)
    requires Core(t) && t.sndUna < t.dataNxt
    ensures t.descs != [] && t.descs[0].start == Lo(t) && t.descs[0].End() == t.sndUna - t.partial + t.descs[0].Len()
  {
  }

  /** A cumulative acknowledgement keeps the invariant, moves snd_una by exactly what it covers,
      frees one descriptor per completed one, and completes exactly the writes whose last byte it
      covers, in their order. */
  lemma {:induction false} AckDataKeeps(t: Tx, n: nat)
    requires Core(t) && 0 < n <= t.dataNxt - t.sndUna && n <= t.sndNxt - t.sndUna
    ensures
      var (t', fired) := AckData(t, n);
      && Core(t') && t'.sndUna == t.sndUna + n
      && t'.sndNxt == t.sndNxt && t'.dataNxt == t.dataNxt && t'.finSent == t.finSent
      && t'.una >= t.una && t'.una - t.una <= |t.descs| && t'.descs == t.descs[t'.una - t.una..]
      && t'.nxt == t.nxt - (t'.una - t.una)
      && t'.free + |t'.descs| == t.free + |t.descs|
      && Pending(t.descs) == fired + Pending(t'.descs) && (forall c | c in fired :: c.end <= t'.sndUna)
      && t' == t.(una := t'.una, descs := t'.descs, nxt := t'.nxt, sndUna := t'.sndUna, partial := t'.partial,
                  sackedBytes := t'.sackedBytes, free := t'.free)
    decreases |t.descs|
  {
    hide Pending;
    hide SackedBytes;
    hide Core;
    hide AckData;
    AckUnfold(t, n);
    var d := t.descs[0];
    if t.partial + n < d.Len() {
      AckPartial(t, n);
    } else {
      PendingUnfold(t.descs);
      var t1, rest := Pop(t), n - (d.Len() - t.partial);
      assert t1.descs == t.descs[1..];
      if rest > 0 {
        AckDataKeeps(t1, rest);
        var (t2, more) := AckData(t1, rest);
        assert t.descs[1..][t2.una - t1.una..] == t.descs[t2.una - t.una..];
        assert Signal(d) + (more + Pending(t2.descs)) == Signal(d) + more + Pending(t2.descs);
      }
    }
  }

  lemma AckUnfold(t: Tx, n: nat)
    requires Core(t) && 0 < n <= t.dataNxt - t.sndUna && n <= t.sndNxt - t.sndUna
    ensures t.descs != [] && t.partial < t.descs[0].Len()
    ensures t.partial + n < t.descs[0].Len() ==>
              AckData(t, n) == (t.(partial := t.partial + n, sndUna := t.sndUna + n), [])
    ensures t.partial + n >= t.descs[0].Len() ==>
      var d := t.descs[0];
      var rest := n - (d.Len() - t.partial);
      && t.sackedBytes >= (if d.sacked then d.Len() else 0) && t.nxt > 0
      && Core(Pop(t)) && Pop(t).sndUna == t.sndUna + d.Len() - t.partial
      && (if rest == 0 then AckData(t, n) == (Pop(t), Signal(d))
          else rest <= t.dataNxt - Pop(t).sndUna && rest <= t.sndNxt - Pop(t).sndUna &&
               AckData(t, n) == (AckData(Pop(t), rest).0, Signal(d) + AckData(Pop(t), rest).1))
  {
    hide SackedBytes;
    AckSomething(t);
    if t.partial + n >= t.descs[0].Len() {
      PopKeepsCore(t);
    }
  }

  lemma AckPartial(t: Tx, n: nat)
    requires Core(t) && t.descs != [] && t.partial + n < t.descs[0].Len() && n <= t.sndNxt - t.sndUna
    ensures Core(t.(partial := t.partial + n, sndUna := t.sndUna + n))
  {
  }

  /** A descriptor leaves the queue only when all its bytes are acknowledged. */
  lemma AckedOnly(t: Tx, n: nat, i: nat)
    requires Core(t) && 0 < n <= t.dataNxt - t.sndUna && n <= t.sndNxt - t.sndUna
    requires i < AckData(t, n).0.una - t.una
    ensures i < |t.descs| && t.descs[i].End() <= t.sndUna + n
  {
    hide AckData;
    AckDataKeeps(t, n);
    var t' := AckData(t, n).0;
    var k := t'.una - t.una;
    StartMonotone(t.descs, Lo(t), t.dataNxt, i, k);
    if t'.descs == [] {
      assert Start(t'.descs, t.dataNxt, 0) == t.dataNxt;
    } else {
      assert t'.descs[0] == t.descs[k];
    }
  }
}
