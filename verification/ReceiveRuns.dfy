/** What holds over every run of the receive half. */
module ReceiveRuns {
  import opened SeqNum
  import opened Chains
  import opened OooQueue
  import opened SackSpec
  import opened ReceiveSpec

  datatype Event = Segment(seg: Seg) | ReadInto(nrIov: nat) | MemoryPressure

  /** One event: the new state and the bytes handed to the application. */
  ghost function Step(s: Rx, e: Event): (r: (Rx, seq<byte>))
    requires Inv(s)
  {
    match e
    case Segment(g) => (Arrive(s, g).0, [])
    case ReadInto(n) => (Read(s, n).0, Bytes(Read(s, n).1))
    case MemoryPressure => (DropOoo(s), [])
  }

  ghost predicate WellFormed(e: Event) {
    e.Segment? ==> NoEmptyPiece(e.seg.chain)
  }

  /** A segment carries the bytes of the peer's stream at its sequence number. */
  ghost predicate Genuine(e: Event, stream: int -> byte) {
    e.Segment? ==> Matches(e.seg, stream)
  }

  /** One event keeps the invariant, moves the right edge of the window by exactly the bytes
      read, and hands out the next bytes of the stream. */
  ghost predicate GoodStep(s: Rx, e: Event, stream: int -> byte, pos: int)
    requires Inv(s)
  {
    var (s', out) := Step(s, e);
    && Inv(s') && s'.cap == s.cap && s'.limit == s.limit
    && Right(s') == Right(s) + |out|
    && s'.wnd + |RxBytes(s'.rxq)| == s.wnd + |RxBytes(s.rxq)|
    && pos + |out| <= s'.nxt && out == Slice(stream, pos, pos + |out|)
    && Consistent(s', stream, pos + |out|)
  }

  lemma ReadStep(s: Rx, n: nat, stream: int -> byte, pos: int)
    requires Inv(s) && Consistent(s, stream, pos)
    ensures GoodStep(s, ReadInto(n), stream, pos)
  {
    hide Bytes;
    hide RxBytes;
    hide ReadPieces;
    ReadPiecesSplits(s.rxq, n);
    var (out, rest) := ReadPieces(s.rxq, n);
    var k := |Bytes(out)|;
    var all := RxBytes(s.rxq);
    assert all == Slice(stream, pos, s.nxt);
    assert all[..k] == Slice(stream, pos, pos + k);
    assert all[k..] == Slice(stream, pos + k, s.nxt);
  }

  lemma DropStep(s: Rx, stream: int -> byte, pos: int)
    requires Inv(s) && Consistent(s, stream, pos)
    ensures GoodStep(s, MemoryPressure, stream, pos)
  {
    hide Bytes;
    hide RxBytes;
    hide Matches;
    DropInv(s);
  }

  lemma DropInv(s: Rx)
    requires Inv(s)
    ensures Inv(DropOoo(s))
    ensures DropOoo(s).ooo <= s.ooo
  {
    hide Bytes;
    var q := DropOoo(s).ooo;
    assert forall i | 0 <= i < |q| :: q[i] == s.ooo[i];
    assert Sorted(q) && Within(q, s.nxt, Right(s)) && GoodSegs(q);
  }

  lemma StepIsGood(s: Rx, e: Event, stream: int -> byte, pos: int)
    requires Inv(s) && Consistent(s, stream, pos) && WellFormed(e) && Genuine(e, stream)
    ensures GoodStep(s, e, stream, pos)
  {
    hide Bytes;
    hide RxBytes;
    hide Arrive;
    match e
    case Segment(g) =>
      ArriveExact(s, g);
      ArriveConsistent(s, g, stream, pos);
    case ReadInto(n) => ReadStep(s, n, stream, pos);
    case MemoryPressure => DropStep(s, stream, pos);
  }

  // ---- a read takes all it can

  /** The pieces of the unread packets, in order. */
  function Pieces(rxq: seq<Chain>): Chain {
    if rxq == [] then [] else rxq[0] + Pieces(rxq[1..])
  }

  /** A read hands out one piece per iovec, from the front, as many as there are of both, and leaves the rest. */
  lemma {:induction false} ReadTakesAll(rxq: seq<Chain>, n: nat)
    ensures
      var ((out, rest), all) := (ReadPieces(rxq, n), Pieces(rxq));
      var k := Min(n, |all|);
      out == all[..k] && Pieces(rest) == all[k..]
    decreases |rxq|
  {
    if rxq != [] && n > 0 {
      var c, more := rxq[0], Pieces(rxq[1..]);
      if |c| <= n {
        ReadTakesAll(rxq[1..], n - |c|);
        var k := Min(n - |c|, |more|);
        assert (c + more)[..|c| + k] == c + more[..k] && (c + more)[|c| + k..] == more[k..];
      } else {
        assert (c + more)[..n] == c[..n] && (c + more)[n..] == c[n..] + more;
        assert ([c[n..]] + rxq[1..])[1..] == rxq[1..];
      }
    }
  }

  /** Memory pressure drops a quarter of the queue, rounded down but at least one packet, the last ones. */
  lemma DropsQuarter(s: Rx)
    requires s.ooo != []
    ensures
      var n := |s.ooo| - |DropOoo(s).ooo|;
      DropOoo(s).ooo <= s.ooo && n >= 1 && (n == 1 || 4 * n <= |s.ooo|) && |s.ooo| < 4 * (n + 1)
  {
  }

  ghost function Run(s: Rx, es: seq<Event>): (r: (Rx, seq<byte>))
    requires Inv(s)
    requires forall i | 0 <= i < |es| :: WellFormed(es[i])
    decreases |es|
  {
    if es == [] then (s, [])
    else
      StepInv(s, es[0]);
      var (s1, out) := Step(s, es[0]);
      var (s2, more) := Run(s1, es[1..]);
      (s2, out + more)
  }

  lemma StepInv(s: Rx, e: Event)
    requires Inv(s) && WellFormed(e)
    ensures Inv(Step(s, e).0)
  {
    hide Bytes;
    hide RxBytes;
    hide Arrive;
    match e
    case Segment(g) => ArriveExact(s, g);
    case ReadInto(n) => ReadPiecesSplits(s.rxq, n);
    case MemoryPressure => DropInv(s);
  }

  /** Stream integrity: over every run of segments in any order, reads of any size and drops
      under memory pressure, and however full the queues get, the bytes handed out and then the
      unread ones are the peer's stream up to rcv_nxt.  The window plus the unread bytes never
      changes, so the right edge advances by exactly what is read. */
  lemma {:induction false} StreamIntegrity(s: Rx, es: seq<Event>, stream: int -> byte, pos: int)
    requires Inv(s) && Consistent(s, stream, pos)
    requires forall i | 0 <= i < |es| :: WellFormed(es[i]) && Genuine(es[i], stream)
    ensures
      var (s', out) := Run(s, es);
      && Inv(s') && pos + |out| <= s'.nxt
      && out + RxBytes(s'.rxq) == Slice(stream, pos, s'.nxt)
      && Consistent(s', stream, pos + |out|)
      && Right(s') == Right(s) + |out|
      && s'.wnd + |RxBytes(s'.rxq)| == s.wnd + |RxBytes(s.rxq)|
    decreases |es|
  {
    hide Bytes;
    hide RxBytes;
    hide Inv;
    hide Step;
    if es != [] {
      StepIsGood(s, es[0], stream, pos);
      var (s1, out) := Step(s, es[0]);
      StreamIntegrity(s1, es[1..], stream, pos + |out|);
      var (s2, more) := Run(s1, es[1..]);
      assert out + more + RxBytes(s2.rxq) == out + (more + RxBytes(s2.rxq));
      assert Slice(stream, pos, pos + |out|) + Slice(stream, pos + |out|, s2.nxt) == Slice(stream, pos, s2.nxt);
    }
  }

  // ---- a fresh connection

  const SEGMENT_SIZE := 1400
  const RXQ_MAX := 0x8000
  const WINDOW_MAX := 0x4000_0000

  /** The state a connection starts in; TSOCK_RCV_WND_DEFAULT gives the window. */
  function Fresh(isn: int, cap: nat, limit: nat, sackOk: bool): (s: Rx) {
    Rx(isn, cap * SEGMENT_SIZE, cap, limit, [], [], sackOk, [])
  }

  /** Over every run, whatever the segments carry: the window plus the unread bytes never changes. */
  lemma {:induction false} WindowConserved(s: Rx, es: seq<Event>)
    requires Inv(s) && forall i | 0 <= i < |es| :: WellFormed(es[i])
    ensures var s' := Run(s, es).0; s'.wnd + |RxBytes(s'.rxq)| == s.wnd + |RxBytes(s.rxq)|
    decreases |es|
  {
    hide Inv;
    hide Step;
    hide RxBytes;
    if es != [] {
      StepInv(s, es[0]);
      StepConserves(s, es[0]);
      WindowConserved(Step(s, es[0]).0, es[1..]);
    }
  }

  lemma StepConserves(s: Rx, e: Event)
    requires Inv(s) && WellFormed(e)
    ensures var s' := Step(s, e).0; s'.wnd + |RxBytes(s'.rxq)| == s.wnd + |RxBytes(s.rxq)|
  {
    hide Bytes;
    hide RxBytes;
    hide Arrive;
    hide ReadPieces;
    match e
    case Segment(g) => ArriveExact(s, g);
    case ReadInto(n) => ReadPiecesSplits(s.rxq, n);
    case MemoryPressure =>
  }

  /** The window never reaches WINDOW_MAX, so the branch of prepend_tcp_hdr that resets it is dead. */
  lemma WindowBelowMax(isn: int, cap: nat, limit: nat, sackOk: bool, es: seq<Event>)
    requires cap <= RXQ_MAX && forall i | 0 <= i < |es| :: WellFormed(es[i])
    ensures Inv(Fresh(isn, cap, limit, sackOk))
    ensures Run(Fresh(isn, cap, limit, sackOk), es).0.wnd <= cap * SEGMENT_SIZE < WINDOW_MAX
  {
    WindowConserved(Fresh(isn, cap, limit, sackOk), es);
  }

  // ---- reassembly does not depend on the order of arrival

  ghost predicate AllWell(gs: seq<Seg>) {
    forall i | 0 <= i < |gs| :: NoEmptyPiece(gs[i].chain)
  }

  /** The state after the segments arrive in turn. */
  ghost function ArriveAll(s: Rx, gs: seq<Seg>): (r: Rx)
    requires Inv(s) && AllWell(gs)
    decreases |gs|
  {
    if gs == [] then s
    else
      ArriveExact(s, gs[0]);
      ArriveAll(Arrive(s, gs[0]).0, gs[1..])
  }

  /** No segment is refused for lack of room, and none is left undelivered for it. */
  ghost predicate Unobstructed(s: Rx, gs: seq<Seg>)
    requires Inv(s) && AllWell(gs)
    decreases |gs|
  {
    gs == [] ||
    (ArriveExact(s, gs[0]);
     var (s', o) := Arrive(s, gs[0]);
     o != OooLimit && o != RxqFull && Tight(s') && Unobstructed(s', gs[1..]))
  }

  /** The byte at sequence number `b` is in one of the segments. */
  ghost predicate Sent(gs: seq<Seg>, b: int) {
    exists i | 0 <= i < |gs| :: gs[i].Has(b)
  }

  lemma SentCons(gs: seq<Seg>, b: int)
    requires gs != []
    ensures Sent(gs, b) <==> gs[0].Has(b) || Sent(gs[1..], b)
  {
    if Sent(gs[1..], b) {
      var i :| 0 <= i < |gs[1..]| && gs[1..][i].Has(b);
      assert gs[i + 1].Has(b);
    }
    if Sent(gs, b) && !gs[0].Has(b) {
      var i :| 0 <= i < |gs| && gs[i].Has(b);
      assert gs[1..][i - 1].Has(b);
    }
  }

  /** Enough room for one entry per segment rules out every refusal. */
  lemma {:induction false} RoomSuffices(s: Rx, gs: seq<Seg>)
    requires Inv(s) && AllWell(gs) && Tight(s)
    requires |s.rxq| + |s.ooo| + |gs| <= s.cap && |s.ooo| + |gs| <= s.limit
    ensures Unobstructed(s, gs)
    decreases |gs|
  {
    hide Inv;
    hide Arrive;
    hide Held;
    if gs != [] {
      ArriveExact(s, gs[0]);
      RoomSuffices(Arrive(s, gs[0]).0, gs[1..]);
    }
  }

  /** After the segments, in whatever order, the bytes held are those held before and every
      byte sent inside the window; rcv_nxt is the least byte that is missing. */
  lemma {:induction false} ReassemblyExact(s: Rx, gs: seq<Seg>)
    requires Inv(s) && AllWell(gs) && Tight(s) && Unobstructed(s, gs)
    ensures
      var s' := ArriveAll(s, gs);
      && Inv(s') && Tight(s') && Right(s') == Right(s)
      && (forall b :: Held(s', b) <==> Held(s, b) || (Sent(gs, b) && b < Right(s)))
      && !Held(s', s'.nxt) && (forall b | b < s'.nxt :: Held(s', b))
    decreases |gs|
  {
    hide Bytes;
    hide RxBytes;
    hide Arrive;
    hide Covers;
    hide Sent;
    CoversFirst(s.ooo, s.nxt, Right(s));
    if gs == [] {
      forall b ensures !Sent(gs, b) {
        SentNone(b);
      }
    } else {
      ArriveExact(s, gs[0]);
      var s1 := Arrive(s, gs[0]).0;
      ReassemblyExact(s1, gs[1..]);
      forall b ensures Sent(gs, b) <==> gs[0].Has(b) || Sent(gs[1..], b) {
        SentCons(gs, b);
      }
    }
  }

  lemma SentNone(b: int)
    ensures !Sent([], b)
  {
  }

  /** Two arrivals of the same bytes - permuted, duplicated, overlapping or merged in any way -
      end with the same rcv_nxt and window, hold the same bytes, and offer the application the
      same data. */
  lemma OrderIndependent(s: Rx, xs: seq<Seg>, ys: seq<Seg>, stream: int -> byte, pos: int)
    requires Inv(s) && Tight(s) && Consistent(s, stream, pos)
    requires AllWell(xs) && (forall i | 0 <= i < |xs| :: Matches(xs[i], stream)) && Unobstructed(s, xs)
    requires AllWell(ys) && (forall i | 0 <= i < |ys| :: Matches(ys[i], stream)) && Unobstructed(s, ys)
    requires forall b | s.nxt <= b < Right(s) :: Sent(xs, b) <==> Sent(ys, b)
    ensures
      var x, y := ArriveAll(s, xs), ArriveAll(s, ys);
      && x.nxt == y.nxt && x.wnd == y.wnd
      && (forall b :: Covers(x.ooo, b) <==> Covers(y.ooo, b))
      && RxBytes(x.rxq) == RxBytes(y.rxq)
  {
    hide Bytes;
    hide RxBytes;
    hide Unobstructed;
    hide ArriveAll;
    hide Sent;
    ReassemblyExact(s, xs);
    ReassemblyExact(s, ys);
    var x, y := ArriveAll(s, xs), ArriveAll(s, ys);
    assert forall b :: Held(x, b) <==> Held(y, b);
    assert !(x.nxt < y.nxt) && !(y.nxt < x.nxt);
    ArriveAllConsistent(s, xs, stream, pos);
    ArriveAllConsistent(s, ys, stream, pos);
    forall b ensures Covers(x.ooo, b) <==> Covers(y.ooo, b) {
      assert Held(x, b) <==> Held(y, b);
      if b < x.nxt {
        NotBelow(x.ooo, x.nxt, Right(x), b);
        NotBelow(y.ooo, y.nxt, Right(y), b);
      }
    }
  }

  lemma NotBelow(q: seq<Seg>, lo: int, hi: int, b: int)
    requires Within(q, lo, hi) && b < lo
    ensures !Covers(q, b)
  {
  }

  lemma {:induction false} ArriveAllConsistent(s: Rx, gs: seq<Seg>, stream: int -> byte, pos: int)
    requires Inv(s) && AllWell(gs) && Consistent(s, stream, pos)
    requires forall i | 0 <= i < |gs| :: Matches(gs[i], stream)
    ensures Consistent(ArriveAll(s, gs), stream, pos)
    decreases |gs|
  {
    hide Consistent;
    hide Matches;
    hide Arrive;
    if gs != [] {
      ArriveExact(s, gs[0]);
      ArriveConsistent(s, gs[0], stream, pos);
      ArriveAllConsistent(Arrive(s, gs[0]).0, gs[1..], stream, pos);
    }
  }

  /** Permuting the segments changes nothing about which bytes were sent. */
  lemma PermutedSent(xs: seq<Seg>, ys: seq<Seg>, b: int)
    requires multiset(xs) == multiset(ys)
    ensures Sent(xs, b) <==> Sent(ys, b)
  {
    forall zs: seq<Seg>, ws: seq<Seg> | multiset(zs) == multiset(ws) && Sent(zs, b) ensures Sent(ws, b) {
      var i :| 0 <= i < |zs| && zs[i].Has(b);
      assert zs[i] in multiset(ws);
      var j :| 0 <= j < |ws| && ws[j] == zs[i];
      assert ws[j].Has(b);
    }
  }

  /** Chaining a segment to the one it follows (packet_chain) sends the same bytes. */
  lemma MergedSent(g: Seg, h: Seg, b: int)
    requires h.start == g.End()
    ensures Sent([g, h], b) <==> Sent([Seg(g.start, g.chain + h.chain)], b)
  {
    hide Bytes;
    BytesConcat(g.chain, h.chain);
    var m := Seg(g.start, g.chain + h.chain);
    assert m.Has(b) <==> g.Has(b) || h.Has(b);
    assert [g, h][0] == g && [g, h][1] == h && [m][0] == m;
  }
}
