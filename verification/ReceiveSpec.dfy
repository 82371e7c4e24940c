/** The receive half of a connection as a value, and what every run of it keeps
    (tcp_rcv_data, tcp_rcv_enqueue, ooo_queue_drain, validate_seq, tsock_zreadv and
    tsock_drop_ooo_mbufs of src/tcp/tcp_input.c). */
module ReceiveSpec {
  import opened SeqNum
  import opened Chains
  import opened OooQueue
  import opened SackSpec

  datatype Outcome = Accepted | BadSeq | Duplicate | OooLimit | RxqFull

  /** `nxt` is rcv_nxt, `wnd` is rcv_wnd, `cap` the size of the rx ring and `limit` the
      configured bound on queued out-of-order packets. */
  datatype Rx = Rx(nxt: int, wnd: nat, cap: nat, limit: nat,
                   rxq: seq<Chain>, ooo: seq<Seg>, sackOk: bool, blocks: seq<Block>)

  /** One past the last byte the advertised window allows. */
  function Right(s: Rx): int { s.nxt + s.wnd }

  ghost function RxBytes(rxq: seq<Chain>): seq<byte> {
    if rxq == [] then [] else Bytes(rxq[0]) + RxBytes(rxq[1..])
  }

  ghost predicate GoodQueue(rxq: seq<Chain>) {
    forall i | 0 <= i < |rxq| :: rxq[i] != [] && NoEmptyPiece(rxq[i])
  }

  ghost predicate GoodSegs(q: seq<Seg>) {
    forall i | 0 <= i < |q| :: NoEmptyPiece(q[i].chain)
  }

  ghost predicate Inv(s: Rx) {
    && Sorted(s.ooo) && Within(s.ooo, s.nxt, Right(s)) && GoodSegs(s.ooo)
    && |s.rxq| <= s.cap && GoodQueue(s.rxq)
  }

  /** The byte was received and is kept: delivered in order, or queued out of order. */
  ghost predicate Held(s: Rx, b: int) {
    b < s.nxt || Covers(s.ooo, b)
  }

  /** Nothing deliverable is left in the out-of-order queue. */
  ghost predicate Tight(s: Rx) {
    s.ooo == [] || s.ooo[0].start != s.nxt
  }

  // ---- operations

  /** tcp_rcv_enqueue. */
  ghost function Enqueue(s: Rx, g: Seg): (r: (Rx, Outcome)) {
    var g' := if g.Len() > s.wnd then CutTail(g, g.Len() - s.wnd) else g;
    if g'.Len() == 0 then (s, Accepted)
    else if |s.rxq| >= s.cap then (s, RxqFull)
    else (s.(nxt := s.nxt + g'.Len(), wnd := s.wnd - g'.Len(), rxq := s.rxq + [g'.chain]), Accepted)
  }

  /** ooo_queue_insert at position `k`. */
  ghost function Insert(s: Rx, k: nat, g: Seg): (r: (Rx, Outcome))
    requires k <= |s.ooo| && g.start <= Right(s)
  {
    var g' := if g.End() > Right(s) then CutTail(g, g.End() - Right(s)) else g;
    if g'.Len() == 0 then (s, Duplicate)
    else if g'.start != s.nxt && |s.ooo| >= s.limit then (s, OooLimit)
    else (s.(ooo := InsertAt(s.ooo, k, g'),
             blocks := if s.sackOk then Update(s.blocks, g'.start, g'.End()) else s.blocks), Accepted)
  }

  ghost function TrimAndInsert(s: Rx, k: nat, g: Seg): (r: (Rx, Outcome))
    requires k <= |s.ooo| && Sorted(s.ooo) && g.start <= Right(s)
    requires k < |s.ooo| ==> g.start <= s.ooo[k].start
  {
    TrimKeepsBytes(s.ooo, k, g);
    var (q, g') := Trim(s.ooo, k, g);
    Insert(s.(ooo := q), k, g')
  }

  /** tcp_rcv_data_ooo. */
  ghost function OooRcv(s: Rx, g: Seg): (r: (Rx, Outcome))
    requires Inv(s) && g.Len() > 0 && s.nxt <= g.start < Right(s)
  {
    var k := Position(s.ooo, g.start);
    if k == 0 then TrimAndInsert(s, 0, g)
    else
      var prev := s.ooo[k - 1];
      if g.start == prev.start && g.Len() > prev.Len() then
        SortedRemove(s.ooo, k - 1);
        TrimAndInsert(s.(ooo := Remove(s.ooo, k - 1)), k - 1, g)
      else if prev.End() > g.start then
        if prev.End() - g.start >= g.Len() then (s, Duplicate)
        else
          TrimAndInsert(s, k, CutHead(g, prev.End() - g.start))
      else TrimAndInsert(s, k, g)
  }

  /** ooo_queue_drain. */
  ghost function Drain(s: Rx): (r: Rx)
    decreases |s.ooo|
  {
    if s.ooo == [] then s.(blocks := [])
    else if s.ooo[0].start != s.nxt then s.(blocks := Regulate(s.blocks, s.nxt))
    else
      var (s1, o) := Enqueue(s, s.ooo[0]);
      if o == RxqFull then s else Drain(s1.(ooo := s.ooo[1..]))
  }

  /** tcp_rcv_data for a segment without FIN. */
  ghost function RcvData(s: Rx, g: Seg): (r: (Rx, Outcome))
    requires Inv(s) && (g.Len() > 0 ==> g.start < Right(s))
  {
    if g.End() <= s.nxt || g.Len() == 0 then (s, Accepted)
    else
      var g1 := if g.start < s.nxt then CutHead(g, s.nxt - g.start) else g;
      assert s.ooo != [] ==> s.ooo[0].Len() > 0;
      RcvFrom(s, g1)
  }

  /** The rest of tcp_rcv_data, for a segment that does not start before rcv_nxt. */
  ghost function RcvFrom(s: Rx, g: Seg): (r: (Rx, Outcome))
    requires Inv(s) && g.Len() > 0 && s.nxt <= g.start && (g.start < Right(s) || (g.start == s.nxt && s.ooo == []))
  {
    if g.start == s.nxt && (s.ooo == [] || g.End() < s.ooo[0].start) then Enqueue(s, g)
    else
      var (s1, o) := OooRcv(s, g);
      (Drain(s1), o)
  }

  /** validate_seq followed by tcp_rcv_data: what an arriving segment does. */
  ghost function Arrive(s: Rx, g: Seg): (r: (Rx, Outcome))
    requires Inv(s)
  {
    if !(g.Len() == 0 && g.start == s.nxt) && (g.End() <= s.nxt || g.start >= Right(s)) then (s, BadSeq)
    else RcvData(s, g)
  }

  /** The pieces a read into `n` iovecs hands out, and what is left of the queue. */
  ghost function ReadPieces(rxq: seq<Chain>, n: nat): (r: (Chain, seq<Chain>)) {
    if rxq == [] || n == 0 then ([], rxq)
    else if |rxq[0]| <= n then
      var (out, rest) := ReadPieces(rxq[1..], n - |rxq[0]|);
      (rxq[0] + out, rest)
    else (rxq[0][..n], [rxq[0][n..]] + rxq[1..])
  }

  /** tsock_zreadv. */
  ghost function Read(s: Rx, n: nat): (r: (Rx, Chain)) {
    var (out, rest) := ReadPieces(s.rxq, n);
    (s.(rxq := rest, wnd := s.wnd + |Bytes(out)|), out)
  }

  /** tsock_drop_ooo_mbufs: a quarter of the queue, at least one entry, from its end. */
  ghost function DropOoo(s: Rx): (r: Rx) {
    if s.ooo == [] then s
    else s.(ooo := s.ooo[..|s.ooo| - if |s.ooo| / 4 > 1 then |s.ooo| / 4 else 1])
  }

  // ---- the peer's stream

  ghost predicate Matches(g: Seg, stream: int -> byte) {
    Bytes(g.chain) == Slice(stream, g.start, g.End())
  }

  /** The unread bytes are the stream from `pos` to rcv_nxt, and every queued segment holds
      the bytes of the stream at its place. */
  ghost predicate Consistent(s: Rx, stream: int -> byte, pos: int) {
    && pos <= s.nxt && RxBytes(s.rxq) == Slice(stream, pos, s.nxt)
    && (forall i | 0 <= i < |s.ooo| :: Matches(s.ooo[i], stream))
  }

  /** What every step keeps: the invariant, the right edge of the window, and the sum of the
      window and the unread bytes. */
  ghost predicate Keeps(s: Rx, s': Rx) {
    && Inv(s') && s'.cap == s.cap && s'.limit == s.limit && s'.sackOk == s.sackOk
    && Right(s') == Right(s) && s.nxt <= s'.nxt
    && s'.wnd + |RxBytes(s'.rxq)| == s.wnd + |RxBytes(s.rxq)|
  }

  lemma RxBytesUnfold(rxq: seq<Chain>)
    ensures RxBytes(rxq) == if rxq == [] then [] else Bytes(rxq[0]) + RxBytes(rxq[1..])
  {
  }

  lemma {:induction false} RxBytesAppend(rxq: seq<Chain>, c: Chain)
    ensures RxBytes(rxq + [c]) == RxBytes(rxq) + Bytes(c)
  {
    hide Bytes;
    hide RxBytes;
    var r := rxq + [c];
    RxBytesUnfold(rxq);
    RxBytesUnfold(r);
    if rxq == [] {
      assert r[1..] == [];
      RxBytesUnfold([]);
    } else {
      RxBytesAppend(rxq[1..], c);
      assert r[1..] == rxq[1..] + [c];
    }
  }

  lemma MatchesCuts(g: Seg, n: nat, stream: int -> byte)
    requires n <= g.Len() && Matches(g, stream)
    ensures Matches(CutHead(g, n), stream) && Matches(CutTail(g, n), stream)
  {
    hide Bytes;
    hide DropBytes;
    hide TakeBytes;
    var h, t := CutHead(g, n), CutTail(g, n);
    assert Bytes(h.chain) == Slice(stream, h.start, h.End());
    assert Bytes(t.chain) == Slice(stream, t.start, t.End());
  }

  /** Putting a segment that starts at rcv_nxt into the rx ring. */
  lemma EnqueueKeeps(s: Rx, g: Seg)
    requires Inv(s) && NoEmptyPiece(g.chain) && g.start == s.nxt
    requires s.ooo == [] || g.End() <= s.ooo[0].start
    ensures
      var (s', o) := Enqueue(s, g);
      && Keeps(s, s') && s'.ooo == s.ooo && s'.blocks == s.blocks
      && s'.nxt == (if o == RxqFull then s.nxt else if g.End() <= Right(s) then g.End() else Right(s))
      && |s'.rxq| <= |s.rxq| + 1 && (o == RxqFull ==> s' == s && |s.rxq| == s.cap)
  {
    hide Bytes;
    hide RxBytes;
    hide TakeBytes;
    var g' := if g.Len() > s.wnd then CutTail(g, g.Len() - s.wnd) else g;
    TakeBytesIsTake(g.chain, g'.Len());
    BytesUnfold(g'.chain);
    RxBytesAppend(s.rxq, g'.chain);
    var s' := Enqueue(s, g).0;
    assert Within(s'.ooo, s'.nxt, Right(s')) by {
      if s.ooo != [] {
        assert s.ooo[0].End() <= Right(s);
        assert forall i | 0 < i < |s.ooo| :: s.ooo[0].End() <= s.ooo[i].start;
      }
    }
  }

  lemma EnqueueConsistent(s: Rx, g: Seg, stream: int -> byte, pos: int)
    requires Consistent(s, stream, pos) && g.start == s.nxt && Matches(g, stream)
    ensures Consistent(Enqueue(s, g).0, stream, pos)
  {
    hide Bytes;
    hide RxBytes;
    hide TakeBytes;
    var g' := if g.Len() > s.wnd then CutTail(g, g.Len() - s.wnd) else g;
    MatchesCuts(g, g.Len() - g'.Len(), stream);
    RxBytesAppend(s.rxq, g'.chain);
    assert Slice(stream, pos, s.nxt) + Slice(stream, s.nxt, g'.End()) == Slice(stream, pos, g'.End());
  }

  /** Delivering queued segments changes which bytes are in order, not which are held. */
  lemma {:induction false} DrainKeeps(s: Rx)
    requires Inv(s)
    ensures
      var s' := Drain(s);
      && Keeps(s, s')
      && (forall b :: Held(s', b) <==> Held(s, b))
      && |s'.rxq| + |s'.ooo| == |s.rxq| + |s.ooo| && |s'.ooo| <= |s.ooo|
      && (Tight(s') || |s'.rxq| == s.cap)
    decreases |s.ooo|
  {
    hide Bytes;
    hide RxBytes;
    hide TakeBytes;
    if s.ooo != [] && s.ooo[0].start == s.nxt {
      var g, s0 := s.ooo[0], s.(ooo := s.ooo[1..]);
      TailInv(s);
      EnqueueKeeps(s0, g);
      var (s1, o) := Enqueue(s0, g);
      assert Enqueue(s, g) == (s1.(ooo := s.ooo), o);
      if o != RxqFull {
        DrainKeeps(s1);
        forall b ensures Held(s1, b) <==> Held(s, b) {
          HeldTail(s, s1, b);
        }
      }
    }
  }

  lemma HeldTail(s: Rx, s1: Rx, b: int)
    requires s.ooo != [] && s1.ooo == s.ooo[1..]
    requires s.ooo[0].start == s.nxt && s1.nxt == s.ooo[0].End()
    ensures Held(s1, b) <==> Held(s, b)
  {
    hide Bytes;
    hide RxBytes;
    CoversRemove(s.ooo, 0, b);
    assert Remove(s.ooo, 0) == s.ooo[1..];
  }

  lemma TailInv(s: Rx)
    requires Inv(s) && s.ooo != []
    ensures Inv(s.(ooo := s.ooo[1..]))
    ensures |s.ooo| > 1 ==> s.ooo[0].End() <= s.ooo[1..][0].start
  {
    hide Bytes;
    hide RxBytes;
    var t := s.ooo[1..];
    assert forall i | 0 <= i < |t| :: t[i] == s.ooo[i + 1];
    assert Sorted(t) && Within(t, s.nxt, Right(s)) && GoodSegs(t);
  }

  lemma {:induction false} DrainConsistent(s: Rx, stream: int -> byte, pos: int)
    requires Consistent(s, stream, pos)
    ensures Consistent(Drain(s), stream, pos)
    decreases |s.ooo|
  {
    hide Bytes;
    hide RxBytes;
    hide TakeBytes;
    if s.ooo != [] && s.ooo[0].start == s.nxt {
      EnqueueConsistent(s, s.ooo[0], stream, pos);
      var (s1, o) := Enqueue(s, s.ooo[0]);
      if o != RxqFull {
        DrainConsistent(s1.(ooo := s.ooo[1..]), stream, pos);
      }
    }
  }

  /** What queueing the bytes of `g` does to the queue: none of the bytes held is lost, and
      exactly the bytes of `g` inside the window are gained.  OooLimits says what a refusal costs. */
  ghost predicate Gains(s: Rx, s': Rx, g: Seg, o: Outcome) {
    && (forall b | Held(s', b) :: Held(s, b) || (g.Has(b) && b < Right(s)))
    && (o != OooLimit ==> forall b | Held(s, b) || (g.Has(b) && b < Right(s)) :: Held(s', b))
  }

  /** What queueing `g` out of order does, whichever way it is placed. */
  ghost predicate Queues(s: Rx, g: Seg, s': Rx, o: Outcome) {
    && Keeps(s, s') && s'.rxq == s.rxq && s'.nxt == s.nxt
    && |s'.ooo| <= |s.ooo| + 1 && Gains(s, s', g, o)
    && o != RxqFull && o != BadSeq && (o == OooLimit ==> |s.ooo| >= s.limit)
  }

  lemma InsertInv(s: Rx, k: nat, g: Seg)
    requires Inv(s) && k <= |s.ooo| && s.nxt <= g.start && g.End() <= Right(s)
    requires NoEmptyPiece(g.chain) && g.Len() > 0
    requires k > 0 ==> s.ooo[k - 1].End() <= g.start
    requires k < |s.ooo| ==> g.End() <= s.ooo[k].start
    ensures Inv(s.(ooo := InsertAt(s.ooo, k, g)))
  {
    hide Bytes;
    hide RxBytes;
    var q := InsertAt(s.ooo, k, g);
    SortedInsert(s.ooo, k, g);
    WithinInsert(s.ooo, k, g, s.nxt, Right(s));
    assert GoodSegs(q) by {
      assert forall i | 0 <= i < |q| :: q[i] == if i < k then s.ooo[i] else if i == k then g else s.ooo[i - 1];
    }
  }

  lemma InsertKeeps(s: Rx, k: nat, g: Seg)
    requires Inv(s) && k <= |s.ooo| && s.nxt <= g.start <= Right(s) && NoEmptyPiece(g.chain)
    requires k > 0 ==> s.ooo[k - 1].End() <= g.start
    requires k < |s.ooo| ==> g.End() <= s.ooo[k].start
    ensures var (s', o) := Insert(s, k, g); Queues(s, g, s', o)
  {
    hide Bytes;
    hide RxBytes;
    hide TakeBytes;
    hide Update;
    hide Sorted;
    hide Within;
    hide GoodSegs;
    var g' := if g.End() > Right(s) then CutTail(g, g.End() - Right(s)) else g;
    TakeBytesIsTake(g.chain, g'.Len());
    var (s', o) := Insert(s, k, g);
    if o == Accepted {
      InsertInv(s, k, g');
      assert Inv(s') by {
        assert s'.ooo == s.(ooo := InsertAt(s.ooo, k, g')).ooo;
      }
      forall b ensures Covers(s'.ooo, b) <==> Covers(s.ooo, b) || g'.Has(b) {
        CoversInsert(s.ooo, k, g', b);
      }
    }
  }

  lemma TrimAndInsertKeeps(s: Rx, k: nat, g: Seg)
    requires Inv(s) && k <= |s.ooo| && s.nxt <= g.start <= Right(s) && NoEmptyPiece(g.chain)
    requires k > 0 ==> s.ooo[k - 1].End() <= g.start
    requires k < |s.ooo| ==> g.start <= s.ooo[k].start
    ensures var (s', o) := TrimAndInsert(s, k, g); Queues(s, g, s', o)
  {
    hide Bytes;
    hide RxBytes;
    hide Update;
    hide Trim;
    hide Insert;
    TrimKeepsBytes(s.ooo, k, g);
    TrimGood(s.ooo, k, g);
    var (q, g') := Trim(s.ooo, k, g);
    if k > 0 {
      assert q[k - 1] == q[..k][k - 1];
    }
    InsertKeeps(s.(ooo := q), k, g');
  }

  lemma {:induction false} TrimGood(q: seq<Seg>, k: nat, g: Seg)
    requires k <= |q| && Sorted(q) && GoodSegs(q) && NoEmptyPiece(g.chain)
    requires k < |q| ==> g.start <= q[k].start
    ensures GoodSegs(Trim(q, k, g).0) && NoEmptyPiece(Trim(q, k, g).1.chain)
    decreases |q| - k
  {
    hide Bytes;
    hide RxBytes;
    if k < |q| && g.End() > q[k].start {
      if g.End() - q[k].start < q[k].Len() {
        TakeBytesIsTake(g.chain, q[k].start - g.start);
      } else {
        SortedRemove(q, k);
        TrimGood(Remove(q, k), k, g);
      }
    }
  }

  lemma RemoveInv(s: Rx, k: nat)
    requires Inv(s) && k < |s.ooo|
    ensures Inv(s.(ooo := Remove(s.ooo, k)))
  {
    hide Bytes;
    SortedRemove(s.ooo, k);
    var q := Remove(s.ooo, k);
    assert forall i | 0 <= i < |q| :: q[i] == s.ooo[if i < k then i else i + 1];
    assert Within(q, s.nxt, Right(s)) && GoodSegs(q);
  }

  /** Replacing an entry by a longer one that starts at the same byte. */
  lemma ReplaceQueues(s: Rx, k: nat, g: Seg)
    requires Inv(s) && k < |s.ooo| && s.ooo[k].start == g.start && g.Len() > s.ooo[k].Len()
    requires NoEmptyPiece(g.chain)
    requires k + 1 < |s.ooo| ==> g.start < s.ooo[k + 1].start
    ensures
      var s0 := s.(ooo := Remove(s.ooo, k));
      Sorted(s0.ooo) &&
      (k < |s0.ooo| ==> g.start <= s0.ooo[k].start) &&
      var (s', o) := TrimAndInsert(s0, k, g);
      Queues(s, g, s', o)
  {
    hide Bytes;
    hide RxBytes;
    hide TrimAndInsert;
    hide Covers;
    var prev, s0 := s.ooo[k], s.(ooo := Remove(s.ooo, k));
    RemoveInv(s, k);
    if k > 0 {
      assert s0.ooo[k - 1] == s.ooo[k - 1];
    }
    if k < |s0.ooo| {
      assert s0.ooo[k] == s.ooo[k + 1];
    }
    assert prev.End() <= Right(s);
    TrimAndInsertKeeps(s0, k, g);
    forall b ensures Held(s, b) <==> Held(s0, b) || prev.Has(b) {
      CoversRemove(s.ooo, k, b);
    }
  }

  /** Queueing only what lies beyond the entry before. */
  lemma CutLeftQueues(s: Rx, k: nat, g: Seg)
    requires Inv(s) && 0 < k <= |s.ooo| && g.start < Right(s) && NoEmptyPiece(g.chain)
    requires s.ooo[k - 1].start <= g.start < s.ooo[k - 1].End() < g.End()
    requires k < |s.ooo| ==> g.start < s.ooo[k].start
    ensures
      var h := CutHead(g, s.ooo[k - 1].End() - g.start);
      h.start <= Right(s) && (k < |s.ooo| ==> h.start <= s.ooo[k].start) &&
      var (s', o) := TrimAndInsert(s, k, h);
      Queues(s, g, s', o)
  {
    hide Bytes;
    hide RxBytes;
    hide TrimAndInsert;
    hide DropBytes;
    var prev := s.ooo[k - 1];
    var h := CutHead(g, prev.End() - g.start);
    DropBytesIsDrop(g.chain, prev.End() - g.start);
    TrimAndInsertKeeps(s, k, h);
    forall b | g.Has(b) ensures h.Has(b) || Held(s, b) {
      if !h.Has(b) {
        assert prev.Has(b);
      }
    }
  }

  lemma DuplicateQueues(s: Rx, k: nat, g: Seg)
    requires Inv(s) && k < |s.ooo| && s.ooo[k].start <= g.start && g.End() <= s.ooo[k].End()
    ensures Queues(s, g, s, Duplicate)
  {
    hide Bytes;
    hide RxBytes;
    forall b | g.Has(b) ensures Held(s, b) {
      assert s.ooo[k].Has(b);
    }
  }

  lemma OooRcvKeeps(s: Rx, g: Seg)
    requires Inv(s) && g.Len() > 0 && s.nxt <= g.start < Right(s) && NoEmptyPiece(g.chain)
    ensures var (s', o) := OooRcv(s, g); Queues(s, g, s', o)
  {
    hide TrimAndInsert;
    hide Keeps;
    hide Gains;
    hide CutHead;
    var k := Position(s.ooo, g.start);
    if k == 0 || s.ooo[k - 1].End() <= g.start {
      assert OooRcv(s, g) == TrimAndInsert(s, k, g);
      TrimAndInsertKeeps(s, k, g);
    } else if g.start == s.ooo[k - 1].start && g.Len() > s.ooo[k - 1].Len() {
      ReplaceQueues(s, k - 1, g);
    } else if s.ooo[k - 1].End() - g.start >= g.Len() {
      assert OooRcv(s, g) == (s, Duplicate);
      DuplicateQueues(s, k - 1, g);
    } else {
      CutLeftQueues(s, k, g);
    }
  }

  /** What an arriving segment does; see ArriveExact. */
  ghost predicate Receives(s: Rx, g: Seg, s': Rx, o: Outcome) {
    && Keeps(s, s')
    && (forall b | Held(s', b) :: Held(s, b) || (g.Has(b) && b < Right(s)))
    && (o != OooLimit && o != RxqFull ==>
          forall b | Held(s, b) || (g.Has(b) && b < Right(s)) :: Held(s', b))
    && (o == OooLimit ==> |s.ooo| >= s.limit)
    && (o == RxqFull ==> |s.rxq| == s.cap && s' == s)
    && |s'.rxq| + |s'.ooo| <= |s.rxq| + |s.ooo| + 1 && |s'.ooo| <= |s.ooo| + 1
    && (Tight(s) ==> Tight(s') || |s'.rxq| == s.cap)
  }

  lemma DirectPath(s: Rx, g: Seg)
    requires Inv(s) && NoEmptyPiece(g.chain) && g.start == s.nxt
    requires s.ooo == [] || g.End() < s.ooo[0].start
    ensures var (s', o) := Enqueue(s, g); Receives(s, g, s', o)
  {
    hide Bytes;
    hide RxBytes;
    EnqueueKeeps(s, g);
  }

  /** The part of a segment below rcv_nxt adds nothing. */
  lemma ReceivesCut(s: Rx, g: Seg, s': Rx, o: Outcome)
    requires g.start < s.nxt < g.End()
    requires Receives(s, CutHead(g, s.nxt - g.start), s', o)
    ensures Receives(s, g, s', o)
  {
    hide Bytes;
    hide RxBytes;
    hide Inv;
    hide Covers;
    hide DropBytes;
    var h := CutHead(g, s.nxt - g.start);
    assert forall b :: g.Has(b) ==> h.Has(b) || b < s.nxt;
    assert forall b :: h.Has(b) ==> g.Has(b);
  }

  lemma OooPath(s: Rx, g: Seg)
    requires Inv(s) && g.Len() > 0 && s.nxt <= g.start < Right(s) && NoEmptyPiece(g.chain)
    ensures var (s1, o) := OooRcv(s, g); Receives(s, g, Drain(s1), o)
  {
    hide Bytes;
    hide RxBytes;
    hide OooRcv;
    hide Drain;
    hide Covers;
    OooRcvKeeps(s, g);
    DrainKeeps(OooRcv(s, g).0);
  }

  /** Reassembly is exact.  Whatever arrives, the invariant holds again, the right edge of the
      window stays, and no byte is held that was not sent; unless the segment was refused for
      lack of room, the bytes held afterwards are exactly those held before and those of the
      segment inside the window. */
  lemma ArriveExact(s: Rx, g: Seg)
    requires Inv(s) && NoEmptyPiece(g.chain)
    ensures var (s', o) := Arrive(s, g); Receives(s, g, s', o)
  {
    hide Bytes;
    hide RxBytes;
    hide OooRcv;
    hide Drain;
    hide Covers;
    hide Enqueue;
    if g.End() > s.nxt && g.Len() > 0 && g.start < Right(s) {
      var g1 := if g.start < s.nxt then CutHead(g, s.nxt - g.start) else g;
      if g.start < s.nxt {
        DropBytesIsDrop(g.chain, s.nxt - g.start);
      }
      if g1.start == s.nxt && (s.ooo == [] || g1.End() < s.ooo[0].start) {
        DirectPath(s, g1);
      } else {
        assert g1.start < Right(s);
        OooPath(s, g1);
      }
      if g.start < s.nxt {
        var (s', o) := Arrive(s, g);
        ReceivesCut(s, g, s', o);
      }
    }
  }

  // ---- the bytes are those of the stream

  ghost predicate AllMatch(q: seq<Seg>, stream: int -> byte) {
    forall i | 0 <= i < |q| :: Matches(q[i], stream)
  }

  lemma {:induction false} TrimMatches(q: seq<Seg>, k: nat, g: Seg, stream: int -> byte)
    requires k <= |q| && Sorted(q) && (k < |q| ==> g.start <= q[k].start)
    requires AllMatch(q, stream) && Matches(g, stream)
    ensures AllMatch(Trim(q, k, g).0, stream) && Matches(Trim(q, k, g).1, stream)
    decreases |q| - k
  {
    hide Bytes;
    hide Matches;
    hide CutTail;
    if k < |q| && g.End() > q[k].start {
      if g.End() - q[k].start < q[k].Len() {
        MatchesCuts(g, g.End() - q[k].start, stream);
      } else {
        SortedRemove(q, k);
        TrimMatches(Remove(q, k), k, g, stream);
      }
    }
  }

  lemma TrimAndInsertMatches(s: Rx, k: nat, g: Seg, stream: int -> byte)
    requires k <= |s.ooo| && Sorted(s.ooo) && g.start <= Right(s)
    requires k < |s.ooo| ==> g.start <= s.ooo[k].start
    requires AllMatch(s.ooo, stream) && Matches(g, stream)
    ensures AllMatch(TrimAndInsert(s, k, g).0.ooo, stream)
    ensures TrimAndInsert(s, k, g).0.rxq == s.rxq && TrimAndInsert(s, k, g).0.nxt == s.nxt
  {
    hide Bytes;
    hide Matches;
    hide CutTail;
    hide Trim;
    hide Update;
    hide Sorted;
    TrimKeepsBytes(s.ooo, k, g);
    TrimMatches(s.ooo, k, g, stream);
    var (q, g') := Trim(s.ooo, k, g);
    if g'.End() > Right(s) {
      MatchesCuts(g', g'.End() - Right(s), stream);
    }
  }

  lemma OooRcvConsistent(s: Rx, g: Seg, stream: int -> byte, pos: int)
    requires Inv(s) && g.Len() > 0 && s.nxt <= g.start < Right(s)
    requires Consistent(s, stream, pos) && Matches(g, stream)
    ensures Consistent(OooRcv(s, g).0, stream, pos)
  {
    hide Bytes;
    hide RxBytes;
    hide TrimAndInsert;
    hide Matches;
    hide CutHead;
    var k := Position(s.ooo, g.start);
    assert AllMatch(s.ooo, stream);
    if k == 0 || s.ooo[k - 1].End() <= g.start {
      assert OooRcv(s, g) == TrimAndInsert(s, k, g);
      TrimAndInsertMatches(s, k, g, stream);
    } else if g.start == s.ooo[k - 1].start && g.Len() > s.ooo[k - 1].Len() {
      SortedRemove(s.ooo, k - 1);
      TrimAndInsertMatches(s.(ooo := Remove(s.ooo, k - 1)), k - 1, g, stream);
    } else if s.ooo[k - 1].End() - g.start < g.Len() {
      MatchesCuts(g, s.ooo[k - 1].End() - g.start, stream);
      TrimAndInsertMatches(s, k, CutHead(g, s.ooo[k - 1].End() - g.start), stream);
    }
  }

  lemma FromConsistent(s: Rx, g: Seg, stream: int -> byte, pos: int)
    requires Inv(s) && g.Len() > 0 && s.nxt <= g.start && (g.start < Right(s) || (g.start == s.nxt && s.ooo == []))
    requires Consistent(s, stream, pos) && Matches(g, stream)
    ensures Consistent(RcvFrom(s, g).0, stream, pos)
  {
    hide Bytes;
    hide OooRcv;
    hide Drain;
    hide Enqueue;
    hide Consistent;
    hide Matches;
    hide Inv;
    if g.start == s.nxt && (s.ooo == [] || g.End() < s.ooo[0].start) {
      EnqueueConsistent(s, g, stream, pos);
    } else {
      OooRcvConsistent(s, g, stream, pos);
      DrainConsistent(OooRcv(s, g).0, stream, pos);
    }
  }

  lemma ArriveConsistent(s: Rx, g: Seg, stream: int -> byte, pos: int)
    requires Inv(s) && Consistent(s, stream, pos) && Matches(g, stream)
    ensures Consistent(Arrive(s, g).0, stream, pos)
  {
    hide Bytes;
    hide RcvFrom;
    hide Consistent;
    hide Matches;
    assert s.ooo != [] ==> s.ooo[0].Len() > 0;
    if g.End() > s.nxt && g.Len() > 0 && g.start < Right(s) {
      if g.start < s.nxt {
        MatchesCuts(g, s.nxt - g.start, stream);
        FromConsistent(s, CutHead(g, s.nxt - g.start), stream, pos);
      } else {
        FromConsistent(s, g, stream, pos);
      }
    }
  }

  // ---- reading

  lemma {:induction false} ReadPiecesSplits(rxq: seq<Chain>, n: nat)
    requires GoodQueue(rxq)
    ensures
      var (out, rest) := ReadPieces(rxq, n);
      && GoodQueue(rest) && NoEmptyPiece(out) && |rest| <= |rxq| && |out| <= n
      && Bytes(out) + RxBytes(rest) == RxBytes(rxq)
      && (out == [] ==> rest == rxq)
  {
    hide Bytes;
    hide RxBytes;
    RxBytesUnfold(rxq);
    BytesUnfold([]);
    if rxq == [] || n == 0 {
    } else if |rxq[0]| <= n {
      ReadPiecesSplits(rxq[1..], n - |rxq[0]|);
      var (out, rest) := ReadPieces(rxq[1..], n - |rxq[0]|);
      BytesConcat(rxq[0], out);
      assert (Bytes(rxq[0]) + Bytes(out)) + RxBytes(rest) == Bytes(rxq[0]) + (Bytes(out) + RxBytes(rest));
    } else {
      var c := rxq[0];
      var rest := [c[n..]] + rxq[1..];
      BytesConcat(c[..n], c[n..]);
      assert c == c[..n] + c[n..];
      RxBytesUnfold(rest);
      assert rest[1..] == rxq[1..];
      assert (Bytes(c[..n]) + Bytes(c[n..])) + RxBytes(rxq[1..]) == Bytes(c[..n]) + (Bytes(c[n..]) + RxBytes(rxq[1..]));
    }
  }
}
