/** The send half of a socket (src/tcp/tcp_output.c, the acknowledgement part of
    src/tcp/tcp_input.c, src/tcp/tcp_timeout.c): 32-bit sequence numbers, a ring of descriptors
    that are allocated from a pool.  Every operation is proved to do what SendSpec says it does. */
module Senders {
  import opened SeqNum
  import opened Seqs
  import opened Chains
  import opened RingIndex
  import opened TxQueue
  import opened TxRings
  import opened TxDescs
  import opened XmitSpec
  import opened SendSpec
  import opened Scoreboard
  import opened SendSteps
  import opened SendAcks
  import SR = SendRuns

  function IdsOf(cs: seq<Completion>): seq<nat> {
    if cs == [] then [] else [cs[0].id] + IdsOf(cs[1..])
  }

  lemma {:induction false} IdsAppend(a: seq<Completion>, b: seq<Completion>)
    ensures IdsOf(a + b) == IdsOf(a) + IdsOf(b)
  {
    if a == [] {
      assert a + b == b;
    } else {
      IdsAppend(a[1..], b);
      assert (a + b)[1..] == a[1..] + b;
    }
  }

  lemma NothingFired()
    ensures IdsOf(Pending([])) == []
  {
  }

  lemma FiredNext(ds: seq<Desc>, i: nat)
    requires i < |ds|
    ensures IdsOf(Pending(ds[..i + 1])) == IdsOf(Pending(ds[..i])) + if ds[i].done.Some? then [ds[i].done.value] else []
  {
    assert ds[..i + 1] == ds[..i] + [ds[i]];
    PendingAppend(ds[..i], [ds[i]]);
    PendingUnfold([ds[i]]);
    assert [ds[i]][1..] == [];
    PendingNone();
    hide Pending;
    IdsAppend(Pending(ds[..i]), Signal(ds[i]));
    assert Signal(ds[i]) + [] == Signal(ds[i]);
  }

  class Sender {
    const ring: TxRing<TxDesc?>
    const pool: DescPool
    const chunk: nat
    var sndUna: u32
    var sndNxt: u32
    var dataNxt: u32
    var partial: u32
    var sackedBytes: u32
    var finSent: bool
    var stage: Stage
    var recover: u32
    var dupack: nat
    var rexSeq: u32
    var rexBase: u16

    /** The state as a value. */
    ghost var abs: Tx

    ghost predicate Numbers()
      reads this
    {
      && sndUna == Wrap(abs.sndUna) && sndNxt == Wrap(abs.sndNxt) && dataNxt == Wrap(abs.dataNxt)
      && partial == abs.partial && sackedBytes == abs.sackedBytes && finSent == abs.finSent
      && stage == abs.stage && recover == Wrap(abs.recover) && dupack == abs.dupack
      && rexSeq == Wrap(abs.rexSeq) && rexBase == Wrap16(abs.rexIdx)
      && chunk == abs.chunk
    }

    /** All descriptors of the socket and of the pool, when the first `k` of the queue have been
        handed back to the pool. */
    ghost function Owned(k: nat): seq<TxDesc?>
      reads ring, pool
      requires k <= |ring.items|
    {
      pool.free + ring.items[k..]
    }

    /** The queue, when its first `k` descriptors have been acknowledged and handed back. */
    ghost predicate Queue(k: nat)
      reads this, ring, ring.slots, ring.items, pool, pool.descs
    {
      && ring.Valid() && pool.Valid() && ring.staged == [] && ring.slots != pool.descs
      && k <= |ring.items| && HoldAll(ring.items[k..], abs.descs)
      && Distinct(Owned(k)) && |Owned(k)| <= pool.descs.Length
      && ring.una == Wrap16(abs.una - k) && ring.sent == abs.nxt + k
      && ring.size == abs.size && pool.off == abs.free
    }

    ghost predicate Valid()
      reads this, ring, ring.slots, ring.items, pool, pool.descs
    {
      Queue(0) && Numbers() && Inv(abs)
    }

    lemma ItemsCount()
      requires Queue(0)
      ensures |ring.items| == |abs.descs| && HoldAll(ring.items, abs.descs)
    {
      hide Distinct;
      assert ring.items[0..] == ring.items;
    }

    /** No descriptor is queued twice. */
    lemma ItemsDistinct()
      requires Queue(0)
      ensures Distinct(ring.items)
    {
      hide HoldAll;
      var all := Owned(0);
      assert forall i | 0 <= i < |ring.items| :: ring.items[i] == all[|pool.free| + i];
    }

    /** A socket that enters ESTABLISHED, with its worker's pool. */
    constructor (size: u16, chunk: nat, pool: DescPool, iss: u32)
      requires RingSize(size) && size * chunk < HALF - 2 && pool.Valid() && Distinct(pool.free)
      ensures Valid() && abs.descs == [] && abs.sndUna == abs.sndNxt == abs.dataNxt && this.pool == pool
      ensures abs.size == size && abs.chunk == chunk && abs.free == |pool.free| && fresh(ring)
      ensures chunk > 0 ==> SR.Established(abs)
    {
      ring := new TxRing(size);
      this.pool, this.chunk := pool, chunk;
      sndUna, sndNxt, dataNxt, recover, rexSeq := iss, iss, iss, Wrap(iss - 1), iss;
      partial, sackedBytes, dupack, rexBase := 0, 0, 0, 0;
      finSent, stage := false, NoRetrans;
      abs := Tx(size, chunk, pool.off, 0, [], 0, iss, iss, iss, 0, 0, false, NoRetrans, iss - 1, 0, iss, 0);
      new;
      assert Owned(0) == pool.free;
    }

    // ---- acknowledgements

    /** A partial acknowledgement of the first descriptor. */
    method AckSome(n: u32, ghost k: nat)
      requires Queue(k) && Numbers() && abs.partial + n < M32
      modifies this`partial, this`sndUna, this`abs
      ensures Queue(k) && Numbers() && abs == old(abs).(partial := old(abs).partial + n, sndUna := old(abs).sndUna + n)
    {
      hide Wrap;
      hide Wrap16;
      hide HoldAll;
      hide Distinct;
      hide Stored;
      hide RingSize;
      WrapAdd(abs.sndUna, n);
      partial := partial + n;
      sndUna := Wrap(sndUna + n);
      abs := abs.(partial := abs.partial + n, sndUna := abs.sndUna + n);
    }

    /** The numbers, when the first descriptor is acknowledged as a whole. */
    method AckWhole(len: u32, sacked: bool)
      requires Numbers() && Core(abs) && abs.descs != [] && abs.descs[0].End() <= abs.sndNxt
      requires len == abs.descs[0].Len() && sacked == abs.descs[0].sacked
      modifies this`sndUna, this`partial, this`sackedBytes, this`abs
      ensures old(abs).sackedBytes >= (if sacked then len else 0)
      ensures Numbers() && Core(abs) && abs == Pop(old(abs)) && abs.nxt == old(abs).nxt - 1
    {
      hide Core;
      PopNumbers(abs);
      WrapAdd(abs.sndUna, len - abs.partial);
      hide Wrap;
      hide Wrap16;
      sndUna := Wrap(sndUna + (len - partial));
      partial := 0;
      if sacked {
        sackedBytes := sackedBytes - len;
      }
      abs := Pop(abs);
    }

    /** The first descriptor that is left is acknowledged as a whole: its completion, if any, is
        signalled and it goes back to the pool. */
    method AckFirst(k: u16, desc: TxDesc) returns (ids: seq<nat>)
      requires Queue(k) && Numbers() && Core(abs)
      requires k < |ring.items| && desc == ring.items[k] && abs.descs[0].End() <= abs.sndNxt
      modifies this`sndUna, this`partial, this`sackedBytes, this`abs, pool, pool.descs
      ensures Queue(k + 1) && Numbers() && Core(abs) && Owned(k + 1) == old(Owned(k))
      ensures old(abs).descs != [] && old(abs).sackedBytes >= (if old(abs).descs[0].sacked then old(abs).descs[0].Len() else 0)
      ensures abs == Pop(old(abs)) && ids == IdsOf(Signal(old(abs).descs[0]))
    {
      hide Stored;
      hide RingSize;
      hide Core;
      hide Wrap;
      hide Wrap16;
      LenFits(abs);
      ghost var before := ring.items[k..];
      assert before[0] == desc && before[1..] == ring.items[k + 1..];
      HoldTail(before, abs.descs);
      hide HoldAll;
      AckWhole(|desc.data|, desc.sacked);
      ids := if desc.done.Some? then [desc.done.value] else [];
      pool.Free(desc);
      Associative(old(pool.free), [desc], before[1..]);
      hide Distinct;
      assert Owned(k + 1) == old(Owned(k));
      assert HoldAll(ring.items[k + 1..], abs.descs);
    }

    lemma RingBounds()
      requires Queue(0)
      ensures |ring.items| <= 32768
    {
      hide HoldAll;
      hide Distinct;
      ring.Bounds();
    }

    lemma PartialIs()
      requires Numbers()
      ensures partial == abs.partial
    {
    }

    /** tcp_txq_peek_una, while descriptors are left. */
    method FirstLeft(k: u16) returns (desc: TxDesc)
      requires Queue(k) && abs.descs != []
      ensures k < |ring.items| && desc == ring.items[k]
      ensures Holds(desc, abs.descs[0])
    {
      hide Stored;
      hide RingSize;
      hide Distinct;
      var d := ring.PeekForWrite(ring.una, k, 0);
      assert ring.items[k..][0] == ring.items[k];
      desc := d.value;
    }

    /** The loop of ack_sent_data: how many descriptors were acknowledged, and the writes that
        complete, in order. */
    method AckLoop(ackedLen: u32) returns (nr: u16, ids: seq<nat>)
      requires Queue(0) && Numbers() && Core(abs)
      requires 0 < ackedLen <= abs.dataNxt - abs.sndUna && ackedLen <= abs.sndNxt - abs.sndUna
      modifies this`sndUna, this`partial, this`sackedBytes, this`abs, pool, pool.descs
      ensures nr <= |ring.items| && Queue(nr) && Numbers() && Owned(nr) == old(Owned(0))
      ensures abs == AckData(old(abs), ackedLen).0 && ids == IdsOf(AckData(old(abs), ackedLen).1)
    {
      hide Queue;
      hide Numbers;
      hide Stored;
      hide RingSize;
      hide Core;
      hide AckData;
      hide AckGoesOn;
      hide Wrap;
      hide Wrap16;
      hide HoldAll;
      hide Distinct;
      var n := ackedLen;
      nr, ids := 0, [];
      ghost var fired := [];
      AckStart(abs, n);
      RingBounds();
      while true
        invariant nr <= |ring.items| <= 32768 && n > 0
        invariant Queue(nr) && Numbers() && Core(abs) && Owned(nr) == old(Owned(0))
        invariant AckGoesOn(old(abs), ackedLen, abs, n, fired) && ids == IdsOf(fired)
        decreases |ring.items| - nr
      {
        AckPart(old(abs), ackedLen, abs, n, fired);
        PartialIs();
        var desc := FirstLeft(nr);
        if partial + n < |desc.data| {
          AckSome(n, nr);
          n := 0;
          break;
        }
        n := n - (|desc.data| - partial);
        IdsAppend(fired, Signal(abs.descs[0]));
        fired := fired + Signal(abs.descs[0]);
        var id := AckFirst(nr, desc);
        ids := ids + id;
        nr := nr + 1;
        if n == 0 {
          break;
        }
      }
      AckEnd(old(abs), ackedLen, abs, fired);
    }

    /** The end of ack_sent_data: `una` moves over what was acknowledged. */
    method DropAcked(nr: u16)
      requires Queue(nr)
      modifies ring
      ensures Queue(0) && Owned(0) == old(Owned(nr)) && ring.items == old(ring.items[nr..])
    {
      hide Stored;
      hide RingSize;
      hide HoldAll;
      hide Distinct;
      WrapAdd16(abs.una - nr, nr);
      hide Wrap16;
      ring.Acked(nr);
      assert ring.items[0..] == ring.items;
    }

    /** ack_sent_data. */
    method AckSentData(ackedLen: u32) returns (ids: seq<nat>)
      requires Queue(0) && Numbers() && Core(abs)
      requires 0 < ackedLen <= abs.dataNxt - abs.sndUna && ackedLen <= abs.sndNxt - abs.sndUna
      modifies this`sndUna, this`partial, this`sackedBytes, this`abs, pool, pool.descs, ring
      ensures Queue(0) && Numbers() && Owned(0) == old(Owned(0))
      ensures forall i | 0 <= i < |ring.items| :: ring.items[i] in old(ring.items)
      ensures abs == AckData(old(abs), ackedLen).0 && ids == IdsOf(AckData(old(abs), ackedLen).1)
    {
      hide Core;
      hide AckData;
      hide Wrap;
      hide Wrap16;
      hide HoldAll;
      hide Distinct;
      hide Stored;
      hide RingSize;
      var nr;
      nr, ids := AckLoop(ackedLen);
      DropAcked(nr);
    }

    /** reclaim_txq, when the socket is freed: the writes that are still pending complete, in order,
        and every descriptor goes back to the pool. */
    method ReclaimTxq() returns (ids: seq<nat>)
      requires Queue(0)
      modifies pool, pool.descs
      ensures ids == IdsOf(Pending(abs.descs)) && pool.Valid() && pool.free == old(Owned(0))
    {
      hide Pending;
      hide IdsOf;
      hide Distinct;
      hide Stored;
      hide RingSize;
      hide Wrap;
      ghost var ds := abs.descs;
      RingBounds();
      ItemsCount();
      NothingFired();
      var i := 0;
      ids := [];
      while true
        invariant 0 <= i <= |ring.items| <= 32768 && ring.Valid() && pool.Valid()
        invariant pool.free == old(pool.free) + ring.items[..i] && ids == IdsOf(Pending(ds[..i]))
        invariant HoldAll(ring.items, ds)
        decreases |ring.items| - i
      {
        var d := ring.PeekForWrite(ring.una, i, 0);
        if d.None? {
          break;
        }
        var desc := d.value;
        assert Holds(desc, ds[i]);
        ids := ids + if desc.done.Some? then [desc.done.value] else [];
        FiredNext(ds, i);
        pool.Free(desc);
        assert ring.items[..i] + [desc] == ring.items[..i + 1];
        i := i + 1;
      }
      assert ds[..i] == ds && ring.items[..i] == ring.items == ring.items[0..];
    }

    // ---- writing

    /** A write in progress: `ds` is queued behind, but not yet part of the queue. */
    ghost predicate Writing(ds: seq<Desc>)
      reads this, ring, ring.slots, ring.items, ring.staged, pool, pool.descs
    {
      && ring.Valid() && pool.Valid() && ring.slots != pool.descs
      && HoldAll(ring.items, abs.descs) && HoldAll(ring.staged, ds)
      && Distinct(pool.free + (ring.items + ring.staged))
      && |pool.free| + |ring.items| + |ring.staged| <= pool.descs.Length
      && ring.una == Wrap16(abs.una) && ring.sent == abs.nxt
      && ring.size == abs.size && pool.off == abs.free - |ds|
    }

    /** The descriptors that are free or taken by the write in progress. */
    ghost function Loan(): multiset<TxDesc?>
      reads ring, pool
    {
      multiset(pool.free) + multiset(ring.staged)
    }

    lemma WritingBounds(ds: seq<Desc>)
      requires Writing(ds)
      ensures |ring.items| == |abs.descs| && |ring.staged| == |ds|
      ensures |abs.descs| + |ds| <= abs.size && |ds| <= abs.free && |abs.descs| + |ds| <= 32768
    {
      hide Distinct;
      ring.Bounds();
    }

    /** A descriptor has been taken from the pool for the write in progress. */
    ghost predicate Taken(ds: seq<Desc>, desc: TxDesc)
      reads this, ring, ring.slots, ring.items, ring.staged, pool, pool.descs
    {
      && ring.Valid() && pool.Valid() && ring.slots != pool.descs
      && HoldAll(ring.items, abs.descs) && HoldAll(ring.staged, ds)
      && desc !in ring.items && desc !in ring.staged && Distinct(pool.free + (ring.items + ring.staged + [desc]))
      && |pool.free| + |ring.items| + |ring.staged| + 1 <= pool.descs.Length
      && ring.una == Wrap16(abs.una) && ring.sent == abs.nxt
      && ring.size == abs.size && pool.off == abs.free - |ds| - 1
    }

    /** Filling in a descriptor and putting it behind the others. */
    method FillDesc(desc: TxDesc, nr: u16, start: u32, piece: seq<byte>, done: Option<nat>,
                    ghost d: Desc, ghost ds: seq<Desc>)
      requires Taken(ds, desc) && nr == |ds| && |abs.descs| + nr < abs.size
      requires d == Desc(d.start, piece, false, done) && start == Wrap(d.start)
      modifies desc, ring`staged, ring.slots
      ensures Writing(ds + [d]) && ring.staged == old(ring.staged) + [desc]
    {
      hide Stored;
      hide RingSize;
      hide Wrap;
      hide Wrap16;
      desc.start, desc.data, desc.sacked, desc.done := start, piece, false, done;
      assert Holds(desc, d);
      HoldAppend(ring.staged, ds, desc, d);
      assert HoldAll(ring.items, abs.descs);
      hide HoldAll;
      ring.Stage(nr, desc);
      assert ring.items + ring.staged == ring.items + old(ring.staged) + [desc];
    }

    /** Allocating one descriptor; `copy` says that its data needs an mbuf. */
    method TakeDesc(nr: u16, nrFree: u16, copy: bool, mbufs: nat, ghost ds: seq<Desc>) returns (desc: TxDesc?)
      requires Writing(ds) && nr == |ds| && nrFree == ring.size - |ring.items|
      modifies pool, pool.descs
      ensures desc == null <==> !(|abs.descs| + nr < abs.size && nr < abs.free && (copy ==> mbufs > 0))
      ensures desc == null ==> Writing(ds) && pool.free == old(pool.free)
      ensures desc != null ==> Taken(ds, desc) && old(pool.free) == pool.free + [desc]
    {
      hide Stored;
      hide RingSize;
      hide Wrap;
      hide Wrap16;
      if nr + 1 > nrFree {
        return null;
      }
      desc := pool.Alloc();
      if desc == null {
        return;
      }
      if copy && mbufs == 0 {
        pool.Free(desc);
        return null;
      }
      DistinctMove(pool.free, desc, ring.items + ring.staged);
      hide Distinct;
    }

    /** Allocating and filling one descriptor. */
    method StagePiece(nr: u16, nrFree: u16, start: u32, piece: seq<byte>, done: Option<nat>, copy: bool, mbufs: nat,
                      ghost d: Desc, ghost ds: seq<Desc>)
      returns (ok: bool)
      requires Writing(ds) && nr == |ds| && nrFree == ring.size - |ring.items|
      requires d == Desc(d.start, piece, false, done) && start == Wrap(d.start)
      modifies pool, pool.descs, ring`staged, ring.slots, pool.free
      ensures ok <==> |abs.descs| + nr < abs.size && nr < abs.free && (copy ==> mbufs > 0)
      ensures Writing(if ok then ds + [d] else ds)
      ensures Loan() == old(Loan())
      ensures forall x | x in pool.free :: x in old(pool.free)
    {
      hide HoldAll;
      hide Distinct;
      hide Stored;
      hide RingSize;
      hide Wrap;
      hide Wrap16;
      var desc := TakeDesc(nr, nrFree, copy, mbufs, ds);
      if desc == null {
        return false;
      }
      assert desc in old(pool.free) by {
        assert (pool.free + [desc])[|pool.free|] == desc;
      }
      FillDesc(desc, nr, start, piece, done, d, ds);
      return true;
    }

    /** Whether `n` more pieces can be queued behind `k`, when the data of `copies` of them needs
        an mbuf. */
    ghost predicate Fits(k: nat, n: nat, copies: nat, mbufs: nat)
      reads this
    {
      |abs.descs| + k + n <= abs.size && k + n <= abs.free && copies <= mbufs
    }

    /** write_one_iov: the pieces of one buffer are queued behind those of the write so far. */
    method WriteOneIov(v: Iov, nr0: u16, nrFree: u16, size0: nat, room: nat, mbufs0: nat, ghost ds0: seq<Desc>)
      returns (ok: bool, nr: u16, size: nat, mbufs: nat, ghost ds: seq<Desc>)
      requires Writing(ds0) && nr0 == |ds0| && nrFree == ring.size - |ring.items| && chunk > 0 && room > 0
      requires dataNxt == Wrap(abs.dataNxt) && chunk == abs.chunk
      modifies pool, pool.descs, ring`staged, ring.slots, pool.free
      ensures Writing(ds) && nr == |ds| && forall x | x in pool.free :: x in old(pool.free)
      ensures Loan() == old(Loan())
      ensures
        var c := Chop(v.data, abs.dataNxt + size0, PieceMax(v, chunk, room), v.id);
        var copies := if v.phys then 0 else |c|;
        && ok == Fits(|ds0|, |c|, copies, mbufs0)
        && (ok ==> ds == ds0 + c && size == size0 + |v.data| && mbufs == mbufs0 - copies)
    {
      hide Writing;
      hide Loan;
      hide HoldAll;
      hide Distinct;
      hide Stored;
      hide RingSize;
      hide Chop;
      nr, size, mbufs, ds := nr0, size0, mbufs0, ds0;
      var off := 0;
      var max := if v.phys || chunk <= room then chunk else room;
      ghost var c := Chop(v.data, abs.dataNxt + size0, max, v.id);
      hide PiecesLeft;
      PiecesStart(ds0, v.data, abs.dataNxt + size0, max, v.id);
      while off < |v.data|
        invariant off <= |v.data| && size == size0 + off && mbufs == mbufs0 - (if v.phys then 0 else |ds| - |ds0|)
        invariant Writing(ds) && nr == |ds| && |ds0| <= |ds| && forall x | x in pool.free :: x in old(pool.free)
        invariant Loan() == old(Loan())
        invariant PiecesLeft(ds0 + c, ds, v.data, off, abs.dataNxt + size, max, v.id)
      {
        var len := if |v.data| - off < max then |v.data| - off else max;
        var piece, done := v.data[off..off + len], if off + len == |v.data| then Some(v.id) else None;
        ghost var d := Desc(abs.dataNxt + size, piece, false, done);
        ChopGoesOn(ds0 + c, ds, v.data, off, abs.dataNxt + size, max, v.id);
        WrapAdd(abs.dataNxt, size);
        assert forall i | 0 <= i < |pool.free| :: pool.free[i] in old(pool.free);
        ok := StagePiece(nr, nrFree, Wrap(dataNxt + size), piece, done, !v.phys, mbufs, d, ds);
        if !ok {
          return;
        }
        WritingBounds(ds + [d]);
        off, size, nr := off + len, size + len, nr + 1;
        mbufs := if v.phys then mbufs else mbufs - 1;
        ds := ds + [d];
      }
      WritingBounds(ds);
      PiecesDone(ds0 + c, ds, v.data, abs.dataNxt + size, max, v.id);
      ok := true;
    }

    /** write_revoke: the descriptors taken go back to the pool. */
    method WriteRevoke(nr: u16, ghost ds: seq<Desc>)
      requires Writing(ds) && nr == |ds|
      modifies pool, pool.descs, ring`staged
      ensures Queue(0) && multiset(pool.free) == old(multiset(pool.free) + multiset(ring.staged))
      ensures multiset(Owned(0)) == old(multiset(pool.free) + multiset(ring.staged) + multiset(ring.items))
    {
      hide Stored;
      hide RingSize;
      hide Wrap;
      hide Wrap16;
      hide Distinct;
      ghost var free0, staged := pool.free, ring.staged;
      for i := 0 to nr
        invariant pool.Valid() && pool.free == free0 + staged[..i]
        invariant ring.Valid() && unchanged(ring) && unchanged(ring.slots)
      {
        var desc := ring.Staged(i);
        assert Holds(staged[i], ds[i]);
        pool.Free(desc);
        assert staged[..i] + [desc] == staged[..i + 1];
      }
      assert staged[..nr] == staged;
      hide HoldAll;
      DistinctSwap(free0, ring.items, staged);
      ring.Forget();
      assert ring.items[0..] == ring.items;
    }

    /** data_seq_nxt moves over the data written. */
    method AdvanceData(size: nat, ghost ds: seq<Desc>)
      requires Numbers()
      modifies this`dataNxt, this`abs
      ensures Numbers() && abs == Committed(old(abs), ds, size)
    {
      WrapAdd(abs.dataNxt, size);
      hide Wrap;
      hide Wrap16;
      dataNxt := Wrap(dataNxt + size);
      abs := Committed(abs, ds, size);
    }

    /** write_commit. */
    method WriteCommit(nr: u16, size: nat, ghost ds: seq<Desc>)
      requires Writing(ds) && nr == |ds| && Numbers()
      modifies this`dataNxt, this`abs, ring`write, ring`items, ring`staged
      ensures Queue(0) && Numbers()
      ensures multiset(Owned(0)) == old(multiset(pool.free) + multiset(ring.staged) + multiset(ring.items))
      ensures nr <= old(abs).free && abs == Committed(old(abs), ds, size)
    {
      hide Stored;
      hide RingSize;
      hide Distinct;
      hide HoldAll;
      hide Wrap;
      hide Wrap16;
      hide Numbers;
      WritingBounds(ds);
      HoldConcat(ring.items, abs.descs, ring.staged, ds);
      ring.Commit(nr);
      AdvanceData(size, ds);
      assert ring.items[0..] == ring.items;
    }

    /** The loop of tsock_zwritev, over the buffers that need neither splitting nor copying. */
    method WriteFast(vs: seq<Iov>, nrFree: u16, ghost room: nat, ghost mbufs: nat)
      returns (ok: bool, i: nat, nr: u16, size: nat, ghost ds: seq<Desc>)
      requires Writing([]) && nrFree == ring.size - |ring.items| && chunk > 0 && room > 0
      requires dataNxt == Wrap(abs.dataNxt) && chunk == abs.chunk
      modifies pool, pool.descs, ring`staged, ring.slots, pool.free
      ensures Writing(ds) && nr == |ds| && forall x | x in pool.free :: x in old(pool.free)
      ensures Loan() == old(Loan())
      ensures i <= |vs| && WriteGoesOn(abs, vs, room, mbufs, i, ds, size, mbufs)
      ensures !ok ==> !SendSpec.Zwritev(abs, vs, room, mbufs).1
    {
      hide Writing;
      hide Loan;
      hide HoldAll;
      hide Distinct;
      hide Stored;
      hide RingSize;
      hide WriteGoesOn;
      hide SendSpec.Zwritev;
      hide Chop;
      i, nr, size, ds := 0, 0, 0, [];
      WriteStart(abs, vs, room, mbufs);
      while i < |vs| && vs[i].phys && 0 < |vs[i].data| <= chunk
        invariant i <= |vs| && WriteGoesOn(abs, vs, room, mbufs, i, ds, size, mbufs)
        invariant Writing(ds) && nr == |ds| && forall x | x in pool.free :: x in old(pool.free)
        invariant Loan() == old(Loan())
      {
        var v := vs[i];
        ghost var d := Desc(abs.dataNxt + size, v.data, false, Some(v.id));
        ChopOne(v.data, abs.dataNxt + size, chunk, v.id);
        WriteNext(abs, vs, room, mbufs, i, ds, size, mbufs);
        WrapAdd(abs.dataNxt, size);
        assert forall i | 0 <= i < |pool.free| :: pool.free[i] in old(pool.free);
        ok := StagePiece(nr, nrFree, Wrap(dataNxt + size), v.data, Some(v.id), false, 0, d, ds);
        if !ok {
          return;
        }
        WritingBounds(ds + [d]);
        i, nr, size, ds := i + 1, nr + 1, size + |v.data|, ds + [d];
      }
      ok := true;
    }

    /** tsock_zwritev_slowpath, from buffer `i0` on, when `nr0` pieces are queued behind. */
    method WriteSlow(vs: seq<Iov>, i0: nat, nrFree: u16, room: nat, mbufs0: nat, nr0: u16, size0: nat, ghost ds0: seq<Desc>)
      returns (ok: bool, nr: u16, size: nat, ghost ds: seq<Desc>)
      requires Writing(ds0) && nr0 == |ds0| && nrFree == ring.size - |ring.items| && chunk > 0 && room > 0
      requires dataNxt == Wrap(abs.dataNxt) && chunk == abs.chunk
      requires i0 <= |vs| && WriteGoesOn(abs, vs, room, mbufs0, i0, ds0, size0, mbufs0)
      modifies pool, pool.descs, ring`staged, ring.slots, pool.free
      ensures Writing(ds) && nr == |ds|
      ensures Loan() == old(Loan())
      ensures ok == SendSpec.Zwritev(abs, vs, room, mbufs0).1
      ensures ok ==> ds == ChopAll(vs, abs.dataNxt, chunk, room) && size == TotalLen(vs)
    {
      hide Writing;
      hide Loan;
      hide HoldAll;
      hide Distinct;
      hide Stored;
      hide RingSize;
      hide WriteGoesOn;
      hide SendSpec.Zwritev;
      hide Chop;
      hide ChopAll;
      hide TotalLen;
      hide Wrap;
      var i, mbufs := i0, mbufs0;
      nr, size, ds := nr0, size0, ds0;
      while i < |vs|
        invariant i <= |vs| && WriteGoesOn(abs, vs, room, mbufs0, i, ds, size, mbufs)
        invariant Writing(ds) && nr == |ds| && forall x | x in pool.free :: x in old(pool.free)
        invariant Loan() == old(Loan())
      {
        WriteNext(abs, vs, room, mbufs0, i, ds, size, mbufs);
        assert forall i | 0 <= i < |pool.free| :: pool.free[i] in old(pool.free);
        ok, nr, size, mbufs, ds := WriteOneIov(vs[i], nr, nrFree, size, room, mbufs, ds);
        if !ok {
          return;
        }
        i := i + 1;
      }
      WritingBounds(ds);
      WriteEnd(abs, vs, room, mbufs0, ds, size, mbufs);
      ok := true;
    }

    /** The two loops of tsock_zwritev. */
    method WriteAll(vs: seq<Iov>, room: nat, mbufs: nat) returns (ok: bool, nr: u16, size: nat, ghost ds: seq<Desc>)
      requires Queue(0) && chunk > 0 && room > 0 && dataNxt == Wrap(abs.dataNxt) && chunk == abs.chunk
      modifies pool, pool.descs, ring`staged, ring.slots, pool.free
      ensures Writing(ds) && nr == |ds|
      ensures multiset(pool.free) + multiset(ring.staged) == multiset(old(pool.free))
      ensures SendSpec.Zwritev(abs, vs, room, mbufs) == (if ok then Committed(abs, ds, size) else abs, ok)
    {
      hide Distinct;
      hide Stored;
      hide RingSize;
      hide WriteGoesOn;
      hide SendSpec.Zwritev;
      hide ChopAll;
      hide TotalLen;
      hide Wrap;
      hide Wrap16;
      assert ring.items[0..] == ring.items && ring.items + [] == ring.items;
      var nrFree := ring.FreeCount();
      var i;
      ok, i, nr, size, ds := WriteFast(vs, nrFree, room, mbufs);
      if ok {
        assert forall i | 0 <= i < |pool.free| :: pool.free[i] in old(pool.free);
        ok, nr, size, ds := WriteSlow(vs, i, nrFree, room, mbufs, nr, size, ds);
      }
      WriteOutcome(abs, vs, room, mbufs);
    }

    /** tsock_zwritev: either everything is queued, or nothing changes but the order in which the
        pool will hand out its free descriptors.  `writable` stands for TSOCK_WRITE_CHECK. */
    method Zwritev(writable: bool, vs: seq<Iov>, room: nat, mbufs: nat) returns (ok: bool)
      requires Valid() && chunk > 0 && room > 0 && (writable ==> !finSent)
      modifies this`dataNxt, this`abs, ring, ring.slots, pool, pool.descs, pool.free
      ensures Valid() && multiset(Owned(0)) == old(multiset(Owned(0)))
      ensures (abs, ok) == if writable then SendSpec.Zwritev(old(abs), vs, room, mbufs) else (old(abs), false)
      ensures !ok ==> multiset(pool.free) == multiset(old(pool.free)) && ring.items == old(ring.items)
      ensures !ok ==> ring.una == old(ring.una) && ring.nxt == old(ring.nxt) && ring.write == old(ring.write)
    {
      hide Distinct;
      hide HoldAll;
      hide Stored;
      hide RingSize;
      hide ChopAll;
      hide TotalLen;
      hide Wrap;
      hide Wrap16;
      hide Core;
      hide Names;
      hide SendSpec.Zwritev;
      if !writable {
        return false;
      }
      WriteKeeps(abs, vs, room, mbufs);
      var nr, size;
      ghost var ds;
      ok, nr, size, ds := WriteAll(vs, room, mbufs);
      if ok {
        WriteCommit(nr, size, ds);
      } else {
        WriteRevoke(nr, ds);
      }
    }
  }

  /** Acknowledging `n` bytes of `t` finishes the acknowledgement of `n0` bytes of `t0`, in the course
      of which `fired` has completed. */
  ghost predicate AckGoesOn(t0: Tx, n0: nat, t: Tx, n: nat, fired: seq<Completion>)
    requires Core(t0) && 0 < n0 <= t0.dataNxt - t0.sndUna && n0 <= t0.sndNxt - t0.sndUna
  {
    if n == 0 then AckData(t0, n0) == (t, fired)
    else
      && Core(t) && n <= t.dataNxt - t.sndUna && n <= t.sndNxt - t.sndUna
      && AckData(t0, n0) == (AckData(t, n).0, fired + AckData(t, n).1)
  }

  lemma AckStart(t0: Tx, n0: nat)
    requires Core(t0) && 0 < n0 <= t0.dataNxt - t0.sndUna && n0 <= t0.sndNxt - t0.sndUna
    ensures AckGoesOn(t0, n0, t0, n0, [])
  {
    hide AckData;
    hide Core;
    assert [] + AckData(t0, n0).1 == AckData(t0, n0).1;
  }

  lemma AckEnd(t0: Tx, n0: nat, t: Tx, fired: seq<Completion>)
    requires Core(t0) && 0 < n0 <= t0.dataNxt - t0.sndUna && n0 <= t0.sndNxt - t0.sndUna
    requires AckGoesOn(t0, n0, t, 0, fired)
    ensures AckData(t0, n0) == (t, fired)
  {
    hide AckData;
    hide Core;
  }

  lemma AckPart(t0: Tx, n0: nat, t: Tx, n: nat, fired: seq<Completion>)
    requires Core(t0) && 0 < n0 <= t0.dataNxt - t0.sndUna && n0 <= t0.sndNxt - t0.sndUna
    requires n > 0 && AckGoesOn(t0, n0, t, n, fired)
    ensures t.descs != [] && t.partial < t.descs[0].Len() < HALF
    ensures t.partial + n < t.descs[0].Len() ==>
      var t' := t.(partial := t.partial + n, sndUna := t.sndUna + n);
      Core(t') && AckGoesOn(t0, n0, t', 0, fired)
    ensures t.partial + n >= t.descs[0].Len() ==>
      && t.descs[0].End() <= t.sndNxt && t.sackedBytes >= (if t.descs[0].sacked then t.descs[0].Len() else 0)
      && Core(Pop(t)) && AckGoesOn(t0, n0, Pop(t), n - (t.descs[0].Len() - t.partial), fired + Signal(t.descs[0]))
  {
    hide AckData;
    AckUnfold(t, n);
    LenFits(t);
    AckSomething(t);
    hide Core;
    var d := t.descs[0];
    if t.partial + n < d.Len() {
      AckPartial(t, n);
      assert fired + [] == fired;
    } else {
      var rest := n - (d.Len() - t.partial);
      if rest > 0 {
        Associative(fired, Signal(d), AckData(Pop(t), rest).1);
      }
    }
  }

  lemma HoldAppend(ds: seq<TxDesc?>, vs: seq<Desc>, d: TxDesc, v: Desc)
    requires HoldAll(ds, vs) && Holds(d, v)
    ensures HoldAll(ds + [d], vs + [v])
  {
  }

  /** The state after a write of `size` bytes in the pieces `ds`. */
  ghost function Committed(t: Tx, ds: seq<Desc>, size: nat): Tx {
    t.(descs := t.descs + ds, dataNxt := t.dataNxt + size, free := if |ds| <= t.free then t.free - |ds| else 0)
  }

  /** The buffers before `i` are queued as `ds`; `mbufs` of `mbufs0` mbufs are left. */
  ghost predicate WriteGoesOn(t: Tx, vs: seq<Iov>, room: nat, mbufs0: nat, i: nat, ds: seq<Desc>, size: nat, mbufs: nat)
    requires t.chunk > 0 && room > 0 && i <= |vs|
  {
    && ChopAll(vs, t.dataNxt, t.chunk, room) == ds + ChopAll(vs[i..], t.dataNxt + size, t.chunk, room)
    && TotalLen(vs) == size + TotalLen(vs[i..])
    && CopiesNeeded(vs, t.dataNxt, t.chunk, room) ==
         mbufs0 - mbufs + CopiesNeeded(vs[i..], t.dataNxt + size, t.chunk, room)
    && mbufs <= mbufs0
  }

  lemma WriteStart(t: Tx, vs: seq<Iov>, room: nat, mbufs: nat)
    requires t.chunk > 0 && room > 0
    ensures WriteGoesOn(t, vs, room, mbufs, 0, [], 0, mbufs)
  {
    assert vs[0..] == vs;
    var all := ChopAll(vs, t.dataNxt, t.chunk, room);
    assert [] + all == all;
  }

  /** The write fails if the next buffer does not fit behind what is queued; otherwise it goes on. */
  lemma WriteNext(t: Tx, vs: seq<Iov>, room: nat, mbufs0: nat, i: nat, ds: seq<Desc>, size: nat, mbufs: nat)
    requires t.chunk > 0 && room > 0 && i < |vs| && WriteGoesOn(t, vs, room, mbufs0, i, ds, size, mbufs)
    ensures
      var c := Chop(vs[i].data, t.dataNxt + size, PieceMax(vs[i], t.chunk, room), vs[i].id);
      var copies := if vs[i].phys then 0 else |c|;
      && (copies <= mbufs ==> WriteGoesOn(t, vs, room, mbufs0, i + 1, ds + c, size + |vs[i].data|, mbufs - copies))
      && (|t.descs| + |ds| + |c| > t.size || |ds| + |c| > t.free || copies > mbufs ==> !SendSpec.Zwritev(t, vs, room, mbufs0).1)
  {
    hide Chop;
    var rest := vs[i..];
    assert rest[0] == vs[i] && rest[1..] == vs[i + 1..];
    var at := t.dataNxt + size;
    WriteUnfold(rest, at, t.chunk, room);
    CopiesUnfold(rest, at, t.chunk, room);
    hide ChopAll;
    hide CopiesNeeded;
    hide TotalLen;
    var c := Chop(vs[i].data, at, PieceMax(vs[i], t.chunk, room), vs[i].id);
    Associative(ds, c, ChopAll(rest[1..], at + |vs[i].data|, t.chunk, room));
  }

  lemma CopiesUnfold(vs: seq<Iov>, at: int, chunk: nat, room: nat)
    requires chunk > 0 && room > 0 && vs != []
    ensures CopiesNeeded(vs, at, chunk, room) ==
            (if vs[0].phys then 0 else |Chop(vs[0].data, at, PieceMax(vs[0], chunk, room), vs[0].id)|) +
            CopiesNeeded(vs[1..], at + |vs[0].data|, chunk, room)
  {
  }

  lemma WriteOutcome(t: Tx, vs: seq<Iov>, room: nat, mbufs: nat)
    requires t.chunk > 0 && room > 0
    ensures
      var (t', ok) := SendSpec.Zwritev(t, vs, room, mbufs);
      var ds := ChopAll(vs, t.dataNxt, t.chunk, room);
      t' == if ok then Committed(t, ds, TotalLen(vs)) else t
  {
    hide ChopAll;
    hide TotalLen;
    hide CopiesNeeded;
  }

  lemma WriteEnd(t: Tx, vs: seq<Iov>, room: nat, mbufs0: nat, ds: seq<Desc>, size: nat, mbufs: nat)
    requires t.chunk > 0 && room > 0 && WriteGoesOn(t, vs, room, mbufs0, |vs|, ds, size, mbufs)
    requires |t.descs| + |ds| <= t.size && |ds| <= t.free
    ensures ds == ChopAll(vs, t.dataNxt, t.chunk, room) && size == TotalLen(vs) && SendSpec.Zwritev(t, vs, room, mbufs0).1
  {
    assert vs[|vs|..] == [];
    assert ds + [] == ds;
  }

  lemma ChopOne(data: seq<byte>, at: int, max: nat, id: nat)
    requires 0 < |data| <= max
    ensures Chop(data, at, max, id) == [Desc(at, data, false, Some(id))]
  {
  }

  /** `all` is what the write will have queued in the end: `ds` and the pieces of data[off..]. */
  ghost predicate PiecesLeft(all: seq<Desc>, ds: seq<Desc>, data: seq<byte>, off: nat, at: int, max: nat, id: nat)
    requires off <= |data| && max > 0
  {
    all == ds + Chop(data[off..], at, max, id)
  }

  lemma PiecesStart(ds: seq<Desc>, data: seq<byte>, at: int, max: nat, id: nat)
    requires max > 0
    ensures PiecesLeft(ds + Chop(data, at, max, id), ds, data, 0, at, max, id)
  {
    assert data[0..] == data;
  }

  lemma PiecesDone(all: seq<Desc>, ds: seq<Desc>, data: seq<byte>, at: int, max: nat, id: nat)
    requires max > 0 && PiecesLeft(all, ds, data, |data|, at, max, id)
    ensures all == ds
  {
    assert data[|data|..] == [];
  }

  /** One turn of the loop of write_one_iov. */
  lemma ChopGoesOn(all: seq<Desc>, ds: seq<Desc>, data: seq<byte>, off: nat, at: int, max: nat, id: nat)
    requires off < |data| && max > 0 && PiecesLeft(all, ds, data, off, at, max, id)
    ensures
      var len := if |data| - off < max then |data| - off else max;
      var d := Desc(at, data[off..off + len], false, if off + len == |data| then Some(id) else None);
      PiecesLeft(all, ds + [d], data, off + len, at + len, max, id) && |ds| < |all|
  {
    var len := if |data| - off < max then |data| - off else max;
    var rest := data[off..];
    assert rest[..len] == data[off..off + len] && rest[len..] == data[off + len..];
    if off + len == |data| {
      assert data[off..off + len] == rest;
    }
  }

  lemma HoldConcat(ds: seq<TxDesc?>, vs: seq<Desc>, es: seq<TxDesc?>, us: seq<Desc>)
    requires HoldAll(ds, vs) && HoldAll(es, us)
    ensures HoldAll(ds + es, vs + us)
  {
  }

  lemma HoldTail(ds: seq<TxDesc?>, vs: seq<Desc>)
    requires HoldAll(ds, vs) && ds != []
    ensures vs != [] && Holds(ds[0], vs[0]) && HoldAll(ds[1..], vs[1..])
  {
  }

  lemma PopNumbers(t: Tx)
    requires Core(t) && t.descs != [] && t.descs[0].End() <= t.sndNxt
    ensures t.sackedBytes >= (if t.descs[0].sacked then t.descs[0].Len() else 0)
    ensures Core(Pop(t)) && t.nxt > 0 && t.partial < t.descs[0].Len()
    ensures Pop(t).sndUna == t.sndUna + (t.descs[0].Len() - t.partial)
  {
    hide SackedBytes;
    PopKeepsCore(t);
  }

  lemma LenFits(t: Tx)
    requires Core(t) && t.descs != []
    ensures t.descs[0].Len() < HALF
  {
    hide SackedBytes;
    MulMonotone(1, t.size, t.chunk);
  }
}
