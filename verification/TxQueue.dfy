/** The descriptors queued for sending, as a value (include/tx_desc.h, include/tcp_queue.h). */
module TxQueue {
  import opened Seqs
  import opened Chains

  /** A queued piece of data: its unbounded sequence number, its bytes, whether the peer reported
      it in a SACK block, and the write whose completion it signals. */
  datatype Desc = Desc(start: int, data: seq<byte>, sacked: bool, done: Option<nat>) {
    function Len(): nat { |data| }

    function End(): int { start + |data| }
  }

  /** Where descriptor `i` starts; `hi` behind the last one. */
  function Start(ds: seq<Desc>, hi: int, i: nat): int
    requires i <= |ds|
  {
    if i < |ds| then ds[i].start else hi
  }

  /** The descriptors cover [lo, hi) without gap or overlap, and none is empty. */
  ghost predicate Tiled(ds: seq<Desc>, lo: int, hi: int) {
    && Start(ds, hi, 0) == lo
    && (forall i | 0 <= i < |ds| :: ds[i].Len() > 0)
    && (forall i {:trigger ds[i].End()} | 0 <= i < |ds| :: ds[i].End() == Start(ds, hi, i + 1))
  }

  /** `at` lies in descriptor `i`, or at the end of the queue. */
  ghost predicate Within(ds: seq<Desc>, hi: int, i: nat, at: int) {
    && i <= |ds| && Start(ds, hi, i) <= at
    && (if i < |ds| then at < ds[i].End() else at == hi)
  }

  ghost function SackedBytes(ds: seq<Desc>): nat {
    if ds == [] then 0 else (if ds[0].sacked then ds[0].Len() else 0) + SackedBytes(ds[1..])
  }

  /** The completion of a write: its identifier and the sequence number behind its last byte. */
  datatype Completion = Completion(id: nat, end: int)

  function Signal(d: Desc): seq<Completion> {
    if d.done.Some? then [Completion(d.done.value, d.End())] else []
  }

  /** The completions still to be signalled, in order. */
  function Pending(ds: seq<Desc>): seq<Completion> {
    if ds == [] then [] else Signal(ds[0]) + Pending(ds[1..])
  }

  // ---- tiling

  lemma TiledTail(ds: seq<Desc>, lo: int, hi: int)
    requires Tiled(ds, lo, hi) && ds != []
    ensures Tiled(ds[1..], ds[0].End(), hi)
  {
    var t := ds[1..];
    assert ds[0].End() == Start(ds, hi, 1);
    forall i | 0 <= i < |t| ensures t[i].Len() > 0 && t[i].End() == Start(t, hi, i + 1) {
      assert t[i] == ds[i + 1];
      assert ds[i + 1].End() == Start(ds, hi, i + 2);
    }
  }

  lemma {:induction false} StartMonotone(ds: seq<Desc>, lo: int, hi: int, i: nat, j: nat)
    requires Tiled(ds, lo, hi) && i <= j <= |ds|
    ensures Start(ds, hi, i) <= Start(ds, hi, j)
    ensures i < j ==> ds[i].End() <= Start(ds, hi, j)
    decreases j - i
  {
    if i < j {
      assert ds[i].End() == Start(ds, hi, i + 1);
      StartMonotone(ds, lo, hi, i + 1, j);
    }
  }

  lemma TiledAppend(ds: seq<Desc>, es: seq<Desc>, lo: int, mid: int, hi: int)
    requires Tiled(ds, lo, mid) && Tiled(es, mid, hi)
    ensures Tiled(ds + es, lo, hi)
  {
    var r := ds + es;
    forall i | 0 <= i <= |r|
      ensures Start(r, hi, i) == if i <= |ds| then Start(ds, mid, i) else Start(es, hi, i - |ds|)
    {
      if i == |ds| {
        assert Start(es, hi, 0) == mid;
      }
    }
    forall i | 0 <= i < |r| ensures r[i].Len() > 0 && r[i].End() == Start(r, hi, i + 1) {
      if i < |ds| {
        assert ds[i].End() == Start(ds, mid, i + 1);
      } else {
        assert es[i - |ds|].End() == Start(es, hi, i - |ds| + 1);
      }
    }
  }

  /** The whole range spans at most as many bytes as the descriptors can hold. */
  lemma {:induction false} SpanBound(ds: seq<Desc>, lo: int, hi: int, chunk: nat)
    requires Tiled(ds, lo, hi) && forall i | 0 <= i < |ds| :: ds[i].Len() <= chunk
    ensures lo <= hi && hi - lo <= |ds| * chunk
    decreases |ds|
  {
    if ds != [] {
      TiledTail(ds, lo, hi);
      SpanBound(ds[1..], ds[0].End(), hi, chunk);
      assert |ds| * chunk == |ds[1..]| * chunk + chunk;
    }
  }

  lemma MulMonotone(a: nat, b: nat, c: nat)
    requires a <= b
    ensures a * c <= b * c
  {
    assert (b - a) * c >= 0;
    assert (b - a) * c == b * c - a * c;
  }

  /** A position lies in only one descriptor. */
  lemma WithinUnique(ds: seq<Desc>, lo: int, hi: int, i: nat, j: nat, at: int)
    requires Tiled(ds, lo, hi) && Within(ds, hi, i, at) && Within(ds, hi, j, at)
    ensures i == j
  {
    if i < j {
      StartMonotone(ds, lo, hi, i, j);
    } else if j < i {
      StartMonotone(ds, lo, hi, j, i);
    }
  }

  // ---- the scoreboard

  lemma {:induction false} SackedAppend(ds: seq<Desc>, es: seq<Desc>)
    ensures SackedBytes(ds + es) == SackedBytes(ds) + SackedBytes(es)
  {
    if ds == [] {
      assert ds + es == es;
    } else {
      SackedAppend(ds[1..], es);
      assert (ds + es)[1..] == ds[1..] + es;
    }
  }

  /** Marking one descriptor adds exactly its length. */
  lemma {:induction false} SackedUpdate(ds: seq<Desc>, k: nat)
    requires k < |ds| && !ds[k].sacked
    ensures SackedBytes(ds[k := ds[k].(sacked := true)]) == SackedBytes(ds) + ds[k].Len()
    decreases k
  {
    var r := ds[k := ds[k].(sacked := true)];
    if k == 0 {
      assert r[1..] == ds[1..];
    } else {
      SackedUpdate(ds[1..], k - 1);
      assert r[1..] == ds[1..][k - 1 := ds[k].(sacked := true)];
    }
  }

  lemma {:induction false} SackedZero(ds: seq<Desc>)
    requires forall i | 0 <= i < |ds| :: !ds[i].sacked
    ensures SackedBytes(ds) == 0
  {
    if ds != [] {
      SackedZero(ds[1..]);
    }
  }

  lemma {:induction false} SackedAtMost(ds: seq<Desc>, lo: int, hi: int)
    requires Tiled(ds, lo, hi)
    ensures SackedBytes(ds) <= hi - lo
    decreases |ds|
  {
    if ds != [] {
      TiledTail(ds, lo, hi);
      SackedAtMost(ds[1..], ds[0].End(), hi);
    }
  }

  // ---- completions

  lemma PendingUnfold(ds: seq<Desc>)
    requires ds != []
    ensures Pending(ds) == Signal(ds[0]) + Pending(ds[1..])
  {
  }

  lemma PendingNone()
    ensures Pending([]) == []
  {
  }

  lemma {:induction false} PendingAppend(ds: seq<Desc>, es: seq<Desc>)
    ensures Pending(ds + es) == Pending(ds) + Pending(es)
  {
    hide Pending;
    hide Signal;
    if ds == [] {
      PendingNone();
      assert ds + es == es;
    } else {
      PendingUnfold(ds);
      PendingUnfold(ds + es);
      PendingAppend(ds[1..], es);
      assert (ds + es)[1..] == ds[1..] + es;
      Associative(Signal(ds[0]), Pending(ds[1..]), Pending(es));
    }
  }

  /** What is pending ends beyond any number that the first descriptor ends beyond. */
  lemma {:induction false} PendingBeyond(ds: seq<Desc>, lo: int, hi: int, una: int)
    requires Tiled(ds, lo, hi) && (ds != [] ==> una < ds[0].End())
    ensures forall c | c in Pending(ds) :: una < c.end
    decreases |ds|
  {
    if ds != [] {
      TiledTail(ds, lo, hi);
      PendingBeyond(ds[1..], ds[0].End(), hi, una);
      PendingUnfold(ds);
    }
  }

  /** Only the marks may differ. */
  ghost predicate SameButMarks(ds: seq<Desc>, es: seq<Desc>) {
    |es| == |ds| && forall i | 0 <= i < |ds| :: es[i] == ds[i].(sacked := es[i].sacked)
  }

  lemma {:induction false} SamePending(ds: seq<Desc>, es: seq<Desc>)
    requires SameButMarks(ds, es)
    ensures Pending(es) == Pending(ds)
  {
    if ds != [] {
      assert SameButMarks(ds[1..], es[1..]);
      SamePending(ds[1..], es[1..]);
    }
  }

  lemma SameTiled(ds: seq<Desc>, es: seq<Desc>, lo: int, hi: int)
    requires SameButMarks(ds, es) && Tiled(ds, lo, hi)
    ensures Tiled(es, lo, hi)
  {
    forall i | 0 <= i < |es| ensures es[i].Len() > 0 && es[i].End() == Start(es, hi, i + 1) {
      assert ds[i].End() == Start(ds, hi, i + 1);
    }
  }
}
