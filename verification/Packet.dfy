/** Payload of a packet chain as a value: the pieces that are still to be read, one per mbuf. */
module Chains {
  import opened SeqNum

  type byte = u8

  type Chain = seq<seq<byte>>

  /** The bytes of a stream at the sequence numbers from `lo` up to `hi`. */
  ghost function Slice(stream: int -> byte, lo: int, hi: int): (r: seq<byte>)
    requires lo <= hi
    ensures |r| == hi - lo
  {
    seq(hi - lo, i => stream(lo + i))
  }

  function Bytes(c: Chain): seq<byte> {
    if c == [] then [] else c[0] + Bytes(c[1..])
  }

  predicate NoEmptyPiece(c: Chain) {
    forall i | 0 <= i < |c| :: c[i] != []
  }

  /** The chain without its first `n` bytes; pieces that vanish entirely are dropped. */
  function DropBytes(c: Chain, n: nat): (r: Chain)
    requires n <= |Bytes(c)|
  {
    if c == [] then []
    else if n < |c[0]| then [c[0][n..]] + c[1..]
    else DropBytes(c[1..], n - |c[0]|)
  }

  /** The first `n` bytes of the chain. */
  function TakeBytes(c: Chain, n: nat): (r: Chain)
    requires n <= |Bytes(c)|
  {
    if c == [] || n == 0 then []
    else if n < |c[0]| then [c[0][..n]]
    else [c[0]] + TakeBytes(c[1..], n - |c[0]|)
  }

  lemma {:induction false} DropBytesIsDrop(c: Chain, n: nat)
    requires n <= |Bytes(c)|
    ensures Bytes(DropBytes(c, n)) == Bytes(c)[n..]
    ensures NoEmptyPiece(c) ==> NoEmptyPiece(DropBytes(c, n))
    ensures |DropBytes(c, n)| <= |c|
  {
    if c == [] {
    } else if n < |c[0]| {
      var r := [c[0][n..]] + c[1..];
      assert r[0] == c[0][n..] && r[1..] == c[1..];
    } else {
      DropBytesIsDrop(c[1..], n - |c[0]|);
      var t := Bytes(c[1..]);
      assert (c[0] + t)[n..] == t[n - |c[0]|..];
    }
  }

  lemma {:induction false} TakeBytesIsTake(c: Chain, n: nat)
    requires n <= |Bytes(c)|
    ensures Bytes(TakeBytes(c, n)) == Bytes(c)[..n]
    ensures NoEmptyPiece(c) ==> NoEmptyPiece(TakeBytes(c, n))
    ensures |TakeBytes(c, n)| <= |c|
  {
    if c == [] || n == 0 {
    } else if n < |c[0]| {
      assert TakeBytes(c, n)[1..] == [];
      assert Bytes(c)[..n] == c[0][..n];
    } else {
      TakeBytesIsTake(c[1..], n - |c[0]|);
      var t := TakeBytes(c[1..], n - |c[0]|);
      assert ([c[0]] + t)[1..] == t;
      assert Bytes(c)[..n] == c[0] + Bytes(c[1..])[..n - |c[0]|];
    }
  }

  lemma BytesUnfold(c: Chain)
    ensures Bytes(c) == if c == [] then [] else c[0] + Bytes(c[1..])
  {
  }

  lemma {:induction false} BytesConcat(a: Chain, b: Chain)
    ensures Bytes(a + b) == Bytes(a) + Bytes(b)
  {
    hide Bytes;
    BytesUnfold(a);
    if a == [] {
      assert a + b == b;
    } else {
      BytesConcat(a[1..], b);
      BytesUnfold(a + b);
      assert (a + b)[1..] == a[1..] + b;
    }
  }

  lemma BytesSingle(p: seq<byte>)
    ensures Bytes([p]) == p
  {
    assert [p][1..] == [];
  }

  /** A chain without empty pieces has at least as many bytes as pieces. */
  lemma {:induction false} BytesAtLeastPieces(c: Chain)
    requires NoEmptyPiece(c)
    ensures |Bytes(c)| >= |c|
  {
    if c != [] {
      BytesAtLeastPieces(c[1..]);
    }
  }
}

/** Packets (include/packet.h): a chain of mbufs that is cut and merged in place.
    An mbuf is represented by the payload bytes its `l5_off` and `l5_len` delimit. */
module Packets {
  import opened SeqNum
  import opened Chains

  /** `nr_read_seg` is an `int8_t`. */
  const MAX_READ_SEG := 127

  /** `n` mbufs of `ms`, starting at index `from`, hold `len` bytes in non-empty pieces. */
  ghost predicate Holds(ms: Chain, from: nat, n: int, len: nat) {
    && 0 <= n && from + n <= |ms|
    && NoEmptyPiece(ms[from..])
    && |Bytes(ms[from..from + n])| == len
  }

  /** The scan both cuts start with: skip the mbufs that `size` bytes cover entirely. */
  method SkipPieces(ms: Chain, from: nat, ghost end: nat, size: nat) returns (i: nat, rest: nat)
    requires from <= end <= |ms| && NoEmptyPiece(ms[from..])
    requires size <= |Bytes(ms[from..end])|
    ensures from <= i <= end
    ensures if i == end then rest == 0 else rest < |ms[i]|
    ensures DropBytes(ms[from..end], size) ==
            if i == end then [] else [ms[i][rest..]] + ms[i + 1..end]
    ensures TakeBytes(ms[from..end], size) ==
            ms[from..i] + if rest == 0 then [] else [ms[i][..rest]]
  {
    i, rest := from, size;
    while i < |ms| && rest >= |ms[i]|
      invariant from <= i <= end
      invariant rest <= |Bytes(ms[i..end])|
      invariant DropBytes(ms[from..end], size) == DropBytes(ms[i..end], rest)
      invariant TakeBytes(ms[from..end], size) == ms[from..i] + TakeBytes(ms[i..end], rest)
    {
      assert ms[i] == ms[from..][i - from];
      SkipOne(ms, from, i, end, rest);
      rest := rest - |ms[i]|;
      i := i + 1;
    }
    if i < end {
      assert ms[i..end][1..] == ms[i + 1..end];
    } else {
      assert ms[i..end] == [];
    }
  }

  lemma SkipOne(ms: Chain, from: nat, i: nat, end: nat, rest: nat)
    requires from <= i <= end <= |ms| && i < |ms|
    requires 0 < |ms[i]| <= rest <= |Bytes(ms[i..end])|
    ensures i < end
    ensures rest - |ms[i]| <= |Bytes(ms[i + 1..end])|
    ensures DropBytes(ms[i..end], rest) == DropBytes(ms[i + 1..end], rest - |ms[i]|)
    ensures ms[from..i] + TakeBytes(ms[i..end], rest) ==
            ms[from..i + 1] + TakeBytes(ms[i + 1..end], rest - |ms[i]|)
  {
    hide DropBytes;
    hide TakeBytes;
    assert i < end;
    hide Bytes;
    var c := ms[i..end];
    assert c[0] == ms[i] && c[1..] == ms[i + 1..end];
    FirstPieceCovered(c, rest);
    var t := TakeBytes(c[1..], rest - |c[0]|);
    assert ms[from..i + 1] == ms[from..i] + [c[0]];
    assert ms[from..i] + ([c[0]] + t) == (ms[from..i] + [c[0]]) + t;
  }

  lemma FirstPieceCovered(c: Chain, n: nat)
    requires c != [] && 0 < n && |c[0]| <= n <= |Bytes(c)|
    ensures n - |c[0]| <= |Bytes(c[1..])|
    ensures DropBytes(c, n) == DropBytes(c[1..], n - |c[0]|)
    ensures TakeBytes(c, n) == [c[0]] + TakeBytes(c[1..], n - |c[0]|)
  {
  }

  /** tcp_packet_cut_head: the new chain, and which mbufs of it are still to be read. */
  method CutHeadChain(ms: Chain, from: nat, n: nat, size: nat) returns (ms': Chain, from': nat, n': nat)
    requires from + n <= |ms| && NoEmptyPiece(ms[from..])
    requires size <= |Bytes(ms[from..from + n])|
    ensures from' + n' <= |ms'| && n' <= n && NoEmptyPiece(ms'[from'..])
    ensures ms'[from'..from' + n'] == DropBytes(ms[from..from + n], size)
  {
    hide Bytes;
    hide DropBytes;
    hide TakeBytes;
    var rest;
    ghost var end := from + n;
    from', rest := SkipPieces(ms, from, end, size);
    ms', n' := ms, n - (from' - from);
    if rest != 0 {
      ms' := ms[from' := ms[from'][rest..]];
    }
    if from' < end {
      assert ms'[from'..end] == [ms'[from']] + ms'[from' + 1..end];
    }
    forall j | 0 <= j < |ms'[from'..]| ensures ms'[from'..][j] != [] {
      assert ms[from..][j + from' - from] != [];
    }
  }

  /** tcp_packet_cut_tail, keeping `size` bytes. */
  method CutTailChain(ms: Chain, from: nat, ghost n: nat, size: nat) returns (ms': Chain, n': nat)
    requires from + n <= |ms| && NoEmptyPiece(ms[from..])
    requires size <= |Bytes(ms[from..from + n])|
    ensures from + n' <= |ms'| && n' <= n && NoEmptyPiece(ms'[from..])
    ensures ms'[from..from + n'] == TakeBytes(ms[from..from + n], size)
  {
    hide Bytes;
    hide DropBytes;
    hide TakeBytes;
    var i, rest := SkipPieces(ms, from, from + n, size);
    ms', n' := ms, i - from;
    if rest != 0 {
      ms', n' := ms[i := ms[i][..rest]], n' + 1;
      assert ms'[from..from + n'] == ms[from..i] + [ms'[i]];
    }
    forall j | 0 <= j < |ms'[from..]| ensures ms'[from..][j] != [] {
      assert ms[from..][j] != [];
    }
  }

  /** The loop of pkt_to_iov: up to `room` of the `n` pieces from `from` on, which hold `total`
      bytes; also how many bytes are left. */
  method TakePieces(ms: Chain, from: nat, ghost n: nat, room: nat, total: nat) returns (out: Chain, left: nat)
    requires from + n <= |ms| && NoEmptyPiece(ms[from..from + n]) && total == |Bytes(ms[from..from + n])|
    ensures |out| == (if room < n then room else n) && out == ms[from..from + n][..|out|]
    ensures left == |Bytes(ms[from..from + n][|out|..])| <= total
    ensures left == 0 ==> |out| == n
  {
    hide Bytes;
    out, left := [], total;
    BytesUnfold(ms[from..from + n]);
    while left > 0 && |out| < room
      invariant |out| <= n && |out| <= room && out == ms[from..from + |out|]
      invariant left == |Bytes(ms[from + |out|..from + n])| <= total
      decreases n - |out|
    {
      var i := from + |out|;
      ghost var c := ms[i..from + n];
      BytesUnfold(c);
      assert c != [];
      assert c[0] == ms[i] && c[1..] == ms[i + 1..from + n];
      left := left - |ms[i]|;
      out := out + [ms[i]];
    }
    ghost var rest := ms[from + |out|..from + n];
    assert rest == ms[from..from + n][|out|..];
    if left == 0 {
      assert forall j | 0 <= j < |rest| :: rest[j] == ms[from..from + n][|out| + j];
      EmptyPayload(rest);
    }
  }

  lemma RestOfPieces(ms: Chain, from: nat, n: nat, k: nat)
    requires from + n <= |ms| && k <= n && NoEmptyPiece(ms[from..])
    ensures NoEmptyPiece(ms[from + k..]) && ms[from..from + n][k..] == ms[from + k..from + n]
  {
    var rest := ms[from + k..];
    forall j | 0 <= j < |rest| ensures rest[j] != [] {
      assert rest[j] == ms[from..][k + j];
    }
  }

  class Packet {
    var seqno: u32
    var len: u16
    var chain: Chain
    var toRead: nat
    var nrReadSeg: int

    /** The unbounded sequence number of the first byte. */
    ghost var start: int
    /** How many pieces were handed to the application and not given back. */
    ghost var lent: nat

    ghost predicate Valid()
      reads this
    {
      && seqno == Wrap(start)
      && lent <= nrReadSeg <= MAX_READ_SEG
      && (len > 0 ==> Holds(chain, toRead, nrReadSeg - lent, len))
    }

    /** The payload still to be read. */
    ghost function Payload(): (c: Chain)
      reads this
      requires Valid()
      ensures |Bytes(c)| == len
      ensures NoEmptyPiece(c)
    {
      if len == 0 then [] else chain[toRead..toRead + (nrReadSeg - lent)]
    }

    /** A packet as it comes from parse_tcp_packet: one mbuf. */
    constructor (seqno: u32, piece: seq<byte>, ghost start: int)
      requires |piece| < M16
      requires seqno == Wrap(start)
      ensures Valid() && this.start == start && this.seqno == seqno && len == |piece|
      ensures toRead == 0 && chain == [piece] && nrReadSeg == 1 && lent == 0
      ensures Payload() == if piece == [] then [] else [piece]
    {
      this.seqno, this.len, this.chain, this.toRead, this.nrReadSeg := seqno, |piece|, [piece], 0, 1;
      this.start, this.lent := start, 0;
      BytesSingle(piece);
    }

    /** tcp_packet_cut(pkt, size, CUT_HEAD). */
    method CutHead(size: nat)
      requires Valid() && lent == 0
      requires 0 < size <= len
      modifies this
      ensures Valid() && lent == 0
      ensures len == old(len) - size
      ensures start == old(start) + size
      ensures Payload() == DropBytes(old(Payload()), size)
    {
      hide Bytes;
      hide DropBytes;
      ghost var c := Payload();
      DropBytesIsDrop(c, size);
      WrapAdd(start, size);
      seqno := Wrap(seqno + size);
      start := start + size;
      chain, toRead, nrReadSeg := CutHeadChain(chain, toRead, nrReadSeg, size);
      len := len - size;
      if len == 0 {
        EmptyPayload(DropBytes(c, size));
      }
    }

    /** tcp_packet_cut(pkt, size, CUT_TAIL). */
    method CutTail(size: nat)
      requires Valid() && lent == 0
      requires 0 < size <= len
      modifies this
      ensures Valid() && lent == 0
      ensures len == old(len) - size
      ensures start == old(start) && seqno == old(seqno)
      ensures Payload() == TakeBytes(old(Payload()), old(len) - size)
    {
      hide Bytes;
      hide TakeBytes;
      ghost var c := Payload();
      TakeBytesIsTake(c, len - size);
      chain, nrReadSeg := CutTailChain(chain, toRead, nrReadSeg, len - size);
      len := len - size;
      if len == 0 {
        EmptyPayload(TakeBytes(c, 0));
      }
    }

    /** packet_chain: append the payload of a packet that follows this one directly. */
    method Append(piece: seq<byte>)
      requires Valid() && lent == 0 && 0 < len && toRead == 0 && nrReadSeg == |chain|
      requires piece != [] && len + |piece| < M16
      requires nrReadSeg < MAX_READ_SEG
      modifies this
      ensures Valid() && lent == 0 && toRead == 0 && nrReadSeg == |chain| == old(nrReadSeg) + 1
      ensures start == old(start) && seqno == old(seqno)
      ensures len == old(len) + |piece|
      ensures Payload() == old(Payload()) + [piece]
    {
      BytesConcat(chain, [piece]);
      BytesSingle(piece);
      assert chain[0..nrReadSeg] == chain;
      chain := chain + [piece];
      len := len + |piece|;
      nrReadSeg := nrReadSeg + 1;
      assert chain[0..nrReadSeg] == chain;
    }

    /** Every piece is either still to be read or with the application. */
    ghost predicate ReadStage()
      reads this
    {
      Valid() && nrReadSeg == lent + |Payload()|
    }

    /** pkt_to_iov: hand out up to `room` pieces. */
    method ReadPieces(room: nat) returns (out: seq<seq<byte>>)
      requires Valid() && len > 0
      modifies this
      ensures ReadStage()
      ensures var c := old(Payload()); var k := if room < |c| then room else |c|;
              && out == c[..k] && Payload() == c[k..] && lent == old(lent) + k
      ensures start == old(start) && seqno == old(seqno)
    {
      hide Bytes;
      hide NoEmptyPiece;
      ghost var c := Payload();
      assert |c| == nrReadSeg - lent && c == chain[toRead..toRead + |c|];
      var left;
      out, left := TakePieces(chain, toRead, nrReadSeg - lent, room, len);
      var k := |out|;
      len := left;
      lent := lent + k;
      if len > 0 {
        toRead := toRead + k;
        RestOfPieces(chain, old(toRead), |c|, k);
      } else {
        assert c[k..] == [];
      }
    }

    /** iov_buf_free: the application gives a piece back; the packet is freed exactly when that
        was the last piece lent and none is left to read. */
    method ReadDone() returns (freed: bool)
      requires ReadStage() && lent > 0
      modifies this`nrReadSeg, this`lent
      ensures ReadStage() && Payload() == old(Payload()) && lent == old(lent) - 1
      ensures freed <==> lent == 0 && Payload() == []
    {
      hide Bytes;
      hide Holds;
      nrReadSeg := nrReadSeg - 1;
      lent := lent - 1;
      freed := nrReadSeg == 0;
    }
  }

  lemma EmptyPayload(c: Chain)
    requires NoEmptyPiece(c) && |Bytes(c)| == 0
    ensures c == []
  {
    BytesAtLeastPieces(c);
  }
}
