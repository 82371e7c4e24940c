/** The options any peer may send: every list of options in the encoding of RFC 793, RFC 2018 and RFC 7323, with
    any values, is read for what it says (parse_tcp_opts of src/tcp/tcp_input.c). */
module PeerOptions {
  import opened SeqNum
  import opened Seqs
  import opened Scoreboard
  import opened TcpOptions

  /** One option; `Other` is one this code does not know. */
  datatype Item =
    | Pad
    | MaxSegment(v: u16)
    | WindowScale(w: u8)
    | SackPermitted
    | Sacks(bs: seq<Report>)
    | Timestamps(val: u32, ecr: u32)
    | Other(kind: u8, body: seq<u8>)

  /** What fits the encoding: a length has eight bits, and the kinds of the options above are taken. */
  predicate Sendable(i: Item) {
    match i
    case Sacks(bs) => |bs| <= 31
    case Other(kind, body) => kind !in {0, 1, 2, 3, 4, 5, 8} && |body| <= 253
    case _ => true
  }

  /** The encoding: kind, length, value, in network byte order. */
  function Encode(i: Item): (b: seq<u8>)
    requires Sendable(i)
    ensures |b| > 0
  {
    match i
    case Pad => [1]
    case MaxSegment(v) => [2, 4, v / 256, v % 256]
    case WindowScale(w) => [3, 3, w]
    case SackPermitted => [4, 2]
    case Sacks(bs) => [5, 2 + 8 * |bs|] + BlockBytes(bs)
    case Timestamps(val, ecr) => [8, 10] + (Be32(val) + Be32(ecr))
    case Other(kind, body) => [kind, 2 + |body|] + body
  }

  ghost predicate AllSendable(xs: seq<Item>) {
    forall k | 0 <= k < |xs| :: Sendable(xs[k])
  }

  function EncodeAll(xs: seq<Item>): seq<u8>
    requires AllSendable(xs)
  {
    if xs == [] then [] else assert Sendable(xs[0]); Encode(xs[0]) + EncodeAll(xs[1..])
  }

  /** What an option says, on top of what was said before it. */
  function Say(o: Opts, i: Item): Opts {
    match i
    case Pad => o
    case MaxSegment(v) => o.(mss := Some(v))
    case WindowScale(w) => o.(wscale := Some(Min(w, 14)))
    case SackPermitted => o.(sackPerm := true)
    case Sacks(bs) => o.(sacks := bs)
    case Timestamps(val, ecr) => o.(ts := Some(Stamp(val, ecr)))
    case Other(_, _) => o
  }

  function SayAll(o: Opts, xs: seq<Item>): Opts
    decreases |xs|
  {
    if xs == [] then o else SayAll(Say(o, xs[0]), xs[1..])
  }

  predicate HasOther(xs: seq<Item>) {
    exists k | 0 <= k < |xs| :: xs[k].Other?
  }

  /** No report of more than three blocks. */
  predicate Brief(xs: seq<Item>) {
    forall k | 0 <= k < |xs| && xs[k].Sacks? :: |xs[k].bs| <= 3
  }

  // ---- one option

  lemma HeadAt(p: seq<u8>, off: nat, kind: u8, n: u8, body: seq<u8>)
    requires At(p, off, [kind, n] + body)
    ensures off + 2 <= |p| && p[off] == kind && p[off + 1] == n && At(p, off + 2, body)
  {
    AtSplit(p, off, [kind, n], body);
    AtByte(p, off, [kind, n], 0);
    AtByte(p, off, [kind, n], 1);
  }

  /** An option with an acceptable length is taken over. */
  lemma ParseStep(p: seq<u8>, off: nat, len: nat, o: Opts, bad: bool, kind: u8, n: u8)
    requires len + 8 <= |p| && off + n <= len && n >= 2 && kind !in {0, 1} && p[off] == kind && p[off + 1] == n
    ensures
      var r := ParseOne(p, off, kind, n, o);
      Parse(p, off, len, o, bad) ==
        if r.None? then Err(o, InvalidLen) else Parse(p, off + n, len, r.value, bad || kind !in {2, 3, 4, 5, 8})
  {
  }

  /** What parse_tcp_opts makes of an option at `off`. */
  ghost predicate Parses(p: seq<u8>, off: nat, len: nat, o: Opts, bad: bool, i: Item)
    requires Sendable(i) && len + 8 <= |p|
  {
    Parse(p, off, len, o, bad) ==
      if i.Sacks? && |i.bs| > 3 then Err(o, InvalidLen)
      else Parse(p, off + |Encode(i)|, len, Say(o, i), bad || i.Other?)
  }

  ghost predicate Stands(p: seq<u8>, off: nat, len: nat, i: Item) {
    Sendable(i) && len + 8 <= |p| && At(p, off, Encode(i)) && off + |Encode(i)| <= len
  }

  lemma ShortParses(p: seq<u8>, off: nat, len: nat, o: Opts, bad: bool, i: Item)
    requires Stands(p, off, len, i) && (i.MaxSegment? || i.WindowScale? || i.SackPermitted?)
    ensures Parses(p, off, len, o, bad, i)
  {
    var b := Encode(i);
    AtByte(p, off, b, 0);
    AtByte(p, off, b, 1);
    if !i.SackPermitted? {
      AtByte(p, off, b, 2);
    }
    if i.MaxSegment? {
      AtByte(p, off, b, 3);
    }
    ParseStep(p, off, len, o, bad, b[0], b[1]);
    hide Parse;
  }

  lemma SacksParse(p: seq<u8>, off: nat, len: nat, o: Opts, bad: bool, i: Item)
    requires Stands(p, off, len, i) && i.Sacks?
    ensures Parses(p, off, len, o, bad, i)
  {
    hide Parse;
    hide At;
    hide BlockBytes;
    hide GetBlocks;
    var n: u8 := 2 + 8 * |i.bs|;
    HeadAt(p, off, 5, n, BlockBytes(i.bs));
    ParseStep(p, off, len, o, bad, 5, n);
    if |i.bs| <= 3 {
      BlocksAt(p, off + 2, i.bs);
    }
  }

  lemma TimestampsParse(p: seq<u8>, off: nat, len: nat, o: Opts, bad: bool, i: Item)
    requires Stands(p, off, len, i) && i.Timestamps?
    ensures Parses(p, off, len, o, bad, i)
  {
    hide Parse;
    hide At;
    hide Be32;
    var v, e := Be32(i.val), Be32(i.ecr);
    HeadAt(p, off, 8, 10, v + e);
    AtSplit(p, off + 2, v, e);
    ParseStep(p, off, len, o, bad, 8, 10);
    Get32At(p, off + 2, i.val);
    Get32At(p, off + 6, i.ecr);
  }

  lemma OtherParses(p: seq<u8>, off: nat, len: nat, o: Opts, bad: bool, i: Item)
    requires Stands(p, off, len, i) && i.Other?
    ensures Parses(p, off, len, o, bad, i)
  {
    hide Parse;
    hide At;
    HeadAt(p, off, i.kind, 2 + |i.body|, i.body);
    ParseStep(p, off, len, o, bad, i.kind, 2 + |i.body|);
  }

  lemma ItemParses(p: seq<u8>, off: nat, len: nat, o: Opts, bad: bool, i: Item)
    requires Stands(p, off, len, i)
    ensures Parses(p, off, len, o, bad, i)
  {
    match i
    case Pad => AtByte(p, off, [1], 0);
    case MaxSegment(_) =>
      hide Parses;
      ShortParses(p, off, len, o, bad, i);
    case WindowScale(_) =>
      hide Parses;
      ShortParses(p, off, len, o, bad, i);
    case SackPermitted =>
      hide Parses;
      ShortParses(p, off, len, o, bad, i);
    case Sacks(_) =>
      hide Parses;
      SacksParse(p, off, len, o, bad, i);
    case Timestamps(_, _) =>
      hide Parses;
      TimestampsParse(p, off, len, o, bad, i);
    case Other(_, _) =>
      hide Parses;
      OtherParses(p, off, len, o, bad, i);
  }

  // ---- every list of options

  lemma {:induction false} AllParse(p: seq<u8>, off: nat, len: nat, o: Opts, bad: bool, xs: seq<Item>)
    requires AllSendable(xs) && Brief(xs) && len + 8 <= |p| && At(p, off, EncodeAll(xs)) && off + |EncodeAll(xs)| <= len
    ensures Parse(p, off, len, o, bad) == Parse(p, off + |EncodeAll(xs)|, len, SayAll(o, xs), bad || HasOther(xs))
    decreases |xs|
  {
    hide Parse;
    hide At;
    hide Encode;
    hide Say;
    if xs != [] {
      var b, rest := Encode(xs[0]), EncodeAll(xs[1..]);
      assert EncodeAll(xs) == b + rest;
      AtSplit(p, off, b, rest);
      ItemParses(p, off, len, o, bad, xs[0]);
      AllParse(p, off + |b|, len, Say(o, xs[0]), bad || xs[0].Other?, xs[1..]);
      OtherCons(xs);
    }
  }

  lemma OtherCons(xs: seq<Item>)
    requires xs != []
    ensures HasOther(xs) <==> xs[0].Other? || HasOther(xs[1..])
  {
    if HasOther(xs[1..]) {
      var k :| 0 <= k < |xs[1..]| && xs[1..][k].Other?;
      assert xs[k + 1].Other?;
    }
    if HasOther(xs) && !xs[0].Other? {
      var k :| 0 <= k < |xs| && xs[k].Other?;
      assert xs[1..][k - 1].Other?;
    }
  }

  /** Every list of options is read for what it says, whatever follows it in the packet; an option that is not
      known is passed over, and reported. */
  lemma AnyOptions(xs: seq<Item>, rest: seq<u8>)
    requires AllSendable(xs) && Brief(xs) && |rest| >= 8
    ensures
      var o := SayAll(NO_OPTS, xs);
      Parse(EncodeAll(xs) + rest, 0, |EncodeAll(xs)|, NO_OPTS, false) == if HasOther(xs) then Err(o, InvalidType) else Ok(o)
  {
    var p, len := EncodeAll(xs) + rest, |EncodeAll(xs)|;
    assert At(p, 0, EncodeAll(xs));
    AllParse(p, 0, len, NO_OPTS, false, xs);
  }

  /** An end-of-options byte ends them. */
  lemma OptionsEnd(xs: seq<Item>, rest: seq<u8>, len: nat)
    requires AllSendable(xs) && Brief(xs) && |EncodeAll(xs)| < len && len + 8 <= |EncodeAll(xs) + [0] + rest|
    ensures Parse(EncodeAll(xs) + [0] + rest, 0, len, NO_OPTS, false) == Ok(SayAll(NO_OPTS, xs))
  {
    var p := EncodeAll(xs) + [0] + rest;
    assert At(p, 0, EncodeAll(xs));
    AllParse(p, 0, len, NO_OPTS, false, xs);
  }

  /** A report of more than three blocks, which section 3 of RFC 2018 allows without timestamps, ends the parsing:
      what was said before it stays. */
  lemma TooManyBlocks(xs: seq<Item>, bs: seq<Report>, rest: seq<u8>)
    requires AllSendable(xs) && Brief(xs) && 3 < |bs| <= 31 && |rest| >= 8
    ensures
      var b := EncodeAll(xs) + Encode(Sacks(bs));
      Parse(b + rest, 0, |b|, NO_OPTS, false) == Err(SayAll(NO_OPTS, xs), InvalidLen)
  {
    hide Parse;
    hide Encode;
    var a, c := EncodeAll(xs), Encode(Sacks(bs));
    var p, len := a + c + rest, |a + c|;
    assert At(p, 0, a) && At(p, |a|, c);
    AllParse(p, 0, len, NO_OPTS, false, xs);
    ItemParses(p, |a|, len, SayAll(NO_OPTS, xs), HasOther(xs), Sacks(bs));
  }
}
