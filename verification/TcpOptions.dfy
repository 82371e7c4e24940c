/** TCP options: what the sender writes (calc_tcp_opt_len and fill_opts of src/tcp/tcp_output.c) and
    what the receiver reads (parse_tcp_opts of src/tcp/tcp_input.c). */
module TcpOptions {
  import opened SeqNum
  import opened Seqs
  import opened Scoreboard

  const EOL := 0
  const NOP := 1
  const MSS := 2
  const WSCALE := 3
  const SACK_PERM := 4
  const SACK := 5
  const TS := 8
  const WSCALE_DEFAULT := 10
  const WSCALE_MAX := 14
  const MAX_SACK := 3

  // ---- bytes

  function Be16(x: u16): (b: seq<u8>)
    ensures |b| == 2
  {
    [x / 0x100, x % 0x100]
  }

  function Be32(x: u32): (b: seq<u8>)
    ensures |b| == 4
  {
    [x / 0x100_0000, x / 0x1_0000 % 0x100, x / 0x100 % 0x100, x % 0x100]
  }

  function Get16(p: seq<u8>, i: nat): u16
    requires i + 2 <= |p|
  {
    var hi: int, lo: int := p[i], p[i + 1];
    hi * 0x100 + lo
  }

  function Get32(p: seq<u8>, i: nat): u32
    requires i + 4 <= |p|
  {
    var a: int, b: int, c: int, d: int := p[i], p[i + 1], p[i + 2], p[i + 3];
    a * 0x100_0000 + b * 0x1_0000 + c * 0x100 + d
  }

  /** `b` stands at `i`. */
  predicate At(p: seq<u8>, i: nat, b: seq<u8>) {
    i + |b| <= |p| && p[i..i + |b|] == b
  }

  lemma AtSplit(p: seq<u8>, i: nat, a: seq<u8>, b: seq<u8>)
    requires At(p, i, a + b)
    ensures At(p, i, a) && At(p, i + |a|, b)
  {
    var s := p[i..i + |a| + |b|];
    assert p[i..i + |a|] == s[..|a|] && p[i + |a|..i + |a| + |b|] == s[|a|..];
  }

  lemma AtByte(p: seq<u8>, i: nat, b: seq<u8>, k: nat)
    requires At(p, i, b) && k < |b|
    ensures p[i + k] == b[k]
  {
    assert p[i..i + |b|][k] == b[k];
  }

  lemma Get16At(p: seq<u8>, i: nat, x: u16)
    requires At(p, i, Be16(x))
    ensures Get16(p, i) == x
  {
    AtByte(p, i, Be16(x), 0);
    AtByte(p, i, Be16(x), 1);
  }

  lemma Get32At(p: seq<u8>, i: nat, x: u32)
    requires At(p, i, Be32(x))
    ensures Get32(p, i) == x
  {
    var b := Be32(x);
    AtByte(p, i, b, 0);
    AtByte(p, i, b, 1);
    AtByte(p, i, b, 2);
    AtByte(p, i, b, 3);
    hide At;
    Digits(x);
  }

  lemma Digits(x: u32)
    ensures x == (x / 0x100_0000) * 0x100_0000 + (x / 0x1_0000 % 0x100) * 0x1_0000 + (x / 0x100 % 0x100) * 0x100 + x % 0x100
  {
    var a, b := x / 0x100, x / 0x1_0000;
    assert a / 0x100 == b && b / 0x100 == x / 0x100_0000;
    assert x == a * 0x100 + x % 0x100;
    assert a == b * 0x100 + a % 0x100;
    assert b == (b / 0x100) * 0x100 + b % 0x100;
  }

  // ---- parsing

  datatype Stamp = Stamp(val: u32, ecr: u32)

  datatype Opts = Opts(mss: Option<u16>, wscale: Option<u8>, ts: Option<Stamp>, sackPerm: bool, sacks: seq<Report>)

  const NO_OPTS := Opts(None, None, None, false, [])

  datatype Error = InvalidLen | InvalidType

  /** What is left in the caller's record, which uses it after an error too. */
  datatype Parsed = Ok(opts: Opts) | Err(opts: Opts, error: Error)

  /** The `n` blocks from `i` on. */
  function GetBlocks(p: seq<u8>, i: nat, n: nat): (bs: seq<Report>)
    requires i + 8 * n <= |p|
    ensures |bs| == n
    decreases n
  {
    if n == 0 then [] else [Report(Get32(p, i), Get32(p, i + 4))] + GetBlocks(p, i + 8, n - 1)
  }

  /** One option that is neither EOL nor NOP and whose length is acceptable. */
  function ParseOne(p: seq<u8>, off: nat, kind: u8, len: u8, o: Opts): (r: Option<Opts>)
    requires len >= 2 && off + len <= |p| && off + 10 <= |p|
  {
    if kind == MSS then Some(o.(mss := Some(Get16(p, off + 2))))
    else if kind == WSCALE then Some(o.(wscale := Some(if p[off + 2] > WSCALE_MAX then WSCALE_MAX else p[off + 2])))
    else if kind == TS then Some(o.(ts := Some(Stamp(Get32(p, off + 2), Get32(p, off + 6)))))
    else if kind == SACK_PERM then Some(o.(sackPerm := true))
    else if kind == SACK then
      if len > 2 + 8 * MAX_SACK || (len - 2) % 8 != 0 then None
      else Some(o.(sacks := GetBlocks(p, off + 2, (len - 2) / 8)))
    else Some(o)
  }

  predicate Known(kind: u8) { kind == MSS || kind == WSCALE || kind == TS || kind == SACK_PERM || kind == SACK }

  /** parse_tcp_opts from `off` on, with `o` parsed so far; `bad` says that an option of an unknown
      kind was met.  The option area may be followed by other bytes of the packet, which a length
      that is too short makes the code read. */
  function Parse(p: seq<u8>, off: nat, len: nat, o: Opts, bad: bool): (r: Parsed)
    requires len + 8 <= |p|
    decreases if off < len then len - off else 0
  {
    if off >= len then if bad then Err(o, InvalidType) else Ok(o)
    else if p[off] == EOL then Ok(o)
    else if p[off] == NOP then Parse(p, off + 1, len, o, bad)
    else if p[off + 1] < 2 || off + p[off + 1] > len then Err(o, InvalidLen)
    else
      var o' := ParseOne(p, off, p[off], p[off + 1], o);
      if o'.None? then Err(o, InvalidLen)
      else Parse(p, off + p[off + 1], len, o'.value, bad || !Known(p[off]))
  }

  predicate Bounded(o: Opts) {
    |o.sacks| <= MAX_SACK && (o.wscale.Some? ==> o.wscale.value <= WSCALE_MAX)
  }

  /** Never more than three SACK blocks and never a window scale above the maximum, whatever comes in,
      and also when the parser gives up. */
  lemma {:induction false} ParseBounded(p: seq<u8>, off: nat, len: nat, o: Opts, bad: bool)
    requires len + 8 <= |p| && Bounded(o)
    ensures Bounded(Parse(p, off, len, o, bad).opts)
    decreases if off < len then len - off else 0
  {
    if off < len && p[off] != EOL {
      if p[off] == NOP {
        ParseBounded(p, off + 1, len, o, bad);
      } else if !(p[off + 1] < 2 || off + p[off + 1] > len) {
        var o' := ParseOne(p, off, p[off], p[off + 1], o);
        if o'.Some? {
          ParseBounded(p, off + p[off + 1], len, o'.value, bad || !Known(p[off]));
        }
      }
    }
  }

  // ---- what the sender writes

  /** What decides which options a packet carries: a SYN or not, a timestamp, the MSS to announce,
      whether window scaling and SACK are offered, the blocks to report. */
  datatype Choice = Choice(syn: bool, ts: Option<u32>, mss: u16, ws: bool, sackPerm: bool, blocks: seq<Report>)

  /** calc_tcp_opt_len. */
  function OptLen(c: Choice): nat {
    (if c.ts.Some? then 12 else 0) +
    (if c.syn then 4 + (if c.ws then 4 else 0) + (if c.sackPerm then 4 else 0)
     else if c.blocks != [] then 4 + 8 * |c.blocks| else 0)
  }

  function TsBytes(c: Choice): seq<u8> {
    if c.ts.Some? then [NOP, NOP, TS, 10] + Be32(c.ts.value) + Be32(0) else []
  }

  function MssBytes(c: Choice): seq<u8> {
    if c.syn then [MSS, 4] + Be16(c.mss) else []
  }

  function WscaleBytes(c: Choice): seq<u8> {
    if c.syn && c.ws then [WSCALE, 3, WSCALE_DEFAULT, NOP] else []
  }

  function PermBytes(c: Choice): seq<u8> {
    if c.syn && c.sackPerm then [SACK_PERM, 2, NOP, NOP] else []
  }

  function BlockBytes(bs: seq<Report>): (b: seq<u8>)
    ensures |b| == 8 * |bs|
  {
    if bs == [] then [] else Be32(bs[0].start) + Be32(bs[0].end) + BlockBytes(bs[1..])
  }

  function SackBytes(c: Choice): seq<u8>
    requires |c.blocks| <= MAX_SACK
  {
    if !c.syn && c.blocks != [] then [NOP, NOP, SACK, 2 + 8 * |c.blocks|] + BlockBytes(c.blocks) else []
  }

  /** fill_opts. */
  function OptBytes(c: Choice): seq<u8>
    requires |c.blocks| <= MAX_SACK
  {
    TsBytes(c) + (MssBytes(c) + (WscaleBytes(c) + (PermBytes(c) + SackBytes(c))))
  }

  /** What the peer should understand. */
  function Meaning(c: Choice): Opts {
    Opts(if c.syn then Some(c.mss) else None, if c.syn && c.ws then Some(WSCALE_DEFAULT) else None,
         if c.ts.Some? then Some(Stamp(c.ts.value, 0)) else None, c.syn && c.sackPerm, if c.syn then [] else c.blocks)
  }

  /** The options fill exactly the space computed for them, a multiple of four bytes and at most
      the forty that a TCP header has. */
  lemma OptLenExact(c: Choice)
    requires |c.blocks| <= MAX_SACK
    ensures |OptBytes(c)| == OptLen(c) && OptLen(c) % 4 == 0 && OptLen(c) <= 40
  {
  }

  // ---- the round trip

  lemma ParseNop(p: seq<u8>, off: nat, len: nat, o: Opts)
    requires len + 8 <= |p| && off < len && p[off] == NOP
    ensures Parse(p, off, len, o, false) == Parse(p, off + 1, len, o, false)
  {
  }

  /** A known option of length `n` is taken over. */
  lemma ParseKnown(p: seq<u8>, off: nat, len: nat, o: Opts, kind: u8, n: u8)
    requires len + 8 <= |p| && off + n <= len && n >= 2 && Known(kind) && At(p, off, [kind, n])
    requires kind == SACK ==> n <= 2 + 8 * MAX_SACK && (n - 2) % 8 == 0
    ensures var r := ParseOne(p, off, kind, n, o);
            r.Some? && Parse(p, off, len, o, false) == Parse(p, off + n, len, r.value, false)
  {
    AtByte(p, off, [kind, n], 0);
    AtByte(p, off, [kind, n], 1);
  }

  lemma TsParses(p: seq<u8>, off: nat, len: nat, c: Choice, o: Opts)
    requires len + 8 <= |p| && off + |TsBytes(c)| <= len && At(p, off, TsBytes(c))
    ensures Parse(p, off, len, o, false) ==
            Parse(p, off + |TsBytes(c)|, len, if c.ts.Some? then o.(ts := Some(Stamp(c.ts.value, 0))) else o, false)
  {
    hide Parse;
    hide At;
    hide Be32;
    if c.ts.Some? {
      var v, e := Be32(c.ts.value), Be32(0);
      assert TsBytes(c) == [NOP, NOP] + ([TS, 10] + (v + e));
      NopsParse(p, off, len, o, [TS, 10] + (v + e));
      AtSplit(p, off + 2, [TS, 10], v + e);
      AtSplit(p, off + 4, v, e);
      ParseKnown(p, off + 2, len, o, TS, 10);
      Get32At(p, off + 4, c.ts.value);
      Get32At(p, off + 8, 0);
    }
  }

  /** Two NOPs in front of an option are passed over. */
  lemma NopsParse(p: seq<u8>, off: nat, len: nat, o: Opts, rest: seq<u8>)
    requires len + 8 <= |p| && off + 2 <= len && At(p, off, [NOP, NOP] + rest)
    ensures At(p, off + 2, rest) && Parse(p, off, len, o, false) == Parse(p, off + 2, len, o, false)
  {
    hide Parse;
    hide At;
    AtSplit(p, off, [NOP, NOP], rest);
    AtByte(p, off, [NOP, NOP], 0);
    AtByte(p, off, [NOP, NOP], 1);
    ParseNop(p, off, len, o);
    ParseNop(p, off + 1, len, o);
  }

  lemma MssParses(p: seq<u8>, off: nat, len: nat, c: Choice, o: Opts)
    requires len + 8 <= |p| && off + |MssBytes(c)| <= len && At(p, off, MssBytes(c))
    ensures Parse(p, off, len, o, false) ==
            Parse(p, off + |MssBytes(c)|, len, if c.syn then o.(mss := Some(c.mss)) else o, false)
  {
    hide Parse;
    hide Be16;
    if c.syn {
      AtSplit(p, off, [MSS, 4], Be16(c.mss));
      hide At;
      ParseKnown(p, off, len, o, MSS, 4);
      Get16At(p, off + 2, c.mss);
    }
  }

  lemma WscaleParses(p: seq<u8>, off: nat, len: nat, c: Choice, o: Opts)
    requires len + 8 <= |p| && off + |WscaleBytes(c)| <= len && At(p, off, WscaleBytes(c))
    ensures Parse(p, off, len, o, false) ==
            Parse(p, off + |WscaleBytes(c)|, len, if c.syn && c.ws then o.(wscale := Some(WSCALE_DEFAULT)) else o, false)
  {
    hide Parse;
    if c.syn && c.ws {
      assert WscaleBytes(c) == [WSCALE, 3] + [WSCALE_DEFAULT, NOP];
      AtSplit(p, off, [WSCALE, 3], [WSCALE_DEFAULT, NOP]);
      AtByte(p, off + 2, [WSCALE_DEFAULT, NOP], 0);
      AtByte(p, off + 2, [WSCALE_DEFAULT, NOP], 1);
      ParseKnown(p, off, len, o, WSCALE, 3);
      ParseNop(p, off + 3, len, o.(wscale := Some(WSCALE_DEFAULT)));
    }
  }

  lemma PermParses(p: seq<u8>, off: nat, len: nat, c: Choice, o: Opts)
    requires len + 8 <= |p| && off + |PermBytes(c)| <= len && At(p, off, PermBytes(c))
    ensures Parse(p, off, len, o, false) ==
            Parse(p, off + |PermBytes(c)|, len, if c.syn && c.sackPerm then o.(sackPerm := true) else o, false)
  {
    hide Parse;
    if c.syn && c.sackPerm {
      assert PermBytes(c) == [SACK_PERM, 2] + [NOP, NOP];
      AtSplit(p, off, [SACK_PERM, 2], [NOP, NOP]);
      AtByte(p, off + 2, [NOP, NOP], 0);
      AtByte(p, off + 2, [NOP, NOP], 1);
      ParseKnown(p, off, len, o, SACK_PERM, 2);
      ParseNop(p, off + 2, len, o.(sackPerm := true));
      ParseNop(p, off + 3, len, o.(sackPerm := true));
    }
  }

  lemma {:induction false} BlocksAt(p: seq<u8>, i: nat, bs: seq<Report>)
    requires At(p, i, BlockBytes(bs))
    ensures i + 8 * |bs| <= |p| && GetBlocks(p, i, |bs|) == bs
    decreases |bs|
  {
    if bs != [] {
      var a, b, rest := Be32(bs[0].start), Be32(bs[0].end), BlockBytes(bs[1..]);
      hide Be32;
      assert BlockBytes(bs) == a + (b + rest);
      AtSplit(p, i, a, b + rest);
      AtSplit(p, i + 4, b, rest);
      hide At;
      Get32At(p, i, bs[0].start);
      Get32At(p, i + 4, bs[0].end);
      BlocksAt(p, i + 8, bs[1..]);
    }
  }

  lemma SackParses(p: seq<u8>, off: nat, len: nat, c: Choice, o: Opts)
    requires |c.blocks| <= MAX_SACK
    requires len + 8 <= |p| && off + |SackBytes(c)| <= len && At(p, off, SackBytes(c))
    ensures Parse(p, off, len, o, false) ==
            Parse(p, off + |SackBytes(c)|, len, if !c.syn && c.blocks != [] then o.(sacks := c.blocks) else o, false)
  {
    hide Parse;
    hide At;
    hide BlockBytes;
    hide GetBlocks;
    if !c.syn && c.blocks != [] {
      var n: u8 := 2 + 8 * |c.blocks|;
      var bytes := BlockBytes(c.blocks);
      assert SackBytes(c) == [NOP, NOP] + ([SACK, n] + bytes);
      NopsParse(p, off, len, o, [SACK, n] + bytes);
      AtSplit(p, off + 2, [SACK, n], bytes);
      ParseKnown(p, off + 2, len, o, SACK, n);
      BlocksAt(p, off + 4, c.blocks);
    }
  }

  /** Whatever options the sender chooses, the parser accepts them and gets their meaning back,
      whatever follows them in the packet. */
  lemma RoundTrip(c: Choice, rest: seq<u8>)
    requires |c.blocks| <= MAX_SACK && |rest| >= 8
    ensures Parse(OptBytes(c) + rest, 0, |OptBytes(c)|, NO_OPTS, false) == Ok(Meaning(c))
  {
    hide At;
    hide Parse;
    hide TsBytes;
    hide MssBytes;
    hide WscaleBytes;
    hide PermBytes;
    hide SackBytes;
    var t, m, w, k := |TsBytes(c)|, |MssBytes(c)|, |WscaleBytes(c)|, |PermBytes(c)|;
    var p, len := OptBytes(c) + rest, |OptBytes(c)|;
    Places(c, rest);
    TsParses(p, 0, len, c, NO_OPTS);
    var o1 := if c.ts.Some? then NO_OPTS.(ts := Some(Stamp(c.ts.value, 0))) else NO_OPTS;
    MssParses(p, t, len, c, o1);
    var o2 := if c.syn then o1.(mss := Some(c.mss)) else o1;
    WscaleParses(p, t + m, len, c, o2);
    var o3 := if c.syn && c.ws then o2.(wscale := Some(WSCALE_DEFAULT)) else o2;
    PermParses(p, t + m + w, len, c, o3);
    var o4 := if c.syn && c.sackPerm then o3.(sackPerm := true) else o3;
    SackParses(p, t + m + w + k, len, c, o4);
    ParseEnd(p, len, Meaning(c));
  }

  lemma ParseEnd(p: seq<u8>, len: nat, o: Opts)
    requires len + 8 <= |p|
    ensures Parse(p, len, len, o, false) == Ok(o)
  {
  }

  /** Where each option stands. */
  lemma Places(c: Choice, rest: seq<u8>)
    requires |c.blocks| <= MAX_SACK
    ensures
      var p := OptBytes(c) + rest;
      var t, m, w, k, s := TsBytes(c), MssBytes(c), WscaleBytes(c), PermBytes(c), SackBytes(c);
      && At(p, 0, t) && At(p, |t|, m) && At(p, |t| + |m|, w) && At(p, |t| + |m| + |w|, k) && At(p, |t| + |m| + |w| + |k|, s)
      && |OptBytes(c)| == |t| + |m| + |w| + |k| + |s|
  {
    var t, m, w, k, s := TsBytes(c), MssBytes(c), WscaleBytes(c), PermBytes(c), SackBytes(c);
    hide TsBytes;
    hide MssBytes;
    hide WscaleBytes;
    hide PermBytes;
    hide SackBytes;
    var p := OptBytes(c) + rest;
    assert At(p, 0, t + (m + (w + (k + s))));
    hide At;
    AtSplit(p, 0, t, m + (w + (k + s)));
    AtSplit(p, |t|, m, w + (k + s));
    AtSplit(p, |t| + |m|, w, k + s);
    AtSplit(p, |t| + |m| + |w|, k, s);
  }
}
