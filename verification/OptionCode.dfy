/** The option code of src/tcp/tcp_output.c and src/tcp/tcp_input.c, on buffers. */
module OptionCode {
  import opened SeqNum
  import opened Seqs
  import opened Scoreboard
  import opened TcpOptions

  // ---- writing

  /** The buffer with `b` written at `i`. */
  ghost function Put(s: seq<u8>, i: nat, b: seq<u8>): (r: seq<u8>)
    requires i + |b| <= |s|
    ensures |r| == |s|
  {
    s[..i] + b + s[i + |b|..]
  }

  lemma PutPut(s: seq<u8>, i: nat, a: seq<u8>, b: seq<u8>)
    requires i + |a| + |b| <= |s|
    ensures Put(Put(s, i, a), i + |a|, b) == Put(s, i, a + b)
  {
  }

  lemma PutNothing(s: seq<u8>, i: nat)
    requires i <= |s|
    ensures Put(s, i, []) == s
  {
  }

  /** `htonl` and a store. */
  method Put32(buf: array<u8>, at: nat, x: u32)
    requires at + 4 <= buf.Length
    modifies buf
    ensures buf[..] == Put(old(buf[..]), at, Be32(x))
  {
    buf[at] := x / 0x100_0000;
    buf[at + 1] := x / 0x1_0000 % 0x100;
    buf[at + 2] := x / 0x100 % 0x100;
    buf[at + 3] := x % 0x100;
  }

  method Put4(buf: array<u8>, at: nat, a: u8, b: u8, c: u8, d: u8)
    requires at + 4 <= buf.Length
    modifies buf
    ensures buf[..] == Put(old(buf[..]), at, [a, b, c, d])
  {
    buf[at] := a;
    buf[at + 1] := b;
    buf[at + 2] := c;
    buf[at + 3] := d;
  }

  /** fill_opt_ts. */
  method FillTs(buf: array<u8>, at: nat, val: u32, ecr: u32)
    requires at + 12 <= buf.Length
    modifies buf
    ensures buf[..] == Put(old(buf[..]), at, [NOP, NOP, TS, 10] + Be32(val) + Be32(ecr))
  {
    hide Be32;
    hide Put;
    ghost var s := buf[..];
    Put4(buf, at, NOP, NOP, TS, 10);
    Put32(buf, at + 4, val);
    PutPut(s, at, [NOP, NOP, TS, 10], Be32(val));
    Put32(buf, at + 8, ecr);
    PutPut(s, at, [NOP, NOP, TS, 10] + Be32(val), Be32(ecr));
  }

  /** The loop of fill_uncommon_opts over the SACK blocks. */
  method FillBlocks(buf: array<u8>, at: nat, blocks: seq<Report>)
    requires at + 8 * |blocks| <= buf.Length
    modifies buf
    ensures buf[..] == Put(old(buf[..]), at, BlockBytes(blocks))
  {
    hide Be32;
    hide Put;
    hide BlockBytes;
    ghost var s := buf[..];
    var addr := at;
    NoBlocks();
    PutNothing(s, at);
    for i := 0 to |blocks|
      invariant addr == at + 8 * i && buf[..] == Put(s, at, BlockBytes(blocks[..i]))
    {
      var b := blocks[i];
      ghost var before := BlockBytes(blocks[..i]);
      Put32(buf, addr, b.start);
      PutPut(s, at, before, Be32(b.start));
      Put32(buf, addr + 4, b.end);
      PutPut(s, at, before + Be32(b.start), Be32(b.end));
      BlockBytesAppend(blocks[..i], b);
      assert blocks[..i] + [b] == blocks[..i + 1];
      addr := addr + 8;
    }
    assert blocks[..|blocks|] == blocks;
  }

  lemma NoBlocks()
    ensures BlockBytes([]) == []
  {
  }

  lemma {:induction false} BlockBytesAppend(bs: seq<Report>, b: Report)
    ensures BlockBytes(bs + [b]) == BlockBytes(bs) + Be32(b.start) + Be32(b.end)
  {
    hide Be32;
    if bs == [] {
      assert [] + [b] == [b];
      assert [b][1..] == [];
    } else {
      BlockBytesAppend(bs[1..], b);
      assert (bs + [b])[1..] == bs[1..] + [b];
    }
  }

  /** fill_opts: also where it leaves off. */
  method FillOpts(buf: array<u8>, c: Choice) returns (addr: nat)
    requires |c.blocks| <= MAX_SACK && OptLen(c) <= buf.Length
    modifies buf
    ensures addr == OptLen(c) && buf[..] == Put(old(buf[..]), 0, OptBytes(c))
  {
    hide Be32;
    hide Be16;
    hide Put;
    hide BlockBytes;
    ghost var s := buf[..];
    OptLenExact(c);
    addr := 0;
    PutNothing(s, 0);
    if c.ts.Some? {
      FillTs(buf, addr, c.ts.value, 0);
      addr := addr + 12;
    }
    assert buf[..] == Put(s, 0, TsBytes(c));
    ghost var rest := MssBytes(c) + (WscaleBytes(c) + (PermBytes(c) + SackBytes(c)));
    var n := FillUncommon(buf, addr, c);
    PutPut(s, 0, TsBytes(c), rest);
    addr := addr + n;
  }

  /** fill_uncommon_opts: also how many bytes it writes. */
  method FillUncommon(buf: array<u8>, at: nat, c: Choice) returns (n: nat)
    requires |c.blocks| <= MAX_SACK && at + OptLen(c.(ts := None)) <= buf.Length
    modifies buf
    ensures n == OptLen(c.(ts := None))
    ensures
      var rest := MssBytes(c) + (WscaleBytes(c) + (PermBytes(c) + SackBytes(c)));
      |rest| == n && buf[..] == Put(old(buf[..]), at, rest)
  {
    hide Be32;
    hide Put;
    hide BlockBytes;
    if c.syn {
      n := FillSyn(buf, at, c);
      assert SackBytes(c) == [] && PermBytes(c) + [] == PermBytes(c);
    } else {
      n := FillSack(buf, at, c);
      assert MssBytes(c) == WscaleBytes(c) == PermBytes(c) == [];
      assert [] + ([] + ([] + SackBytes(c))) == SackBytes(c);
    }
  }

  method FillSack(buf: array<u8>, at: nat, c: Choice) returns (n: nat)
    requires !c.syn && |c.blocks| <= MAX_SACK && at + OptLen(c.(ts := None)) <= buf.Length
    modifies buf
    ensures n == (if c.blocks == [] then 0 else 4 + 8 * |c.blocks|)
    ensures |SackBytes(c)| == n && at + n <= buf.Length && buf[..] == Put(old(buf[..]), at, SackBytes(c))
  {
    hide Put;
    hide BlockBytes;
    ghost var s := buf[..];
    PutNothing(s, at);
    if c.blocks == [] {
      return 0;
    }
    var len := 2 + 8 * |c.blocks|;
    Put4(buf, at, NOP, NOP, SACK, len);
    FillBlocks(buf, at + 4, c.blocks);
    PutPut(s, at, [NOP, NOP, SACK, len], BlockBytes(c.blocks));
    n := 2 + len;
  }

  method FillSyn(buf: array<u8>, at: nat, c: Choice) returns (n: nat)
    requires c.syn && at + OptLen(c.(ts := None)) <= buf.Length
    modifies buf
    ensures n == OptLen(c.(ts := None))
    ensures
      var b := MssBytes(c) + (WscaleBytes(c) + PermBytes(c));
      |b| == n && buf[..] == Put(old(buf[..]), at, b)
  {
    hide Put;
    ghost var s := buf[..];
    Put4(buf, at, MSS, 4, c.mss / 0x100, c.mss % 0x100);
    assert [MSS, 4, c.mss / 0x100, c.mss % 0x100] == MssBytes(c);
    n := 4;
    if c.ws {
      Put4(buf, at + n, WSCALE, 3, WSCALE_DEFAULT, NOP);
      n := n + 4;
    }
    ghost var w := MssBytes(c) + WscaleBytes(c);
    assert buf[..] == Put(s, at, w) by {
      PutPut(s, at, MssBytes(c), WscaleBytes(c));
      assert MssBytes(c) + [] == MssBytes(c);
    }
    if c.sackPerm {
      Put4(buf, at + n, SACK_PERM, 2, NOP, NOP);
      n := n + 4;
    }
    assert buf[..] == Put(s, at, w + PermBytes(c)) by {
      PutPut(s, at, w, PermBytes(c));
      assert w + [] == w;
    }
    Associative(MssBytes(c), WscaleBytes(c), PermBytes(c));
  }

  // ---- reading

  /** `ntohl` of a load. */
  method Load32(p: array<u8>, i: nat) returns (x: u32)
    requires i + 4 <= p.Length
    ensures x == Get32(p[..], i)
  {
    var a: int, b: int, c: int, d: int := p[i], p[i + 1], p[i + 2], p[i + 3];
    x := a * 0x100_0000 + b * 0x1_0000 + c * 0x100 + d;
  }

  /** The memcpy and the loop over the blocks of a SACK option. */
  method LoadBlocks(p: array<u8>, i: nat, n: nat) returns (bs: seq<Report>)
    requires i + 8 * n <= p.Length
    ensures bs == GetBlocks(p[..], i, n)
  {
    hide Get32;
    bs := [];
    for k := 0 to n
      invariant GetBlocks(p[..], i, n) == bs + GetBlocks(p[..], i + 8 * k, n - k)
    {
      var start := Load32(p, i + 8 * k);
      var end := Load32(p, i + 8 * k + 4);
      bs := bs + [Report(start, end)];
    }
  }

  /** parse_tcp_opts over the first `len` bytes of the buffer. */
  method ParseOpts(p: array<u8>, len: nat) returns (r: Parsed)
    requires len + 8 <= p.Length
    ensures r == Parse(p[..], 0, len, NO_OPTS, false) && Bounded(r.opts)
  {
    hide Get32;
    hide GetBlocks;
    ParseBounded(p[..], 0, len, NO_OPTS, false);
    var o, off, bad := NO_OPTS, 0, false;
    while off < len
      invariant Parse(p[..], off, len, o, bad) == Parse(p[..], 0, len, NO_OPTS, false)
    {
      var kind := p[off];
      if kind == EOL {
        return Ok(o);
      }
      if kind == NOP {
        off := off + 1;
        continue;
      }
      var n, opt := p[off + 1], off;
      if n < 2 {
        return Err(o, InvalidLen);
      }
      off := off + n;
      if off > len {
        return Err(o, InvalidLen);
      }
      if kind == MSS {
        var hi: int, lo: int := p[opt + 2], p[opt + 3];
        o := o.(mss := Some(hi * 0x100 + lo));
      } else if kind == WSCALE {
        o := o.(wscale := Some(p[opt + 2]));
        if p[opt + 2] > WSCALE_MAX {
          o := o.(wscale := Some(WSCALE_MAX));
        }
      } else if kind == TS {
        var val := Load32(p, opt + 2);
        var ecr := Load32(p, opt + 6);
        o := o.(ts := Some(Stamp(val, ecr)));
      } else if kind == SACK_PERM {
        o := o.(sackPerm := true);
      } else if kind == SACK {
        if n > 2 + 8 * MAX_SACK || (n - 2) % 8 != 0 {
          return Err(o, InvalidLen);
        }
        var bs := LoadBlocks(p, opt + 2, (n - 2) / 8);
        o := o.(sacks := bs);
      } else {
        bad := true;
      }
    }
    return if bad then Err(o, InvalidType) else Ok(o);
  }
}
