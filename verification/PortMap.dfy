/** Local ports and the blocks they are handed out in (the first half of src/port_alloc.c). */
module PortMaps {
  import opened SeqNum
  import opened Seqs

  const BLOCK := 64
  const PORTS := 0x1_0000

  /** No port of the block at `s` is taken by this instance. */
  predicate RangeFree(m: seq<int>, s: int) {
    forall i | s <= i < s + BLOCK && 0 <= i < |m| :: m[i] < 0
  }

  /** `fds` is what socket and bind give for each port: a descriptor, or less than 0. */
  predicate Bindable(fds: int -> int, s: int) {
    forall i | s <= i < s + BLOCK :: fds(i) >= 0
  }

  predicate Available(m: seq<int>, fds: int -> int, s: int) {
    RangeFree(m, s) && Bindable(fds, s)
  }

  /** The block at `s` is taken. */
  ghost predicate Took(m: seq<int>, m': seq<int>, s: int) {
    |m'| == |m| && forall i | 0 <= i < |m| :: if s <= i < s + BLOCK then m'[i] >= 0 else m'[i] == m[i]
  }

  /** A block is found again by its ports exactly when its end does not wrap to 0. */
  lemma FoundExactly(s: u16, port: u16)
    requires s % BLOCK == 0 && s <= port < s + BLOCK
    ensures s <= port < Wrap16(s + BLOCK) <==> s != PORTS - BLOCK
  {
  }

  // ---- the search

  /** The search of port_block_alloc over the `n` blocks from `min` on, at block `b` with `k` tries
      left; `busy` says that errno is EBUSY. */
  function Search(m: seq<int>, fds: int -> int, min: int, n: nat, b: nat, k: nat, busy: bool): (r: Option<int>)
    decreases k
  {
    if k == 0 then None
    else
      var s := BlockAt(min, b);
      if RangeFree(m, s) then
        if Bindable(fds, s) then Some(s) else Search(m, fds, min, n, Next(b, n), k - 1, false)
      else if busy then None
      else Search(m, fds, min, n, Next(b, n), k - 1, false)
  }

  /** Where block number `b` from `min` on starts. */
  function BlockAt(min: int, b: nat): int { min + b * BLOCK }

  function Next(b: nat, n: nat): nat { if b + 1 >= n then 0 else b + 1 }

  /** Block `j` is among the `k` blocks that follow `b` cyclically. */
  predicate Ahead(j: nat, n: nat, b: nat, k: nat) {
    b <= j < b + k || b <= j + n < b + k
  }

  lemma {:induction false} SearchVisits(m: seq<int>, fds: int -> int, min: int, n: nat, b: nat, k: nat)
    requires b < n && k <= n
    ensures
      var r := Search(m, fds, min, n, b, k, false);
      match r
      case Some(s) => exists j :: 0 <= j < n && Ahead(j, n, b, k) && s == BlockAt(min, j) && Available(m, fds, s)
      case None => forall j | 0 <= j < n && Ahead(j, n, b, k) :: !Available(m, fds, BlockAt(min, j))
    decreases k
  {
    if k > 0 {
      var s := BlockAt(min, b);
      if Available(m, fds, s) {
        assert Ahead(b, n, b, k);
      } else {
        SearchVisits(m, fds, min, n, Next(b, n), k - 1);
        var r := Search(m, fds, min, n, Next(b, n), k - 1, false);
        if r.Some? {
          var j :| 0 <= j < n && Ahead(j, n, Next(b, n), k - 1) && r.value == BlockAt(min, j) && Available(m, fds, r.value);
          assert Ahead(j, n, b, k);
        } else {
          forall j | 0 <= j < n && Ahead(j, n, b, k) ensures !Available(m, fds, BlockAt(min, j)) {
            assert j != b ==> Ahead(j, n, Next(b, n), k - 1);
          }
        }
      }
    }
  }

  /** The search finds a block whenever there is one, unless errno is EBUSY on entry and the block
      tried first is taken. */
  lemma SearchExact(m: seq<int>, fds: int -> int, min: int, n: nat, b: nat, busy: bool)
    requires b < n
    ensures
      var r := Search(m, fds, min, n, b, n, busy);
      && (r.Some? ==> Available(m, fds, r.value) && exists j :: 0 <= j < n && r.value == BlockAt(min, j))
      && (r.Some? <==> (!busy || RangeFree(m, BlockAt(min, b))) && exists j :: 0 <= j < n && Available(m, fds, BlockAt(min, j)))
  {
    SearchVisits(m, fds, min, n, b, n);
    assert forall j | 0 <= j < n :: Ahead(j, n, b, n);
    if busy && RangeFree(m, BlockAt(min, b)) {
      SearchForgets(m, fds, min, n, b, n);
    }
  }

  lemma SearchForgets(m: seq<int>, fds: int -> int, min: int, n: nat, b: nat, k: nat)
    requires RangeFree(m, BlockAt(min, b))
    ensures Search(m, fds, min, n, b, k, true) == Search(m, fds, min, n, b, k, false)
  {
  }

  /** With errno left at EBUSY, a taken first block hides the free one behind it. */
  lemma SearchGivesUp(m: seq<int>, fds: int -> int)
    requires |m| == PORTS && m[41024] >= 0 && Available(m, fds, 41024 + BLOCK)
    ensures Search(m, fds, 41024, 2, 0, 2, true) == None && Search(m, fds, 41024, 2, 0, 2, false) == Some(41024 + BLOCK)
  {
    assert BlockAt(41024, 0) == 41024 && !RangeFree(m, 41024);
    assert BlockAt(41024, 1) == 41024 + BLOCK;
    assert Search(m, fds, 41024, 2, 1, 1, false) == Some(41024 + BLOCK);
  }

  // ---- the map

  class PortMap {
    /** The socket bound to each port, PORT_FREED (-1) when there is none. */
    const ports: array<int>

    ghost predicate Valid()
      reads ports
    {
      ports.Length == PORTS && forall i | 0 <= i < PORTS :: ports[i] >= -1
    }

    lemma Length()
      requires Valid()
      ensures ports.Length == PORTS
    {
    }

    /** port_alloc_init. */
    constructor ()
      ensures Valid() && fresh(ports) && forall i | 0 <= i < PORTS :: ports[i] == -1
    {
      ports := new int[PORTS](_ => -1);
    }

    /** do_port_alloc; `fd` is what socket and bind give. */
    method PortAlloc(port: u16, fd: int) returns (ok: bool)
      requires Valid()
      modifies ports
      ensures Valid() && ok == (old(ports[port]) < 0 && fd >= 0)
      ensures ports[..] == if ok then old(ports[..])[port := fd] else old(ports[..])
    {
      if ports[port] >= 0 || fd < 0 {
        return false;
      }
      ports[port] := fd;
      return true;
    }

    /** port_free. */
    method PortFree(port: u16)
      requires Valid()
      modifies ports
      ensures Valid() && ports[..] == old(ports[..])[port := -1]
    {
      ports[port] := -1;
    }

    /** port_range_is_free. */
    method RangeIsFree(start: u16) returns (free: bool)
      requires Valid() && start + BLOCK <= PORTS
      ensures free == RangeFree(ports[..], start)
    {
      for i := 0 to BLOCK
        invariant forall k | start <= k < start + i :: ports[k] < 0
      {
        if ports[start + i] >= 0 {
          assert !RangeFree(ports[..], start);
          return false;
        }
      }
      return true;
    }

    /** Freeing the `n` ports from `start` on. */
    method FreePorts(start: u16, n: nat)
      requires Valid() && start + n <= PORTS
      modifies ports
      ensures Valid() && forall i | 0 <= i < PORTS :: ports[i] == if start <= i < start + n then -1 else old(ports[i])
    {
      for i := 0 to n
        invariant Valid()
        invariant forall k | 0 <= k < PORTS :: ports[k] == if start <= k < start + i then -1 else old(ports[k])
      {
        PortFree(start + i);
      }
    }

    /** do_port_block_alloc: all ports of the block, or nothing changes. */
    method BlockAlloc(start: u16, fds: int -> int) returns (ok: bool, bound: bool)
      requires Valid() && 0 < start && start + BLOCK <= PORTS
      modifies ports
      ensures Valid() && ok == Available(old(ports[..]), fds, start) && bound == RangeFree(old(ports[..]), start)
      ensures if ok then Took(old(ports[..]), ports[..], start) else ports[..] == old(ports[..])
    {
      ok := RangeIsFree(start);
      bound := ok;
      if !ok {
        return;
      }
      for i := 0 to BLOCK
        invariant Valid()
        invariant forall k | 0 <= k < PORTS :: if start <= k < start + i then ports[k] >= 0 && fds(k) >= 0 else ports[k] == old(ports[k])
      {
        ok := PortAlloc(start + i, fds(start + i));
        if !ok {
          FreePorts(start, i);
          assert ports[..] == old(ports[..]);
          return;
        }
      }
    }

    /** port_block_alloc without a given port: first the block at `start`, then cyclically the
        others of [min, max).  `busy` says that errno is EBUSY on entry. */
    method BlockSearch(min: u16, max: u16, start0: u16, fds: int -> int, busy0: bool, ghost first: nat) returns (r: Option<u16>)
      requires Valid() && 0 < min <= max && (max - min) % BLOCK == 0
      requires max > min ==> min <= start0 && first < (max - min) / BLOCK && (if start0 >= max then min else start0) == BlockAt(min, first)
      modifies ports
      ensures Valid()
      ensures var n := (max - min) / BLOCK; r == Search(old(ports[..]), fds, min, n, first, n, busy0)
      ensures if r.Some? then Took(old(ports[..]), ports[..], r.value) else ports[..] == old(ports[..])
    {
      hide RangeFree;
      hide Bindable;
      var start: int, busy, tries := start0, busy0, 0;
      var n := (max - min) / BLOCK;
      ghost var b: nat, was := first, ports[..];
      while tries < n
        invariant 0 <= tries <= n && Valid() && ports[..] == was
        invariant n > 0 ==> min <= start && b < n && (if start >= max then min else start) == BlockAt(min, b)
        invariant Search(was, fds, min, n, first, n, busy0) == Search(was, fds, min, n, b, n - tries, busy)
      {
        tries := tries + 1;
        if start >= max {
          start := min;
        }
        var ok, bound := BlockAlloc(start, fds);
        if ok {
          return Some(start);
        }
        if bound {
          busy := false;
        }
        if busy {
          break;
        }
        start := start + BLOCK;
        b := Next(b, n);
      }
      return None;
    }
  }
}
