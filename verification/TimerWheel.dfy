/** The timer wheel of include/timer.h: one wheel of NR_SLOT lists, one list per tick. */
module TimerWheel {
  import opened SeqNum
  import opened Seqs

  const NR_SLOT := 2048
  const GRANULARITY := 100_000

  // ---- arithmetic of the wheel

  /** Ticks less than a turn of the wheel apart share a slot only when they are equal. */
  lemma SlotUnique(a: int, b: int)
    requires -NR_SLOT < a - b < NR_SLOT && a % NR_SLOT == b % NR_SLOT
    ensures a == b
  {
  }

  lemma SlotWraps(tick: nat)
    ensures (tick % M32) % NR_SLOT == tick % NR_SLOT
  {
  }

  /** timer_start takes a timeout of 0 as 1. */
  function AtLeastOne(expire: nat): nat { if expire == 0 then 1 else expire }

  /** A timeout that ends more than `ticks` ticks behind last_run. */
  predicate Beyond(now: int, expire: nat, lastRun: int, ticks: nat) {
    now + AtLeastOne(expire) - lastRun > ticks * GRANULARITY
  }

  /** How far ahead a timer can be armed: a whole turn of the wheel, and one tick less from a callback,
      when the list of the current tick is still being processed. */
  function Reach(inCallback: bool): nat { if inCallback then NR_SLOT - 1 else NR_SLOT }

  /** The tick a timer with the slot offset `off` is filed for. */
  function FiledFor(tick: nat, off: int, inCallback: bool): int {
    if inCallback && off == NR_SLOT then tick else tick + off
  }

  /** The slot offset of timer_start: the deadline rounded up to a tick, cut off at NR_SLOT. */
  function SlotOff(x: int): int {
    var off := (x + GRANULARITY - 1) / GRANULARITY;
    if off > NR_SLOT then NR_SLOT else off
  }

  /** Within reach the tick is the first one not before the deadline, beyond it an earlier one. */
  lemma StartOffset(tick: nat, x: int, inCallback: bool)
    requires x > 0
    ensures
      var off := SlotOff(x);
      var at := FiledFor(tick, off, inCallback);
      && 1 <= off <= NR_SLOT && (off + tick % M32) % NR_SLOT == at % NR_SLOT
      && (if inCallback then tick <= at < tick + NR_SLOT else tick < at <= tick + NR_SLOT)
      && (if x > Reach(inCallback) * GRANULARITY then (at - tick) * GRANULARITY < x && (inCallback ==> at == tick)
          else x <= (at - tick) * GRANULARITY < x + GRANULARITY && tick < at)
  {
  }

  // ---- the wheel

  class Timer {
    var slotIdx: nat
    var active: bool

    /** The tick at which it is filed, the time it is meant for, and whether that was out of reach. */
    ghost var due: int
    ghost var deadline: int
    ghost var far: bool

    constructor ()
      ensures !active
    {
      slotIdx, active := 0, false;
    }
  }

  /** What a callback may do to timers. */
  datatype Command = StopIt(t: Timer) | StartIt(t: Timer, expire: nat)

  /** The last of the commands that concerns the timer. */
  function LastOn(cmds: seq<Command>, t: Timer): (c: Option<Command>)
    ensures c.Some? ==> c.value.t == t
  {
    if cmds == [] then None
    else if cmds[|cmds| - 1].t == t then Some(cmds[|cmds| - 1])
    else LastOn(cmds[..|cmds| - 1], t)
  }

  /** A callback leaves the timer armed for a deadline out of reach. */
  predicate LeftFar(cmds: seq<Command>, t: Timer, now: int, lastRun: int) {
    var c := LastOn(cmds, t);
    c.Some? && c.value.StartIt? && Beyond(now, c.value.expire, lastRun, Reach(true))
  }

  predicate NoneFar(cmds: seq<Command>, now: int, lastRun: int) {
    forall i | 0 <= i < |cmds| :: cmds[i].StartIt? ==> !Beyond(now, cmds[i].expire, lastRun, Reach(true))
  }

  class TimerCtrl {
    var nextRun: int
    var lastRun: int
    var curr: u32
    const slots: array<seq<Timer>>

    /** curr_slot_idx unbounded, the time of tick 0, and the timers of this wheel. */
    ghost var tick: nat
    ghost var base: int
    ghost var timers: set<Timer>

    ghost predicate Clock()
      reads this
    {
      lastRun == base + tick * GRANULARITY && nextRun == lastRun + GRANULARITY && curr == tick % M32
    }

    /** When the timer will fire. */
    ghost function FiresAt(t: Timer): int
      reads this, t
    {
      base + t.due * GRANULARITY
    }

    /** An armed timer is filed for one of the NR_SLOT ticks from `first` on: the first tick not before
        its deadline, or, if that was out of reach, one before it. */
    ghost predicate Filed(t: Timer, first: int)
      reads this, t
    {
      && first <= t.due < first + NR_SLOT && t.slotIdx == t.due % NR_SLOT
      && (if t.far then FiresAt(t) < t.deadline else t.deadline <= FiresAt(t) < t.deadline + GRANULARITY)
    }

    /** A timer is active exactly when it is in the list of its slot, and in no other. */
    ghost predicate Wheel(first: int)
      reads this, slots, timers
    {
      && slots.Length == NR_SLOT
      && (forall t | t in timers && t.active :: Filed(t, first) && t in slots[t.slotIdx])
      && (forall k, t | 0 <= k < NR_SLOT && t in slots[k] :: t in timers && t.active && t.slotIdx == k)
      && (forall k | 0 <= k < NR_SLOT :: Distinct(slots[k]))
    }

    ghost predicate Valid()
      reads this, slots, timers
    {
      Clock() && Wheel(tick + 1)
    }

    /** timer_ctrl_init. */
    constructor (now: nat)
      ensures Valid() && lastRun == now && timers == {} && fresh(slots)
    {
      nextRun, lastRun, curr := now + GRANULARITY, now, 0;
      slots := new seq<Timer>[NR_SLOT](_ => []);
      tick, base, timers := 0, now, {};
    }

    /** timer_init. */
    ghost method Adopt(t: Timer)
      requires Valid() && t !in timers && !t.active
      modifies this`timers
      ensures Valid() && timers == old(timers) + {t}
    {
      hide Distinct;
      timers := timers + {t};
    }

    /** timer_stop. */
    method Stop(t: Timer, ghost first: int)
      requires Wheel(first) && t in timers
      modifies t`active, slots
      ensures Wheel(first) && !t.active
      ensures forall k | 0 <= k < NR_SLOT :: slots[k] == if old(t.active) && k == t.slotIdx then Without(old(slots[k]), t) else old(slots[k])
    {
      hide Without;
      hide Distinct;
      if !t.active {
        return;
      }
      ghost var k := t.slotIdx;
      WithoutExact(slots[k], t);
      slots[t.slotIdx] := Without(slots[t.slotIdx], t);
      t.active := false;
    }

    /** Filing a stopped timer for the tick `at`. */
    method File(t: Timer, idx: nat, ghost at: int, ghost deadline: int, ghost far: bool, ghost first: int)
      requires Wheel(first) && t in timers && !t.active && idx == at % NR_SLOT && first <= at < first + NR_SLOT
      requires var fires := base + at * GRANULARITY;
               if far then fires < deadline else deadline <= fires < deadline + GRANULARITY
      modifies t, slots
      ensures Wheel(first) && t.active && t.deadline == deadline && t.due == at && t.far == far
      ensures forall k | 0 <= k < NR_SLOT :: slots[k] == if k == idx then old(slots[k]) + [t] else old(slots[k])
    {
      hide Distinct;
      assert forall k | 0 <= k < NR_SLOT :: t !in slots[k];
      DistinctAppend(slots[idx], t);
      slots[idx] := slots[idx] + [t];
      t.slotIdx, t.active := idx, true;
      t.due, t.deadline, t.far := at, deadline, far;
    }

    /** timer_start, from a callback when `first` is the current tick.  A timer that is armed for the same
        slot keeps its place in the list. */
    method Start(t: Timer, now: int, expire: nat, ghost first: int)
      requires Clock() && Wheel(first) && tick <= first <= tick + 1 && t in timers && now >= lastRun
      modifies t, slots
      ensures Wheel(first) && t.active && t.deadline == now + AtLeastOne(expire)
      ensures t.far == Beyond(now, expire, lastRun, Reach(first == tick))
      ensures t.due == FiledFor(tick, SlotOff(t.deadline - lastRun), first == tick)
      ensures first == tick && !t.far ==> |slots[tick % NR_SLOT]| <= |old(slots[tick % NR_SLOT])|
    {
      hide Wheel;
      hide SlotOff;
      hide FiledFor;
      hide Beyond;
      WheelSlots(first);
      var e := if expire == 0 then 1 else expire;
      var off := Offset(now + e - lastRun);
      ghost var inCallback := first == tick;
      ghost var at := FiledFor(tick, off, inCallback);
      ghost var far := Beyond(now, expire, lastRun, Reach(inCallback));
      StartOffset(tick, now + e - lastRun, inCallback);
      FarIs(now, expire, lastRun, inCallback);
      if t.active && (off + curr) % NR_SLOT == t.slotIdx {
        Retime(t, at, now + e, far, first);
        return;
      }
      StopOther(t, first);
      if inCallback && !far {
        NotCurrent(tick, at);
      }
      File(t, (off + curr) % NR_SLOT, at, now + e, far, first);
    }

    /** A timer armed again for the slot it is in. */
    ghost method Retime(t: Timer, at: int, deadline: int, far: bool, first: int)
      requires Wheel(first) && t in timers && t.active && t.slotIdx == at % NR_SLOT && first <= at < first + NR_SLOT
      requires var fires := base + at * GRANULARITY;
               if far then fires < deadline else deadline <= fires < deadline + GRANULARITY
      modifies t`deadline, t`far
      ensures Wheel(first) && t.deadline == deadline && t.due == at && t.far == far
    {
      hide Distinct;
      assert Filed(t, first);
      SlotUnique(t.due, at);
      t.deadline, t.far := deadline, far;
    }

    /** What a callback leaves of a timer it stopped or armed. */
    ghost predicate Does(c: Command, t: Timer, now: int)
      reads this, t
    {
      if c.StopIt? then !t.active
      else
        && t.active && t.deadline == now + AtLeastOne(c.expire)
        && t.far == Beyond(now, c.expire, lastRun, Reach(true)) && (t.far ==> t.due == tick)
    }

    /** What a callback does. */
    method RunCommands(cmds: seq<Command>, now: int)
      requires Clock() && Wheel(tick) && now >= lastRun
      requires forall i | 0 <= i < |cmds| :: cmds[i].t in timers
      modifies slots, timers
      ensures Wheel(tick)
      ensures NoneFar(cmds, now, lastRun) ==> |slots[tick % NR_SLOT]| <= |old(slots[tick % NR_SLOT])|
      ensures forall t | t in timers && LastOn(cmds, t).None? :: Same(t)
      ensures forall t | t in timers && LastOn(cmds, t).Some? :: Does(LastOn(cmds, t).value, t, now)
    {
      hide Wheel;
      hide Beyond;
      hide LastOn;
      WheelSlots(tick);
      NoneLast();
      for i := 0 to |cmds|
        invariant Wheel(tick) && slots.Length == NR_SLOT
        invariant NoneFar(cmds, now, lastRun) ==> |slots[tick % NR_SLOT]| <= |old(slots[tick % NR_SLOT])|
        invariant forall t | t in timers && LastOn(cmds[..i], t).None? :: Same(t)
        invariant forall t | t in timers && LastOn(cmds[..i], t).Some? :: Does(LastOn(cmds[..i], t).value, t, now)
      {
        LastNext(cmds, i);
        match cmds[i]
        case StopIt(t) => StopOther(t, tick);
        case StartIt(t, expire) => StartOther(t, now, expire);
      }
      assert cmds[..|cmds|] == cmds;
    }

    /** The timer is as it was. */
    twostate predicate Same(t: Timer)
      reads t
    {
      t.active == old(t.active) && t.deadline == old(t.deadline) && t.due == old(t.due) && t.far == old(t.far)
    }

    /** timer_start from a callback. */
    method StartOther(t: Timer, now: int, expire: nat)
      requires Clock() && Wheel(tick) && t in timers && now >= lastRun
      modifies t, slots
      ensures Wheel(tick) && Does(StartIt(t, expire), t, now)
      ensures slots.Length == NR_SLOT
      ensures !Beyond(now, expire, lastRun, Reach(true)) ==> |slots[tick % NR_SLOT]| <= |old(slots[tick % NR_SLOT])|
    {
      hide Distinct;
      Start(t, now, expire, tick);
      StartOffset(tick, t.deadline - lastRun, true);
    }

    /** timer_stop from a callback. */
    method StopOther(t: Timer, ghost first: int)
      requires Wheel(first) && t in timers
      modifies t`active, slots
      ensures Wheel(first) && !t.active && forall k | 0 <= k < NR_SLOT :: |slots[k]| <= |old(slots[k])|
    {
      if t.active {
        WithoutExact(slots[t.slotIdx], t);
      }
      hide Without;
      hide Distinct;
      Stop(t, first);
    }

    lemma WheelSlots(first: int)
      requires Wheel(first)
      ensures slots.Length == NR_SLOT
    {
    }

    /** One turn of the inner loop of timer_process: the first timer of the list fires, early exactly if
        its deadline was out of reach.  What its callback arms out of reach lands in the same list. */
    method FireFirst(now: int, cmds: seq<Command>) returns (t: Timer, ghost deadline: int, ghost far: bool)
      requires Clock() && Wheel(tick) && slots[tick % NR_SLOT] != [] && lastRun <= now
      requires forall i | 0 <= i < |cmds| :: cmds[i].t in timers
      modifies slots, timers
      ensures Wheel(tick)
      ensures NoneFar(cmds, now, lastRun) ==> |slots[tick % NR_SLOT]| < |old(slots[tick % NR_SLOT])|
      ensures t in timers && old(t.active) && deadline == old(t.deadline) && far == old(t.far)
      ensures old(FiresAt(t)) == lastRun && (far <==> lastRun < deadline)
      ensures forall u | u in timers && LastOn(cmds, u).None? :: if u == t then !u.active else Same(u)
      ensures forall u | u in timers && LastOn(cmds, u).Some? :: Does(LastOn(cmds, u).value, u, now)
    {
      hide Without;
      hide Beyond;
      SlotWraps(tick);
      t := slots[curr % NR_SLOT][0];
      ListedIsDue(t);
      deadline, far := t.deadline, t.far;
      WithoutExact(slots[t.slotIdx], t);
      hide Distinct;
      Stop(t, tick);
      hide Wheel;
      RunCommands(cmds, now);
    }

    /** Whatever is in the list of the current tick is meant for it. */
    lemma ListedIsDue(t: Timer)
      requires Wheel(tick) && t in slots[tick % NR_SLOT]
      ensures t in timers && t.active && t.slotIdx == tick % NR_SLOT && t.due == tick
      ensures t.far <==> base + tick * GRANULARITY < t.deadline
    {
      hide Distinct;
      assert t in timers && t.active && t.slotIdx == tick % NR_SLOT;
      assert Filed(t, tick);
      SlotUnique(t.due, tick);
    }

    /** Nothing is left in the list of the current tick, so nothing is due for it. */
    lemma SlotDone()
      requires Wheel(tick) && slots[tick % NR_SLOT] == []
      ensures Wheel(tick + 1) && forall t | t in timers && t.active :: t.due != tick
    {
      hide Distinct;
      forall t | t in timers && t.active ensures t.due != tick {
        assert Filed(t, tick) && t in slots[t.slotIdx];
      }
    }

    /** What a callback armed out of reach and has not been seen to since. */
    ghost predicate Waits(log: seq<Firing>, k: nat, t: Timer)
      reads this, t
      requires k < |log|
    {
      Later(log, k, t) || (t.active && t.due == tick && t.far)
    }

    /** The inner loop of timer_process, when `nr0` callbacks have run; also what it did.  It ends if no
        callback from number `limit` on arms a timer out of reach. */
    method FireSlot(now: int, script: (int, nat) -> seq<Command>, nr0: nat, ghost limit: nat) returns (nr: nat, ghost log: seq<Firing>)
      requires Clock() && Wheel(tick) && lastRun <= now
      requires forall k: nat, i | 0 <= i < |script(lastRun, k)| :: script(lastRun, k)[i].t in timers
      requires forall k: nat | k >= limit :: NoneFar(script(lastRun, k), now, lastRun)
      modifies slots, timers
      ensures Wheel(tick + 1) && nr == nr0 + |log|
      ensures Told(log, script, now, nr0) && forall k | 0 <= k < |log| :: log[k].lastRun == lastRun
      ensures forall t | t in timers && t !in TouchedBy(log) :: if t in Fired(log) then old(t.active) && !t.active else Same(t)
      ensures forall k, t | 0 <= k < |log| && t in timers && t !in TouchedBy(log) && log[k].t == t :: log[k].For(old(t.deadline), old(t.far), old(FiresAt(t)))
      ensures Caught(log, timers, now)
    {
      hide Wheel;
      hide Beyond;
      hide Fired;
      hide TouchedBy;
      hide NoneFar;
      hide LastOn;
      nr, log := nr0, [];
      NoLog();
      WheelSlots(tick);
      SlotWraps(tick);
      while slots[curr % NR_SLOT] != []
        invariant Wheel(tick) && slots.Length == NR_SLOT && nr == nr0 + |log|
        invariant forall k | 0 <= k < |log| :: log[k].Exact() && log[k].lastRun == lastRun && log[k].cmds == script(lastRun, nr0 + k)
        invariant forall t | t in timers && t !in TouchedBy(log) :: if t in Fired(log) then old(t.active) && !t.active else Same(t)
        invariant forall k, t | 0 <= k < |log| && t in timers && t !in TouchedBy(log) && log[k].t == t :: log[k].For(old(t.deadline), old(t.far), old(FiresAt(t)))
        invariant forall k, t | 0 <= k < |log| && t in timers && LeftFar(log[k].cmds, t, now, lastRun) :: Waits(log, k, t)
        decreases if nr < limit then limit - nr else 0, |slots[tick % NR_SLOT]|
      {
        var cmds := script(lastRun, nr);
        var t;
        ghost var deadline, far;
        t, deadline, far := FireFirst(now, cmds);
        ghost var e := Firing(t, deadline, far, lastRun, cmds);
        OneLog(e);
        JoinLogs(log, [e]);
        TouchedLast(cmds);
        LaterGrows(log, e);
        log := log + [e];
        nr := nr + 1;
      }
      SlotDone();
    }

    /** The next tick: its list is to be processed. */
    method Advance()
      requires Valid()
      modifies this`nextRun, this`lastRun, this`curr, this`tick
      ensures Clock() && Wheel(tick) && tick == old(tick) + 1 && lastRun == old(nextRun)
    {
      hide Distinct;
      WrapAdd(tick, 1);
      lastRun, nextRun := lastRun + GRANULARITY, nextRun + GRANULARITY;
      curr := Wrap(curr + 1);
      tick := tick + 1;
      forall t | t in timers && t.active ensures Filed(t, tick) {
        assert old(Filed(t, tick + 1));
      }
    }

    /** timer_process, at time `now`; script(r, k) is what the k-th callback does when it runs while
        last_run is r, and none from number `limit` on arms a timer out of reach.  The log tells which
        timers fired.  A timer fires before its deadline exactly if that was out of reach; one that no
        callback touches fires at the tick it was filed for, if that has come, and only then; one that a
        callback arms out of reach is fired, or touched again, before the tick is over. */
    method Process(now: int, script: (int, nat) -> seq<Command>, ghost limit: nat) returns (nr: nat, ghost log: seq<Firing>)
      requires Valid()
      requires forall r, k: nat, i | lastRun < r <= now && 0 <= i < |script(r, k)| :: script(r, k)[i].t in timers
      requires forall r, k: nat | lastRun < r <= now && k >= limit :: NoneFar(script(r, k), now, r)
      modifies this`nextRun, this`lastRun, this`curr, this`tick, slots, timers
      ensures Valid() && now < nextRun && nr == |log| && (old(lastRun) <= now ==> lastRun <= now)
      ensures Told(log, script, now, 0) && Caught(log, timers, now)
      ensures forall t | t in timers && t !in TouchedBy(log) :: if t in Fired(log) then old(t.active) && !t.active else Same(t)
      ensures forall k, t | 0 <= k < |log| && t in timers && t !in TouchedBy(log) && log[k].t == t :: log[k].For(old(t.deadline), old(t.far), old(FiresAt(t)))
      ensures forall t | t in timers && t.active :: now < FiresAt(t) && now < t.deadline + GRANULARITY
      ensures forall t | t in timers && t !in TouchedBy(log) && old(t.active) && old(FiresAt(t)) <= now :: t in Fired(log)
    {
      hide Wheel;
      hide Beyond;
      hide Fired;
      hide TouchedBy;
      hide NoneFar;
      hide Told;
      hide Caught;
      nr, log := 0, [];
      NoLog();
      NothingTold(script, timers, now);
      while now >= nextRun
        invariant Valid() && lastRun >= old(lastRun) && nr == |log| && (old(lastRun) <= now ==> lastRun <= now)
        invariant Told(log, script, now, 0) && Caught(log, timers, now)
        invariant forall t | t in timers && t !in TouchedBy(log) :: if t in Fired(log) then old(t.active) && !t.active else Same(t)
        invariant forall k, t | 0 <= k < |log| && t in timers && t !in TouchedBy(log) && log[k].t == t :: log[k].For(old(t.deadline), old(t.far), old(FiresAt(t)))
        decreases now - nextRun
      {
        Advance();
        ghost var more;
        nr, more := FireSlot(now, script, nr, limit);
        JoinLogs(log, more);
        EachFired(more);
        ToldJoins(log, more, script, now);
        CaughtJoins(log, more, timers, now);
        log := log + more;
      }
      NothingOverdue(now);
    }

    /** When the wheel is up to date, nothing armed is due, and no armed timer is a tick overdue. */
    lemma NothingOverdue(now: int)
      requires Valid() && now < nextRun
      ensures forall t | t in timers && t.active :: now < FiresAt(t) && now < t.deadline + GRANULARITY
    {
      hide Distinct;
      forall t | t in timers && t.active ensures now < FiresAt(t) && now < t.deadline + GRANULARITY {
        assert Filed(t, tick + 1);
      }
    }
  }

  lemma FarIs(now: int, expire: nat, lastRun: int, inCallback: bool)
    ensures Beyond(now, expire, lastRun, Reach(inCallback)) <==> now + AtLeastOne(expire) - lastRun > Reach(inCallback) * GRANULARITY
  {
  }

  /** The arithmetic of timer_start. */
  method Offset(x: int) returns (off: int)
    requires x > 0
    ensures off == SlotOff(x) && 1 <= off <= NR_SLOT
  {
    off := (x + GRANULARITY - 1) / GRANULARITY;
    if off > NR_SLOT {
      off := NR_SLOT;
    }
  }

  lemma NotCurrent(tick: nat, at: int)
    requires tick < at < tick + NR_SLOT
    ensures at % NR_SLOT != tick % NR_SLOT
  {
  }

  // ---- what fired

  /** A timer fired: which one, for which deadline, whether that was out of reach, when, and what its
      callback did. */
  datatype Firing = Firing(t: Timer, deadline: int, far: bool, lastRun: int, cmds: seq<Command>) {
    /** It fired before its deadline exactly if that was out of reach. */
    predicate Exact() { lastRun < deadline <==> far }

    /** The timer fired early, or its callback touched the timer. */
    ghost predicate Sees(u: Timer) { (t == u && far) || u in Touched(cmds) }

    /** It fired for what it had been armed for, at the time `at`. */
    predicate For(armedFor: int, outOfReach: bool, at: int) {
      deadline == armedFor && far == outOfReach && lastRun == at
    }
  }

  ghost function Fired(log: seq<Firing>): set<Timer> {
    if log == [] then {} else {log[0].t} + Fired(log[1..])
  }

  /** The timers some callback stopped or armed. */
  ghost function TouchedBy(log: seq<Firing>): set<Timer> {
    if log == [] then {} else Touched(log[0].cmds) + TouchedBy(log[1..])
  }

  ghost function Touched(cmds: seq<Command>): set<Timer> {
    set i | 0 <= i < |cmds| :: cmds[i].t
  }

  /** Before the tick of entry `k` was over, the timer fired early or another callback touched it. */
  ghost predicate Later(log: seq<Firing>, k: nat, t: Timer)
    requires k < |log|
  {
    exists j :: k < j < |log| && log[j].lastRun == log[k].lastRun && log[j].Sees(t)
  }

  /** Each entry tells what a callback did, and that it fired early exactly if out of reach. */
  ghost predicate Told(log: seq<Firing>, script: (int, nat) -> seq<Command>, now: int, nr0: nat) {
    forall k | 0 <= k < |log| :: log[k].Exact() && log[k].lastRun <= now && log[k].cmds == script(log[k].lastRun, nr0 + k)
  }

  /** What a callback armed out of reach was fired, or touched again, before the tick was over. */
  ghost predicate Caught(log: seq<Firing>, timers: set<Timer>, now: int) {
    forall k, t | 0 <= k < |log| && t in timers && LeftFar(log[k].cmds, t, now, log[k].lastRun) :: Later(log, k, t)
  }

  lemma NothingTold(script: (int, nat) -> seq<Command>, timers: set<Timer>, now: int)
    ensures Told([], script, now, 0) && Caught([], timers, now)
  {
  }

  lemma ToldJoins(a: seq<Firing>, b: seq<Firing>, script: (int, nat) -> seq<Command>, now: int)
    requires Told(a, script, now, 0) && Told(b, script, now, |a|)
    ensures Told(a + b, script, now, 0)
  {
  }

  lemma CaughtJoins(a: seq<Firing>, b: seq<Firing>, timers: set<Timer>, now: int)
    requires Caught(a, timers, now) && Caught(b, timers, now)
    ensures Caught(a + b, timers, now)
  {
    hide LeftFar;
    hide Later;
    LaterJoins(a, b);
    var all := a + b;
    forall k, t | 0 <= k < |all| && t in timers && LeftFar(all[k].cmds, t, now, all[k].lastRun) ensures Later(all, k, t) {
      if k >= |a| {
        assert all[k] == b[k - |a|] && Later(b, k - |a|, t);
      }
    }
  }

  lemma NoLog()
    ensures Fired([]) == {} && TouchedBy([]) == {}
  {
  }

  lemma OneLog(e: Firing)
    ensures Fired([e]) == {e.t} && TouchedBy([e]) == Touched(e.cmds)
  {
  }

  lemma {:induction false} JoinLogs(a: seq<Firing>, b: seq<Firing>)
    ensures Fired(a + b) == Fired(a) + Fired(b) && TouchedBy(a + b) == TouchedBy(a) + TouchedBy(b)
  {
    if a == [] {
      assert a + b == b;
    } else {
      JoinLogs(a[1..], b);
      assert (a + b)[1..] == a[1..] + b;
    }
  }

  lemma {:induction false} EachFired(log: seq<Firing>)
    ensures forall k | 0 <= k < |log| :: log[k].t in Fired(log)
  {
    if log != [] {
      EachFired(log[1..]);
      assert forall k | 1 <= k < |log| :: log[k] == log[1..][k - 1];
    }
  }

  lemma LaterGrows(log: seq<Firing>, e: Firing)
    requires forall k | 0 <= k < |log| :: log[k].lastRun == e.lastRun
    ensures forall k, t | 0 <= k < |log| && (Later(log, k, t) || e.Sees(t)) :: Later(log + [e], k, t)
  {
    var all := log + [e];
    forall k, t | 0 <= k < |log| && (Later(log, k, t) || e.Sees(t)) ensures Later(all, k, t) {
      if Later(log, k, t) {
        var j :| k < j < |log| && log[j].lastRun == log[k].lastRun && log[j].Sees(t);
        assert all[j] == log[j];
      } else {
        assert all[|log|] == e;
      }
    }
  }

  lemma LaterJoins(a: seq<Firing>, b: seq<Firing>)
    ensures forall k, t | 0 <= k < |a| && Later(a, k, t) :: Later(a + b, k, t)
    ensures forall k, t | 0 <= k < |b| && Later(b, k, t) :: Later(a + b, |a| + k, t)
  {
    var all := a + b;
    forall k, t | 0 <= k < |a| && Later(a, k, t) ensures Later(all, k, t) {
      var j :| k < j < |a| && a[j].lastRun == a[k].lastRun && a[j].Sees(t);
      assert all[j] == a[j];
    }
    forall k, t | 0 <= k < |b| && Later(b, k, t) ensures Later(all, |a| + k, t) {
      var j :| k < j < |b| && b[j].lastRun == b[k].lastRun && b[j].Sees(t);
      assert all[|a| + j] == b[j];
    }
  }

  lemma NoneLast()
    ensures forall t :: LastOn([], t) == None
  {
  }

  lemma LastNext(cmds: seq<Command>, i: nat)
    requires i < |cmds|
    ensures forall t :: LastOn(cmds[..i + 1], t) == if cmds[i].t == t then Some(cmds[i]) else LastOn(cmds[..i], t)
  {
    var cs := cmds[..i + 1];
    assert cs != [] && cs[|cs| - 1] == cmds[i] && cs[..|cs| - 1] == cmds[..i];
    forall t ensures LastOn(cs, t) == if cmds[i].t == t then Some(cmds[i]) else LastOn(cmds[..i], t) {
    }
  }

  /** A timer is touched exactly if some command concerns it. */
  lemma {:induction false} TouchedLast(cmds: seq<Command>)
    ensures forall t :: t in Touched(cmds) <==> LastOn(cmds, t).Some?
  {
    if cmds != [] {
      var n := |cmds| - 1;
      TouchedLast(cmds[..n]);
      assert forall t :: t in Touched(cmds) <==> t in Touched(cmds[..n]) || t == cmds[n].t;
    }
  }

  // ---- a deadline out of reach

  /** A timer armed outside a callback for a deadline more than NR_SLOT ticks ahead, with no callback
      that touches a timer, has fired NR_SLOT ticks later, before its deadline. */
  method FiresEarly(w: TimerCtrl, t: Timer, now: int, expire: nat) returns (ghost log: seq<Firing>)
    requires w.Valid() && t in w.timers && w.lastRun <= now
    requires Beyond(now, expire, w.lastRun, NR_SLOT)
    modifies t, w, w.slots, w.timers
    ensures w.Valid() && w.lastRun == old(w.lastRun) + NR_SLOT * GRANULARITY < now + AtLeastOne(expire)
    ensures exists k :: 0 <= k < |log| && log[k].t == t && log[k].deadline == now + AtLeastOne(expire) && log[k].lastRun == w.lastRun
  {
    hide TimerCtrl.Wheel;
    ghost var wheel := w.lastRun + NR_SLOT * GRANULARITY;
    w.Start(t, now, expire, w.tick + 1);
    StartOffset(w.tick, t.deadline - w.lastRun, false);
    var nr;
    nr, log := w.Process(w.lastRun + NR_SLOT * GRANULARITY, (_, _) => [], 0);
    NoneTouched(log);
    ghost var k := FiredAt(log, t);
  }

  /** A timer that a callback arms for a deadline more than NR_SLOT - 1 ticks ahead fires once more in the
      same tick: here the first callback of a run does so, and no other touches a timer. */
  method FiresAtOnce(w: TimerCtrl, t: Timer, now: int, expire: nat) returns (ghost log: seq<Firing>)
    requires w.Valid() && t in w.timers && Beyond(now, expire, now, NR_SLOT - 1)
    modifies w, w.slots, w.timers
    ensures w.Valid()
    ensures log != [] ==>
      exists j :: 0 < j < |log| && log[j].t == t && log[j].lastRun == log[0].lastRun < log[j].deadline
  {
    hide TimerCtrl.Wheel;
    var nr;
    nr, log := w.Process(now, (_, k) => if k == 0 then [StartIt(t, expire)] else [], 1);
    if log != [] {
      assert LastOn(log[0].cmds, t) == Some(StartIt(t, expire));
      assert LeftFar(log[0].cmds, t, now, log[0].lastRun);
      assert Later(log, 0, t);
    }
  }

  lemma {:induction false} NoneTouched(log: seq<Firing>)
    requires forall k | 0 <= k < |log| :: log[k].cmds == []
    ensures TouchedBy(log) == {}
  {
    if log != [] {
      NoneTouched(log[1..]);
    }
  }

  lemma {:induction false} FiredAt(log: seq<Firing>, t: Timer) returns (k: nat)
    requires t in Fired(log)
    ensures k < |log| && log[k].t == t
  {
    if log[0].t == t {
      k := 0;
    } else {
      k := FiredAt(log[1..], t);
      k := k + 1;
    }
  }
}
