/** When an individual timer fires, whatever the other timers and callbacks do: after the last timer call on its
    slot, what that call has put there decides. */
module TimerFirings {
  import opened Arithmetic
  import opened Machine
  import opened Timers

  /** No event from index `from` on is a timer call on slot `i`. */
  ghost predicate Untouched(log: seq<Event>, from: nat, i: nat) {
    forall j :: from <= j < |log| ==> log[j].Issued? ==> log[j].slot != i
  }

  /** The ticks at which slot `i` has fired. */
  function Firings(log: seq<Event>, i: nat): seq<nat> {
    if log == [] then [] else
    var last := log[|log| - 1];
    Firings(log[..|log| - 1], i) + if last.Fired? && last.slot == i then [last.tick] else []
  }

  lemma FiringsAppend(log: seq<Event>, e: Event, i: nat)
    ensures Firings(log + [e], i) == Firings(log, i) + if e.Fired? && e.slot == i then [e.tick] else []
  {
    assert (log + [e])[..|log|] == log;
  }

  /** Slot `i` holds `t`, and is among the allocated ones or not. */
  predicate Slot(k: Clock, i: nat, t: Timer, listed: bool) {
    && Shaped(k.table) && i < MAX_TIMERS && k.table.timer[i] == t
    && (i < k.table.numTimers <==> listed)
  }

  // ---------------------------------------------------------------- what leaves a slot alone

  lemma CommandKeeps(k: Clock, c: Command, i: nat, t: Timer, listed: bool)
    requires Slot(k, i, t, listed)
    requires Untouched(NaiveCommand(k, c).log, |k.log|, i)
    ensures Slot(NaiveCommand(k, c), i, t, listed)
    ensures Firings(NaiveCommand(k, c).log, i) == Firings(k.log, i)
  {
    if Legal(k.table, c) {
      var e := Issued(k.now, c, Target(k.table, c));
      assert NaiveCommand(k, c).log[|k.log|] == e;
      FiringsAppend(k.log, e, i);
    }
  }

  lemma UntouchedSplit(a: seq<Event>, b: seq<Event>, c: seq<Event>, i: nat)
    requires a <= b <= c && Untouched(c, |a|, i)
    ensures Untouched(b, |a|, i) && Untouched(c, |b|, i)
  {
    assert forall j :: |a| <= j < |b| ==> b[j] == c[j];
  }

  lemma {:induction false} CommandsKeep(k: Clock, cs: seq<Command>, i: nat, t: Timer, listed: bool)
    requires Slot(k, i, t, listed)
    requires Untouched(NaiveCommands(k, cs).log, |k.log|, i)
    ensures Slot(NaiveCommands(k, cs), i, t, listed)
    ensures Firings(NaiveCommands(k, cs).log, i) == Firings(k.log, i)
    decreases |cs|
  {
    if cs != [] {
      var k' := NaiveCommand(k, cs[0]);
      UntouchedSplit(k.log, k'.log, NaiveCommands(k', cs[1..]).log, i);
      CommandKeeps(k, cs[0], i, t, listed);
      CommandsKeep(k', cs[1..], i, t, listed);
    }
  }

  /** A callback fires its own slot, and leaves the others alone but for the calls it makes. */
  lemma CallKeeps(d: Devices, k: Clock, j: nat, i: nat, t: Timer, listed: bool)
    requires Slot(k, i, t, listed) && j < MAX_TIMERS
    requires Untouched(NaiveCall(d, k, j).log, |k.log|, i)
    ensures Slot(NaiveCall(d, k, j), i, t, listed)
    ensures Firings(NaiveCall(d, k, j).log, i)
         == Firings(k.log, i) + if j == i && t.funct.Some? then [k.now] else []
  {
    var f := k.table.timer[j].funct;
    if f.Some? {
      var log := k.log + [Fired(k.now, j)];
      var cs := Reaction(d, log, k.table, f.value);
      FiringsAppend(k.log, Fired(k.now, j), i);
      UntouchedSplit(k.log, log, NaiveCommands(k.(log := log), cs).log, i);
      CommandsKeep(k.(log := log), cs, i, t, listed);
    }
  }

  /** Calls the slots of `due` from `m` to below `n`, in increasing order. */
  function CallsFrom(d: Devices, k: Clock, due: set<nat>, m: nat, n: nat): (r: Clock)
    requires Shaped(k.table) && m <= n <= MAX_TIMERS
    ensures Shaped(r.table) && r.now == k.now && k.log <= r.log
    decreases n
  {
    if m == n then k else
    var k' := CallsFrom(d, k, due, m, n - 1);
    if n - 1 in due then NaiveCall(d, k', n - 1) else k'
  }

  lemma {:induction false} CallsSplit(d: Devices, k: Clock, due: set<nat>, m: nat, n: nat)
    requires Shaped(k.table) && m <= n <= MAX_TIMERS
    ensures NaiveCalls(d, k, due, n) == CallsFrom(d, NaiveCalls(d, k, due, m), due, m, n)
    decreases n
  {
    if m < n {
      CallsSplit(d, k, due, m, n - 1);
    }
  }

  lemma {:induction false} CallsKeep(
    d: Devices, k: Clock, due: set<nat>, m: nat, n: nat, r: Clock, i: nat, t: Timer, listed: bool)
    requires Slot(k, i, t, listed) && m <= n <= MAX_TIMERS
    requires r == CallsFrom(d, k, due, m, n) && Untouched(r.log, |k.log|, i)
    ensures Slot(r, i, t, listed)
    ensures Firings(r.log, i) == Firings(k.log, i) + if i in due && m <= i < n && t.funct.Some? then [r.now] else []
    decreases n
  {
    if m < n {
      var k' := CallsFrom(d, k, due, m, n - 1);
      UntouchedSplit(k.log, k'.log, r.log, i);
      CallsKeep(d, k, due, m, n - 1, k', i, t, listed);
      if n - 1 in due {
        CallKeeps(d, k', n - 1, i, t, listed);
      }
    }
  }

  // ---------------------------------------------------------------- ticks

  /** The timer can fire. */
  predicate Ready(t: Timer, listed: bool) { listed && t.active && t.funct.Some? }

  /** The timer one tick later, and what it fires then. */
  function After(t: Timer, listed: bool, tick: nat): Timer {
    if listed && t.active && t.timeToFire == tick then Rearm(t) else t
  }

  function FiresAt(t: Timer, listed: bool, tick: nat): seq<nat> {
    if Ready(t, listed) && t.timeToFire == tick then [tick] else []
  }

  /** One tick fires an untouched timer if it is due, and only then. */
  lemma TickFires(d: Devices, k: Clock, i: nat, t: Timer, listed: bool)
    requires Slot(k, i, t, listed)
    requires Untouched(NaiveTick(d, k).log, |k.log|, i)
    ensures Slot(NaiveTick(d, k), i, After(t, listed, k.now + 1), listed)
    ensures Firings(NaiveTick(d, k).log, i) == Firings(k.log, i) + FiresAt(t, listed, k.now + 1)
  {
    var now, n, first := k.now + 1, k.table.numTimers, 0;
    var k', due := Clock(Rearmed(k.table, now), k.log, now), DueSet(k.table, now);
    CallsSplit(d, k', due, first, n);
    CallsKeep(d, k', due, first, n, NaiveTick(d, k), i, k'.table.timer[i], listed);
  }

  // ---------------------------------------------------------------- whole runs

  /** The ticks up to `upTo` at which timer `t`, left alone, must fire. */
  function Schedule(t: Timer, upTo: nat): seq<nat>
    requires t.period >= MIN_PERIOD
    decreases if t.active then upTo + 1 - t.timeToFire else 0
  {
    if !t.active || t.timeToFire > upTo then [] else [t.timeToFire] + Schedule(Rearm(t), upTo)
  }

  /** A timer that can fire has a positive period and lies ahead of `now`. */
  predicate Ahead(t: Timer, listed: bool, now: nat) {
    Ready(t, listed) ==> t.period >= MIN_PERIOD && t.timeToFire > now
  }

  function Expected(t: Timer, listed: bool, upTo: nat): seq<nat>
    requires Ready(t, listed) ==> t.period >= MIN_PERIOD
  {
    if Ready(t, listed) then Schedule(t, upTo) else []
  }

  lemma FirstThenRest(past: seq<nat>, t: Timer, listed: bool, now: nat, upTo: nat)
    requires Ahead(t, listed, now) && now < upTo
    ensures Ahead(After(t, listed, now + 1), listed, now + 1)
    ensures past + FiresAt(t, listed, now + 1) + Expected(After(t, listed, now + 1), listed, upTo)
         == past + Expected(t, listed, upTo)
  {
    if Ready(t, listed) && t.timeToFire == now + 1 {
      assert Schedule(t, upTo) == [now + 1] + Schedule(Rearm(t), upTo);
      assert Expected(Rearm(t), listed, upTo) == Schedule(Rearm(t), upTo);
    }
  }

  /** Over any run up to tick `end` that leaves slot `i` alone, the timer there fires on schedule. */
  lemma {:induction false} RunFires(
    d: Devices, k: Clock, ops: seq<Op>, i: nat, t: Timer, listed: bool, end: nat)
    requires Slot(k, i, t, listed) && Ahead(t, listed, k.now)
    requires Untouched(NaiveRun(d, k, ops).log, |k.log|, i)
    requires end == k.now + TicksIn(ops)
    ensures Firings(NaiveRun(d, k, ops).log, i) == Firings(k.log, i) + Expected(t, listed, end)
    decreases |ops|, 0
  {
    if ops == [] {
    } else if ops[0].Tick? {
      var k' := NaiveTick(d, k);
      RunFiresTick(d, k, k', NaiveRun(d, k', ops[1..]), ops[1..], i, t, listed, end);
    } else {
      var k' := NaiveCommand(k, ops[0].command);
      var r := NaiveRun(d, k', ops[1..]);
      assert NaiveRun(d, k, ops) == r;
      UntouchedSplit(k.log, k'.log, r.log, i);
      CommandKeeps(k, ops[0].command, i, t, listed);
      RunFires(d, k', ops[1..], i, t, listed, end);
    }
  }

  lemma {:induction false} RunFiresTick(
    d: Devices, k: Clock, k': Clock, r: Clock, ops: seq<Op>, i: nat, t: Timer, listed: bool, end: nat)
    requires Slot(k, i, t, listed) && Ahead(t, listed, k.now) && k' == NaiveTick(d, k)
    requires r == NaiveRun(d, k', ops)
    requires Untouched(r.log, |k.log|, i)
    requires end == k'.now + TicksIn(ops)
    ensures Firings(r.log, i) == Firings(k.log, i) + Expected(t, listed, end)
    decreases |ops|, 1
  {
    UntouchedSplit(k.log, k'.log, r.log, i);
    TickFires(d, k, i, t, listed);
    FirstThenRest(Firings(k.log, i), t, listed, k.now, end);
    RunFires(d, k', ops, i, After(t, listed, k.now + 1), listed, end);
  }

  // ---------------------------------------------------------------- schedules

  /** The schedule of a continuous timer armed at `start` has no drift and covers every whole period. */
  lemma {:induction false} ScheduleOfContinuous(t: Timer, start: nat, upTo: nat)
    requires t.active && t.continuous && t.period >= MIN_PERIOD
    requires t.timeToFire == start + t.period && start <= upTo
    ensures var s := Schedule(t, upTo);
      && (forall j :: 0 <= j < |s| ==> s[j] == start + (j + 1) * t.period)
      && |s| * t.period <= upTo - start < (|s| + 1) * t.period
    decreases upTo - start
  {
    var p := t.period;
    if t.timeToFire <= upTo {
      var t' := Rearm(t);
      var s' := Schedule(t', upTo);
      ScheduleOfContinuous(t', start + p, upTo);
      Distributes(p, |s'|, 1);
      Distributes(p, |s'| + 1, 1);
      forall j | 1 <= j < |s'| + 1
        ensures ([t.timeToFire] + s')[j] == start + (j + 1) * p
      {
        assert s'[j - 1] == start + p + j * p;
        Distributes(p, j, 1);
      }
    }
  }

  /** now + p, now + 2p, ..., as far as they lie within `n` ticks. */
  function EveryPeriod(now: nat, p: nat, n: nat): (r: seq<nat>)
    requires p >= 1
    ensures |r| == n / p && forall j :: 0 <= j < |r| ==> r[j] == now + (j + 1) * p
  {
    seq(n / p, j => now + (j + 1) * p)
  }

  /** now + p, if that lies within `n` ticks. */
  function Once(now: nat, p: nat, n: nat): seq<nat> { if n >= p then [now + p] else [] }

  lemma ContinuousSchedule(t: Timer, now: nat, n: nat)
    requires t.active && t.continuous && t.period >= 1 && t.timeToFire == now + t.period
    ensures Schedule(t, now + n) == EveryPeriod(now, t.period, n)
  {
    var fired := Schedule(t, now + n);
    ScheduleOfContinuous(t, now, now + n);
    Distributes(t.period, |fired|, 1);
    QuotientIs(n, t.period, |fired|);
  }

  /** `ticks` below 1 count as 1. */
  function Period(ticks: nat): nat { if ticks < 1 then 1 else ticks }

  /** What a timer armed at `now` fires within `n` ticks: every period without drift if it is continuous, or else
      once. */
  function ArmedFirings(now: nat, ticks: nat, continuous: bool, n: nat): seq<nat> {
    if continuous then EveryPeriod(now, Period(ticks), n) else Once(now, Period(ticks), n)
  }

  lemma ArmedSchedule(t: Timer, now: nat, ticks: nat, n: nat)
    requires t.active && t.period == Period(ticks) && t.timeToFire == now + t.period
    ensures Schedule(t, now + n) == ArmedFirings(now, ticks, t.continuous, n)
  {
    if t.continuous {
      ContinuousSchedule(t, now, n);
    }
  }

  // ---------------------------------------------------------------- the last call between two ticks

  /** After timer call `c`, no event touches slot `i`. */
  ghost predicate LastCall(d: Devices, s: State, c: Command, ops: seq<Op>, i: nat) {
    && Inv(s) && TimeTicks(s) + TicksIn([Do(c)] + ops) <= HORIZON
    && Untouched(Run(d, s, [Do(c)] + ops).log, |s.log| + 1, i)
  }

  /** The ticks at which slot `i` fires after that call. */
  ghost predicate ThenFires(d: Devices, s: State, c: Command, ops: seq<Op>, i: nat, ticks: seq<nat>)
    requires LastCall(d, s, c, ops, i)
  {
    Firings(Run(d, s, [Do(c)] + ops).log, i) == Firings(s.log, i) + ticks
  }

  lemma CallThenRun(d: Devices, s: State, c: Command, ops: seq<Op>)
    requires Inv(s) && TimeTicks(s) + TicksIn([Do(c)] + ops) <= HORIZON
    ensures Abs(Run(d, s, [Do(c)] + ops)) == NaiveRun(d, NaiveCommand(Abs(s), c), ops)
    ensures TicksIn([Do(c)] + ops) == TicksIn(ops)
  {
    assert ([Do(c)] + ops)[1..] == ops;
    RunRefines(d, s, [Do(c)] + ops);
  }

  /** What an event has put into the slot decides. */
  lemma EventDecides(
    d: Devices, past: seq<Event>, e: Event, k: Clock, ops: seq<Op>, r: Clock, i: nat, t: Timer, listed: bool, end: nat)
    requires e.Issued? && k.log == past + [e]
    requires Slot(k, i, t, listed) && Ahead(t, listed, k.now) && end == k.now + TicksIn(ops)
    requires r == NaiveRun(d, k, ops) && Untouched(r.log, |past| + 1, i)
    ensures Firings(r.log, i) == Firings(past, i) + Expected(t, listed, end)
  {
    assert Firings(k.log, i) == Firings(past, i) by {
      FiringsAppend(past, e, i);
    }
    RunFires(d, k, ops, i, t, listed, end);
  }

  lemma CallDecides(
    d: Devices, s: State, c: Command, k: Clock, ops: seq<Op>, i: nat, t: Timer, listed: bool, end: nat)
    requires LastCall(d, s, c, ops, i)
    requires k == NaiveCommand(Abs(s), c) && k.log == s.log + [Issued(TimeTicks(s), c, i)]
    requires Slot(k, i, t, listed) && Ahead(t, listed, TimeTicks(s)) && end == TimeTicks(s) + TicksIn(ops)
    ensures ThenFires(d, s, c, ops, i, Expected(t, listed, end))
  {
    CallThenRun(d, s, c, ops);
    EventDecides(d, s.log, Issued(TimeTicks(s), c, i), k, ops, Abs(Run(d, s, [Do(c)] + ops)), i, t, listed, end);
  }

  /** What an activation puts into the slot. */
  lemma ActivatedSlot(k: Clock, i: nat, ticks: nat, continuous: bool, k': Clock, t: Timer, end: nat)
    requires Shaped(k.table) && 1 <= i < k.table.numTimers && k' == NaiveCommand(k, Activate(i, ticks, continuous))
    requires t == k'.table.timer[i] && end >= k.now
    ensures Slot(k', i, t, true) && Ahead(t, true, k.now) && t.funct == k.table.timer[i].funct
    ensures k'.log == k.log + [Issued(k.now, Activate(i, ticks, continuous), i)]
    ensures Expected(t, true, end) == if t.funct.None? then [] else ArmedFirings(k.now, ticks, continuous, end - k.now)
  {
    ArmedSchedule(t, k.now, ticks, end - k.now);
  }

  /** A timer activated at t0 for p ticks and not touched again: a continuous one fires at t0 + p, t0 + 2p, ...
      without drift, n / p times in n ticks; a one-shot fires once, at t0 + p. */
  lemma ActivatedTimer(d: Devices, s: State, i: nat, ticks: nat, continuous: bool, ops: seq<Op>)
    requires LastCall(d, s, Activate(i, ticks, continuous), ops, i) && 1 <= i < s.table.numTimers
    ensures ThenFires(d, s, Activate(i, ticks, continuous), ops, i,
              if s.table.timer[i].funct.None? then []
              else ArmedFirings(TimeTicks(s), ticks, continuous, TicksIn(ops)))
  {
    var c, end := Activate(i, ticks, continuous), TimeTicks(s) + TicksIn(ops);
    var k := NaiveCommand(Abs(s), c);
    ActivatedSlot(Abs(s), i, ticks, continuous, k, k.table.timer[i], end);
    CallDecides(d, s, c, k, ops, i, k.table.timer[i], true, end);
  }

  /** A deactivated timer does not fire. */
  lemma DeactivatedTimer(d: Devices, s: State, i: nat, ops: seq<Op>)
    requires LastCall(d, s, Deactivate(i), ops, i) && 1 <= i < s.table.numTimers
    ensures ThenFires(d, s, Deactivate(i), ops, i, [])
  {
    var now, t := TimeTicks(s), s.table.timer[i].(active := false);
    CallDecides(d, s, Deactivate(i), NaiveCommand(Abs(s), Deactivate(i)), ops, i, t, true, now + TicksIn(ops));
  }

  /** Slot `i` is the first that is not in use, or else the next to be allocated. */
  ghost predicate FirstFree(t: Table, i: nat)
    requires Shaped(t)
  {
    && 1 <= i <= t.numTimers && i < MAX_TIMERS && (i < t.numTimers ==> !t.timer[i].inUse)
    && forall j :: 1 <= j < i ==> t.timer[j].inUse
  }

  /** What a registration puts into the slot. */
  lemma RegisteredSlot(
    k: Clock, id: nat, ticks: nat, continuous: bool, active: bool, i: nat, k': Clock, t: Timer, end: nat)
    requires Shaped(k.table) && k.table.numTimers < MAX_TIMERS && FirstFree(k.table, i)
    requires k' == NaiveCommand(k, Register(id, ticks, continuous, active))
    requires t == k'.table.timer[i] && end >= k.now
    ensures Slot(k', i, t, true) && Ahead(t, true, k.now) && t.funct == Some(Device(id))
    ensures k'.log == k.log + [Issued(k.now, Register(id, ticks, continuous, active), i)]
    ensures Expected(t, true, end) == if active then ArmedFirings(k.now, ticks, continuous, end - k.now) else []
  {
    assert FreeSlotFrom(k.table, 1) == i;
    if active {
      ArmedSchedule(t, k.now, ticks, end - k.now);
    }
  }

  /** A timer is registered in the first free slot.  If it is active, it fires like one that is activated; if
      not, it does not fire. */
  lemma RegisteredTimer(
    d: Devices, s: State, id: nat, ticks: nat, continuous: bool, active: bool, ops: seq<Op>, i: nat)
    requires LastCall(d, s, Register(id, ticks, continuous, active), ops, i)
    requires s.table.numTimers < MAX_TIMERS && FirstFree(s.table, i)
    ensures ThenFires(d, s, Register(id, ticks, continuous, active), ops, i,
              if active then ArmedFirings(TimeTicks(s), ticks, continuous, TicksIn(ops)) else [])
  {
    var c, end := Register(id, ticks, continuous, active), TimeTicks(s) + TicksIn(ops);
    var k := NaiveCommand(Abs(s), c);
    RegisteredSlot(Abs(s), id, ticks, continuous, active, i, k, k.table.timer[i], end);
    CallDecides(d, s, c, k, ops, i, k.table.timer[i], true, end);
  }

  /** An inactive timer can be unregistered and does not fire; an active one cannot, and goes on firing. */
  lemma UnregisteredTimer(d: Devices, s: State, i: nat, ops: seq<Op>)
    requires LastCall(d, s, Unregister(i), ops, i) && 1 <= i < s.table.numTimers
    ensures ThenFires(d, s, Unregister(i), ops, i,
              if Armed(s.table, i) && s.table.timer[i].funct.Some?
              then Schedule(s.table.timer[i], TimeTicks(s) + TicksIn(ops)) else [])
  {
    var k := NaiveCommand(Abs(s), Unregister(i));
    var listed := i < k.table.numTimers;
    assert Armed(s.table, i) <==> s.table.timer[i].active;
    CallDecides(d, s, Unregister(i), k, ops, i, k.table.timer[i], listed, k.now + TicksIn(ops));
  }

  /** Unregistering the timer that was registered last, in a new slot, gives the slot back; no other slot changes. */
  lemma SlotGivenBack(s: State, id: nat, ticks: nat, continuous: bool)
    requires StateShaped(s) && s.table.numTimers < MAX_TIMERS && FirstFree(s.table, s.table.numTimers)
    ensures var i := s.table.numTimers;
      var s' := DoCommand(DoCommand(s, Register(id, ticks, continuous, false)), Unregister(i));
      && s'.table.numTimers == i && FirstFree(s'.table, i)
      && forall j :: 0 <= j < MAX_TIMERS && j != i ==> s'.table.timer[j] == s.table.timer[j]
  {
    assert FreeSlotFrom(s.table, 1) == s.table.numTimers;
  }
}
