/** The timer table of the PC system, the countdown scheduler that drives it, and the naive
    scheduler that the countdown one is an optimisation of.

    Device callbacks are an arbitrary deterministic function `Devices`: given everything the devices
    have seen so far, the timer table and the handler being called, it returns the timer calls the
    callback makes.  The results of those calls are determined by the table, so a callback that
    reacts to a returned timer id is covered as well. */
module Timers {
  import opened Machine

  const MAX_TIMERS: nat := 64
  const MIN_PERIOD: nat := 1
  const NULL_INTERVAL: nat := 0xffff_ffff
  const MAX_BIT64: nat := 0xffff_ffff_ffff_ffff
  const MAX_BIT64S: nat := 0x7fff_ffff_ffff_ffff

  /** The last tick at which the null timer's next deadline still fits in 64 bits. */
  const HORIZON: nat := MAX_BIT64 - NULL_INTERVAL

  datatype Handler = NullTimer | Device(id: nat)

  datatype Timer = Timer(
    inUse: bool, period: nat, timeToFire: nat, active: bool, continuous: bool, funct: Option<Handler>)

  datatype Table = Table(timer: seq<Timer>, numTimers: nat)

  datatype Command =
    | Activate(slot: nat, ticks: nat, continuous: bool)
    | Deactivate(slot: nat)
    | Register(id: nat, ticks: nat, continuous: bool, active: bool)
    | Unregister(slot: nat)

  /** A firing of a slot, or a timer call and the slot that it acts on: for a registration, the one it gives
      out. */
  datatype Event = Fired(tick: nat, slot: nat) | Issued(tick: nat, command: Command, slot: nat)

  type Devices = (seq<Event>, Table, nat) -> seq<Command>

  function Max(a: nat, b: nat): nat { if a < b then b else a }

  function Min(a: nat, b: nat): nat { if a < b then a else b }

  // ---------------------------------------------------------------- the timer table

  /** 64 slots, of which at least the null timer is allocated. */
  predicate Shaped(t: Table) {
    |t.timer| == MAX_TIMERS && 1 <= t.numTimers <= MAX_TIMERS
  }

  /** Slot `i` takes part in the countdown. */
  predicate Armed(t: Table, i: nat)
    requires Shaped(t)
  {
    i < t.numTimers && t.timer[i].active
  }

  /** Slot 0 is the null timer and armed periods are positive. */
  ghost predicate TableOk(t: Table) {
    && Shaped(t)
    && t.timer[0].inUse && t.timer[0].active && t.timer[0].continuous
    && t.timer[0].period == NULL_INTERVAL
    && t.timer[0].funct == Some(NullTimer)
    && forall i: nat {:trigger Armed(t, i)} :: Armed(t, i) ==> t.timer[i].period >= MIN_PERIOD
  }

  /** The caller's side of the interface: slot 0 is out of bounds, and so are unallocated slots. */
  predicate Legal(t: Table, c: Command) {
    c.Register? || 1 <= c.slot < t.numTimers
  }

  /** The first slot at or after `i` that is not in use, or else the next slot to allocate. */
  function FreeSlotFrom(t: Table, i: nat): (r: nat)
    requires Shaped(t) && i <= t.numTimers
    ensures i <= r <= t.numTimers
    ensures r < t.numTimers ==> !t.timer[r].inUse
    ensures forall j :: i <= j < r ==> t.timer[j].inUse
    decreases t.numTimers - i
  {
    if i == t.numTimers || !t.timer[i].inUse then i else FreeSlotFrom(t, i + 1)
  }

  /** The slot that call `c` acts on; a registration that finds the table full acts on none. */
  function Target(t: Table, c: Command): (r: nat)
    requires Shaped(t) && Legal(t, c)
  {
    if !c.Register? then c.slot else if t.numTimers >= MAX_TIMERS then MAX_TIMERS else FreeSlotFrom(t, 1)
  }

  /** The effect of a timer call, made at time `now`, on the table. */
  function Apply(t: Table, now: nat, c: Command): (r: Table)
    requires Shaped(t) && Legal(t, c)
    ensures Shaped(r)
  {
    match c
    case Activate(i, ticks, continuous) =>
      var p := Max(ticks, MIN_PERIOD);
      t.(timer := t.timer[i := t.timer[i].(
                                 period := p, timeToFire := now + p, active := true, continuous := continuous)])
    case Deactivate(i) =>
      t.(timer := t.timer[i := t.timer[i].(active := false)])
    case Register(id, ticks, continuous, active) =>
      if t.numTimers >= MAX_TIMERS then t else
      var i := FreeSlotFrom(t, 1);
      var p := Max(ticks, MIN_PERIOD);
      Table(t.timer[i := Timer(true, p, now + p, active, continuous, Some(Device(id)))],
            if i == t.numTimers then t.numTimers + 1 else t.numTimers)
    case Unregister(i) =>
      if t.timer[i].active then t else
      Table(t.timer[i := Timer(false, MAX_BIT64S, MAX_BIT64S, false, false, None)],
            if i == t.numTimers - 1 then t.numTimers - 1 else t.numTimers)
  }

  /** How far ahead call `c` puts a new deadline, if it arms a timer at all. */
  function ArmsIn(t: Table, c: Command): Option<nat> {
    match c
    case Activate(_, ticks, _) => Some(Max(ticks, MIN_PERIOD))
    case Register(_, ticks, _, active) =>
      if active && t.numTimers < MAX_TIMERS then Some(Max(ticks, MIN_PERIOD)) else None
    case _ => None
  }

  predicate Due(t: Table, now: nat, i: nat)
    requires Shaped(t)
  {
    Armed(t, i) && t.timer[i].timeToFire == now
  }

  /** The slots due at `now`: the snapshot taken before any callback runs. */
  function DueSet(t: Table, now: nat): set<nat>
    requires Shaped(t)
  {
    set i: nat | i < MAX_TIMERS && Due(t, now, i)
  }

  function Rearm(t: Timer): Timer {
    if t.continuous then t.(timeToFire := t.timeToFire + t.period) else t.(active := false)
  }

  /** Due one-shots are disarmed, due continuous timers move on by one period. */
  function Rearmed(t: Table, now: nat): (r: Table)
    requires Shaped(t)
    ensures Shaped(r) && r.numTimers == t.numTimers
    ensures forall i: nat :: i < MAX_TIMERS ==>
      r.timer[i] == if Due(t, now, i) then Rearm(t.timer[i]) else t.timer[i]
  {
    t.(timer := seq(MAX_TIMERS, i requires 0 <= i < MAX_TIMERS =>
                                  if Due(t, now, i) then Rearm(t.timer[i]) else t.timer[i]))
  }

  function Reaction(d: Devices, log: seq<Event>, t: Table, h: Handler): seq<Command> {
    match h
    case NullTimer => []
    case Device(id) => d(log, t, id)
  }

  // ---------------------------------------------------------------- the naive scheduler

  /** The naive scheduler knows only the time; at each tick it looks at every timer. */
  datatype Clock = Clock(table: Table, log: seq<Event>, now: nat)

  /** An illegal call is dropped, so that `Devices` need not be constrained. */
  function NaiveCommand(k: Clock, c: Command): (r: Clock)
    requires Shaped(k.table)
    ensures Shaped(r.table) && r.now == k.now && k.log <= r.log
  {
    if Legal(k.table, c)
    then Clock(Apply(k.table, k.now, c), k.log + [Issued(k.now, c, Target(k.table, c))], k.now)
    else k
  }

  function NaiveCommands(k: Clock, cs: seq<Command>): (r: Clock)
    requires Shaped(k.table)
    ensures Shaped(r.table) && r.now == k.now && k.log <= r.log
    decreases |cs|
  {
    if cs == [] then k else NaiveCommands(NaiveCommand(k, cs[0]), cs[1..])
  }

  /** Calls the callback in slot `i`, if there is one by now. */
  function NaiveCall(d: Devices, k: Clock, i: nat): (r: Clock)
    requires Shaped(k.table) && i < MAX_TIMERS
    ensures Shaped(r.table) && r.now == k.now && k.log <= r.log
  {
    match k.table.timer[i].funct
    case None => k
    case Some(h) =>
      var log := k.log + [Fired(k.now, i)];
      NaiveCommands(k.(log := log), Reaction(d, log, k.table, h))
  }

  /** Calls the slots of `due` below `n`, in increasing order. */
  function NaiveCalls(d: Devices, k: Clock, due: set<nat>, n: nat): (r: Clock)
    requires Shaped(k.table) && n <= MAX_TIMERS
    ensures Shaped(r.table) && r.now == k.now && k.log <= r.log
    decreases n
  {
    if n == 0 then k else
    var k' := NaiveCalls(d, k, due, n - 1);
    if n - 1 in due then NaiveCall(d, k', n - 1) else k'
  }

  /** One tick: fire whatever is due, in slot order. */
  function NaiveTick(d: Devices, k: Clock): (r: Clock)
    requires Shaped(k.table)
    ensures Shaped(r.table) && r.now == k.now + 1 && k.log <= r.log
  {
    var now := k.now + 1;
    NaiveCalls(d, Clock(Rearmed(k.table, now), k.log, now), DueSet(k.table, now), k.table.numTimers)
  }

  // ---------------------------------------------------------------- the countdown scheduler

  /** The countdown scheduler: `countdown` ticks are left of a stretch of `period` ticks that began
      at `ticksTotal`. */
  datatype State = State(table: Table, log: seq<Event>, ticksTotal: nat, period: nat, countdown: nat)

  predicate StateShaped(s: State) {
    Shaped(s.table) && s.countdown <= s.period
  }

  function TimeTicks(s: State): nat
    requires StateShaped(s)
  {
    s.ticksTotal + (s.period - s.countdown)
  }

  /** Shortens the stretch under way so that it ends in `ticks`. */
  function Skew(s: State, ticks: nat): State
    requires StateShaped(s)
  {
    if ticks < s.countdown
    then s.(period := s.period - (s.countdown - ticks), countdown := ticks)
    else s
  }

  function DoCommand(s: State, c: Command): (r: State)
    requires StateShaped(s)
    ensures StateShaped(r)
  {
    if !Legal(s.table, c) then s else
    var s' := s.(table := Apply(s.table, TimeTicks(s), c),
                 log := s.log + [Issued(TimeTicks(s), c, Target(s.table, c))]);
    match ArmsIn(s.table, c)
    case None => s'
    case Some(ticks) => Skew(s', ticks)
  }

  function DoCommands(s: State, cs: seq<Command>): (r: State)
    requires StateShaped(s)
    ensures StateShaped(r)
    decreases |cs|
  {
    if cs == [] then s else DoCommands(DoCommand(s, cs[0]), cs[1..])
  }

  function Call(d: Devices, s: State, i: nat): (r: State)
    requires StateShaped(s) && i < MAX_TIMERS
    ensures StateShaped(r)
  {
    match s.table.timer[i].funct
    case None => s
    case Some(h) =>
      var log := s.log + [Fired(TimeTicks(s), i)];
      DoCommands(s.(log := log), Reaction(d, log, s.table, h))
  }

  function Calls(d: Devices, s: State, due: set<nat>, n: nat): (r: State)
    requires StateShaped(s) && n <= MAX_TIMERS
    ensures StateShaped(r)
    decreases n
  {
    if n == 0 then s else
    var s' := Calls(d, s, due, n - 1);
    if n - 1 in due then Call(d, s', n - 1) else s'
  }

  /** The earliest deadline among the first `n` slots, never above the 64-bit maximum. */
  function MinTimeToFire(t: Table, n: nat): nat
    requires Shaped(t) && n <= MAX_TIMERS
  {
    if n == 0 then MAX_BIT64
    else if Armed(t, n - 1) then Min(MinTimeToFire(t, n - 1), t.timer[n - 1].timeToFire)
    else MinTimeToFire(t, n - 1)
  }

  /** The scan of an expired countdown, before the first callback runs.  The new countdown is
      narrowed to 32 bits. */
  function Reloaded(s: State): (r: State)
    requires StateShaped(s)
    ensures StateShaped(r)
  {
    var total := s.ticksTotal + s.period;
    var t := Rearmed(s.table, total);
    var countdown := (MinTimeToFire(t, t.numTimers) - total) % TWO_32;
    State(t, s.log, total, countdown, countdown)
  }

  function CountdownEvent(d: Devices, s: State): (r: State)
    requires StateShaped(s)
    ensures StateShaped(r)
  {
    Calls(d, Reloaded(s), DueSet(s.table, s.ticksTotal + s.period), s.table.numTimers)
  }

  function Tick1(d: Devices, s: State): (r: State)
    requires StateShaped(s) && s.countdown >= 1
    ensures StateShaped(r)
  {
    var s' := s.(countdown := s.countdown - 1);
    if s'.countdown == 0 then CountdownEvent(d, s') else s'
  }

  // ---------------------------------------------------------------- the invariant

  /** No armed deadline lies before the end of the stretch, and the null timer keeps the stretch
      within 32 bits. */
  ghost predicate StateOk(s: State) {
    && TableOk(s.table)
    && s.countdown <= s.period <= NULL_INTERVAL
    && (forall i: nat {:trigger Armed(s.table, i)} :: Armed(s.table, i) ==>
          s.table.timer[i].timeToFire >= s.ticksTotal + s.period)
    && s.table.timer[0].timeToFire <= s.ticksTotal + NULL_INTERVAL
  }

  /** Holds between events and inside callbacks. */
  ghost predicate Inv(s: State) {
    StateOk(s) && 1 <= s.countdown
  }

  function Abs(s: State): Clock
    requires StateShaped(s)
  {
    Clock(s.table, s.log, TimeTicks(s))
  }

  lemma CommandRefines(s: State, c: Command)
    requires Inv(s)
    ensures Inv(DoCommand(s, c))
    ensures Abs(DoCommand(s, c)) == NaiveCommand(Abs(s), c)
  {
    var s' := DoCommand(s, c);
    forall i: nat | Armed(s'.table, i)
      ensures s'.table.timer[i].period >= MIN_PERIOD
      ensures s'.table.timer[i].timeToFire >= s'.ticksTotal + s'.period
    {
      assert Armed(s.table, i) || ArmsIn(s.table, c).Some?;
    }
  }

  lemma {:induction false} CommandsRefine(s: State, cs: seq<Command>)
    requires Inv(s)
    ensures Inv(DoCommands(s, cs))
    ensures Abs(DoCommands(s, cs)) == NaiveCommands(Abs(s), cs)
    decreases |cs|
  {
    if cs != [] {
      CommandRefines(s, cs[0]);
      CommandsRefine(DoCommand(s, cs[0]), cs[1..]);
    }
  }

  lemma CallRefines(d: Devices, s: State, i: nat)
    requires Inv(s) && i < MAX_TIMERS
    ensures Inv(Call(d, s, i))
    ensures Abs(Call(d, s, i)) == NaiveCall(d, Abs(s), i)
  {
    var f := s.table.timer[i].funct;
    if f.Some? {
      var log := s.log + [Fired(TimeTicks(s), i)];
      CommandsRefine(s.(log := log), Reaction(d, log, s.table, f.value));
    }
  }

  lemma {:induction false} CallsRefine(d: Devices, s: State, due: set<nat>, n: nat)
    requires Inv(s) && n <= MAX_TIMERS
    ensures Inv(Calls(d, s, due, n))
    ensures Abs(Calls(d, s, due, n)) == NaiveCalls(d, Abs(s), due, n)
    decreases n
  {
    if n > 0 {
      CallsRefine(d, s, due, n - 1);
      if n - 1 in due {
        CallRefines(d, Calls(d, s, due, n - 1), n - 1);
      }
    }
  }

  /** An expired countdown, ready for `CountdownEvent`. */
  ghost predicate Expired(s: State) {
    StateOk(s) && s.countdown == 0 && 1 <= s.period && TimeTicks(s) <= HORIZON
  }

  /** After the scan every armed deadline lies ahead, and the null timer's within 32 bits. */
  lemma RearmedDeadlines(s: State)
    requires StateOk(s) && 1 <= s.period
    ensures var t := Rearmed(s.table, s.ticksTotal + s.period);
      && TableOk(t)
      && (forall i: nat {:trigger Armed(t, i)} :: Armed(t, i) ==> t.timer[i].timeToFire > s.ticksTotal + s.period)
      && t.timer[0].timeToFire <= s.ticksTotal + s.period + NULL_INTERVAL
  {
    var t := Rearmed(s.table, s.ticksTotal + s.period);
    forall i: nat | Armed(t, i)
      ensures t.timer[i].timeToFire > s.ticksTotal + s.period && t.timer[i].period >= MIN_PERIOD
    {
      assert Armed(s.table, i);
    }
    assert Armed(s.table, 0);
  }

  lemma {:induction false} MinIsEarliest(t: Table, n: nat, bound: nat)
    requires Shaped(t) && n <= MAX_TIMERS && bound < MAX_BIT64
    requires forall i: nat {:trigger Armed(t, i)} :: Armed(t, i) ==> t.timer[i].timeToFire > bound
    ensures bound < MinTimeToFire(t, n) <= MAX_BIT64
    ensures forall i: nat {:trigger Armed(t, i)} :: i < n && Armed(t, i) ==>
      MinTimeToFire(t, n) <= t.timer[i].timeToFire
  {
    if n > 0 {
      MinIsEarliest(t, n - 1, bound);
    }
  }

  lemma NarrowingIsLossless(ticks: nat)
    requires ticks <= NULL_INTERVAL
    ensures ticks % TWO_32 == ticks
  {
  }

  /** The new countdown runs exactly to the earliest deadline, at least one tick ahead. */
  lemma ReloadOk(s: State)
    requires Expired(s)
    ensures Inv(Reloaded(s))
    ensures forall i: nat {:trigger Armed(s.table, i)} :: Armed(s.table, i) ==>
      TimeTicks(s) <= s.table.timer[i].timeToFire
    ensures var t := Reloaded(s).table;
      Reloaded(s).countdown == MinTimeToFire(t, t.numTimers) - TimeTicks(s)
  {
    RearmedDeadlines(s);
    var total := s.ticksTotal + s.period;
    var t := Rearmed(s.table, total);
    MinIsEarliest(t, t.numTimers, total);
    assert Armed(t, 0);
    NarrowingIsLossless(MinTimeToFire(t, t.numTimers) - total);
  }

  lemma EventRefines(d: Devices, s: State)
    requires Expired(s)
    ensures Inv(CountdownEvent(d, s))
    ensures Abs(CountdownEvent(d, s)) == NaiveTick(d, Clock(s.table, s.log, TimeTicks(s) - 1))
  {
    ReloadOk(s);
    CallsRefine(d, Reloaded(s), DueSet(s.table, s.ticksTotal + s.period), s.table.numTimers);
  }

  /** A tick that does not end the stretch has nothing to fire, in the naive scheduler either. */
  lemma {:induction false} NothingDue(d: Devices, k: Clock, n: nat)
    requires Shaped(k.table) && n <= MAX_TIMERS
    ensures NaiveCalls(d, k, {}, n) == k
    decreases n
  {
    if n > 0 {
      NothingDue(d, k, n - 1);
    }
  }

  /** One tick of the countdown scheduler is one tick of the naive scheduler. */
  lemma TickRefines(d: Devices, s: State)
    requires Inv(s) && TimeTicks(s) < HORIZON
    ensures Inv(Tick1(d, s))
    ensures Abs(Tick1(d, s)) == NaiveTick(d, Abs(s))
  {
    if s.countdown == 1 {
      EventRefines(d, s.(countdown := 0));
    } else {
      var now := TimeTicks(s) + 1;
      assert DueSet(s.table, now) == {};
      assert Rearmed(s.table, now) == s.table;
      NothingDue(d, Clock(s.table, s.log, now), s.table.numTimers);
    }
  }

  // ---------------------------------------------------------------- whole runs

  datatype Op = Tick | Do(command: Command)

  function TicksIn(ops: seq<Op>): nat {
    if ops == [] then 0 else (if ops[0].Tick? then 1 else 0) + TicksIn(ops[1..])
  }

  function NaiveRun(d: Devices, k: Clock, ops: seq<Op>): (r: Clock)
    requires Shaped(k.table)
    ensures Shaped(r.table) && r.now == k.now + TicksIn(ops) && k.log <= r.log
    decreases |ops|
  {
    if ops == [] then k else
    match ops[0]
    case Tick => NaiveRun(d, NaiveTick(d, k), ops[1..])
    case Do(c) => NaiveRun(d, NaiveCommand(k, c), ops[1..])
  }

  function Run(d: Devices, s: State, ops: seq<Op>): (r: State)
    requires Inv(s) && TimeTicks(s) + TicksIn(ops) <= HORIZON
    ensures Inv(r)
    decreases |ops|
  {
    if ops == [] then s else
    match ops[0]
    case Tick => TickRefines(d, s); Run(d, Tick1(d, s), ops[1..])
    case Do(c) => CommandRefines(s, c); Run(d, DoCommand(s, c), ops[1..])
  }

  /** Over any run of ticks and timer calls, whatever the callbacks do, the countdown scheduler fires
      the same timers at the same ticks as the naive one, and leaves the same table and time. */
  lemma {:induction false} RunRefines(d: Devices, s: State, ops: seq<Op>)
    requires Inv(s) && TimeTicks(s) + TicksIn(ops) <= HORIZON
    ensures Abs(Run(d, s, ops)) == NaiveRun(d, Abs(s), ops)
    decreases |ops|
  {
    if ops != [] {
      match ops[0]
      case Tick => TickRefines(d, s); RunRefines(d, Tick1(d, s), ops[1..]);
      case Do(c) => CommandRefines(s, c); RunRefines(d, DoCommand(s, c), ops[1..]);
    }
  }

  /** `n` calls of `Tick1`. */
  function Ticks(d: Devices, s: State, n: nat): (r: State)
    requires Inv(s) && TimeTicks(s) + n <= HORIZON
    ensures Inv(r) && TimeTicks(r) == TimeTicks(s) + n
    decreases n
  {
    if n == 0 then s else TickRefines(d, s); Ticks(d, Tick1(d, s), n - 1)
  }

  /** One call of `tickn`: whole stretches are skipped in one go. */
  function TickN(d: Devices, s: State, n: nat): (r: State)
    requires Inv(s) && TimeTicks(s) + n <= HORIZON
    ensures Inv(r) && TimeTicks(r) == TimeTicks(s) + n
    decreases n
  {
    if n < s.countdown then s.(countdown := s.countdown - n) else
    var s' := s.(countdown := 0);
    EventRefines(d, s');
    TickN(d, CountdownEvent(d, s'), n - s.countdown)
  }

  lemma {:induction false} TicksWithinStretch(d: Devices, s: State, n: nat)
    requires Inv(s) && TimeTicks(s) + n <= HORIZON && n < s.countdown
    ensures Ticks(d, s, n) == s.(countdown := s.countdown - n)
    decreases n
  {
    if n > 0 {
      TicksWithinStretch(d, Tick1(d, s), n - 1);
    }
  }

  lemma {:induction false} TicksSplit(d: Devices, s: State, a: nat, b: nat)
    requires Inv(s) && TimeTicks(s) + a + b <= HORIZON
    ensures Ticks(d, s, a + b) == Ticks(d, Ticks(d, s, a), b)
    decreases a
  {
    if a > 0 {
      TickRefines(d, s);
      TicksSplit(d, Tick1(d, s), a - 1, b);
    }
  }

  /** Ticking through the whole stretch triggers the event. */
  lemma {:induction false} TicksToExpiry(d: Devices, s: State)
    requires Inv(s) && TimeTicks(s) + s.countdown <= HORIZON
    ensures Ticks(d, s, s.countdown) == CountdownEvent(d, s.(countdown := 0))
    decreases s.countdown
  {
    TickRefines(d, s);
    if s.countdown > 1 {
      TicksToExpiry(d, Tick1(d, s));
    }
  }

  /** `tickn(n)` leaves exactly the state and the firings of `n` single ticks. */
  lemma {:induction false} TickNIsTicks(d: Devices, s: State, n: nat)
    requires Inv(s) && TimeTicks(s) + n <= HORIZON
    ensures TickN(d, s, n) == Ticks(d, s, n)
    decreases n
  {
    if n < s.countdown {
      TicksWithinStretch(d, s, n);
    } else {
      TicksToExpiry(d, s);
      TicksSplit(d, s, s.countdown, n - s.countdown);
      TickNIsTicks(d, Ticks(d, s, s.countdown), n - s.countdown);
    }
  }

  /** How the ticks are grouped into calls of `tickn` makes no difference. */
  lemma TickNSplit(d: Devices, s: State, a: nat, b: nat)
    requires Inv(s) && TimeTicks(s) + a + b <= HORIZON
    ensures TickN(d, s, a + b) == TickN(d, TickN(d, s, a), b)
  {
    var n, m := a + b, TickN(d, s, a);
    TickNIsTicks(d, s, n);
    TickNIsTicks(d, s, a);
    TickNIsTicks(d, m, b);
    TicksSplit(d, s, a, b);
  }
}
