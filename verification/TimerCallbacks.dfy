/** What callbacks do to the timers: every legal call that a device makes is carried out where it is made, a call
    made in a callback decides the rest of the tick and of the run, and a callback can re-arm its own timer. */
module TimerCallbacks {
  import opened Machine
  import opened Timers
  import opened TimerFirings
  import PcSystem

  // ---------------------------------------------------------------- the calls of one callback

  /** The events of the timer calls `cs`, made one after the other: the legal ones are carried out. */
  function Issues(k: Clock, cs: seq<Command>): seq<Event>
    requires Shaped(k.table)
    decreases |cs|
  {
    if cs == [] then []
    else if cs[0].Register? || 1 <= cs[0].slot < k.table.numTimers
    then [Issued(k.now, cs[0], Target(k.table, cs[0]))] + Issues(NaiveCommand(k, cs[0]), cs[1..])
    else Issues(k, cs[1..])
  }

  lemma {:induction false} CommandsIssue(k: Clock, cs: seq<Command>)
    requires Shaped(k.table)
    ensures NaiveCommands(k, cs).log == k.log + Issues(k, cs)
    decreases |cs|
  {
    if cs != [] {
      CommandsIssue(NaiveCommand(k, cs[0]), cs[1..]);
    }
  }

  /** The clock at the tick after `k`, before the first callback. */
  function TickStart(k: Clock): Clock
    requires Shaped(k.table)
  {
    Clock(Rearmed(k.table, k.now + 1), k.log, k.now + 1)
  }

  /** The clock at the tick after `k` when it is slot `m`'s turn. */
  function TurnOf(d: Devices, k: Clock, m: nat): (r: Clock)
    requires Shaped(k.table) && m <= MAX_TIMERS
    ensures Shaped(r.table) && r.now == k.now + 1 && k.log <= r.log
  {
    NaiveCalls(d, TickStart(k), DueSet(k.table, k.now + 1), m)
  }

  /** At the tick after `k`, the callback of device `id` is called for slot `m` at `b`. */
  ghost predicate CalledAt(d: Devices, k: Clock, m: nat, id: nat, b: Clock) {
    && Shaped(k.table) && m < MAX_TIMERS && Armed(k.table, m) && k.table.timer[m].timeToFire == k.now + 1
    && b == TurnOf(d, k, m) && b.table.timer[m].funct == Some(Device(id))
  }

  lemma TickThenRun(d: Devices, s: State, ops: seq<Op>)
    requires Inv(s) && TimeTicks(s) + TicksIn([Tick] + ops) <= HORIZON
    ensures Abs(Run(d, s, [Tick] + ops)) == NaiveRun(d, NaiveTick(d, Abs(s)), ops)
    ensures TicksIn([Tick] + ops) == 1 + TicksIn(ops)
  {
    assert ([Tick] + ops)[1..] == ops;
    RunRefines(d, s, [Tick] + ops);
  }

  lemma AfterTurn(d: Devices, k: Clock, m: nat, due: set<nat>, n: nat)
    requires Shaped(k.table) && m < MAX_TIMERS && Due(k.table, k.now + 1, m)
    requires due == DueSet(k.table, k.now + 1) && n == k.table.numTimers
    ensures NaiveTick(d, k) == CallsFrom(d, NaiveCall(d, TurnOf(d, k, m), m), due, m + 1, n)
  {
    CallsSplit(d, TickStart(k), due, m + 1, n);
  }

  /** A tick at which slot `m` fires: its callback is called with what has happened so far, and the calls that it
      makes follow in the log. */
  lemma CallbackIssues(d: Devices, s: State, ops: seq<Op>, m: nat, id: nat, b: Clock)
    requires Inv(s) && TimeTicks(s) + TicksIn([Tick] + ops) <= HORIZON
    requires CalledAt(d, Abs(s), m, id, b)
    ensures var log := b.log + [Fired(b.now, m)];
      log + Issues(b.(log := log), d(log, b.table, id)) <= Run(d, s, [Tick] + ops).log
  {
    var log := b.log + [Fired(b.now, m)];
    CommandsIssue(b.(log := log), d(log, b.table, id));
    AfterTurn(d, Abs(s), m, DueSet(s.table, b.now), s.table.numTimers);
    TickThenRun(d, s, ops);
  }

  // ---------------------------------------------------------------- a call made in a callback

  lemma {:induction false} CommandsAt(k: Clock, cs: seq<Command>, q: nat)
    requires Shaped(k.table) && q < |cs|
    ensures NaiveCommands(k, cs) == NaiveCommands(NaiveCommand(NaiveCommands(k, cs[..q]), cs[q]), cs[q + 1..])
    decreases q
  {
    if q > 0 {
      CommandsAt(NaiveCommand(k, cs[0]), cs[1..], q - 1);
      assert cs[1..][..q - 1] == cs[..q][1..] && cs[1..][q..] == cs[q + 1..];
    }
  }

  /** At the tick after `k`, call number `q` that the callback of slot `m` makes is `c`, and it is made at `b`. */
  ghost predicate MadeAt(d: Devices, k: Clock, m: nat, id: nat, q: nat, c: Command, b: Clock) {
    && Shaped(k.table) && m < MAX_TIMERS
    && MadeFrom(d, k, m, id, q, c, b, TurnOf(d, k, m))
  }

  ghost predicate MadeFrom(d: Devices, k: Clock, m: nat, id: nat, q: nat, c: Command, b: Clock, a: Clock) {
    && CalledAt(d, k, m, id, a)
    && var log := a.log + [Fired(a.now, m)];
    var cs := d(log, a.table, id);
    q < |cs| && c == cs[q] && b == NaiveCommands(a.(log := log), cs[..q])
  }

  /** The tick goes on with the other calls of the callback and with the callbacks of the later slots. */
  lemma RestOfTick(d: Devices, k: Clock, m: nat, id: nat, q: nat, c: Command, b: Clock)
    returns (rest: seq<Command>)
    requires MadeAt(d, k, m, id, q, c, b)
    ensures Shaped(k.table) && Shaped(b.table) && b.now == k.now + 1 && m < k.table.numTimers
    ensures NaiveTick(d, k)
         == CallsFrom(d, NaiveCommands(NaiveCommand(b, c), rest), DueSet(k.table, b.now), m + 1, k.table.numTimers)
  {
    var a := TurnOf(d, k, m);
    var log := a.log + [Fired(a.now, m)];
    var cs := d(log, a.table, id);
    CommandsAt(a.(log := log), cs, q);
    AfterTurn(d, k, m, DueSet(k.table, k.now + 1), k.table.numTimers);
    rest := cs[q + 1..];
  }

  /** Slot `i` is due at the tick after `k` and has its turn behind slot `m`: the scan has marked it, so that it
      fires once more. */
  function Snapshot(k: Clock, m: nat, i: nat): seq<nat>
    requires Shaped(k.table)
  {
    if m < i && Armed(k.table, i) && k.table.timer[i].timeToFire == k.now + 1 then [k.now + 1] else []
  }

  /** After clock `b`, slot `i` fires at the ticks `now`, and later at the ticks `after`. */
  predicate Later(log: seq<Event>, b: Clock, i: nat, now: seq<nat>, after: seq<nat>) {
    Firings(log, i) == Firings(b.log, i) + now + after
  }

  lemma RestKeeps(d: Devices, b: Clock, rest: seq<Command>, due: set<nat>, m: nat, n: nat, e: Clock, i: nat, t: Timer,
                  listed: bool)
    requires Slot(b, i, t, listed) && m < n <= MAX_TIMERS
    requires e == CallsFrom(d, NaiveCommands(b, rest), due, m + 1, n) && Untouched(e.log, |b.log|, i)
    ensures Slot(e, i, t, listed)
    ensures Firings(e.log, i) == Firings(b.log, i) + if i in due && m < i < n && t.funct.Some? then [b.now] else []
  {
    UntouchedSplit(b.log, NaiveCommands(b, rest).log, e.log, i);
    CommandsKeep(b, rest, i, t, listed);
    CallsKeep(d, NaiveCommands(b, rest), due, m + 1, n, e, i, t, listed);
  }

  lemma RestOfTickKeeps(d: Devices, k: Clock, m: nat, id: nat, q: nat, c: Command, b: Clock, b': Clock, e: Clock,
                        i: nat, t: Timer, listed: bool)
    requires MadeAt(d, k, m, id, q, c, b) && Shaped(k.table) && Shaped(b.table)
    requires b' == NaiveCommand(b, c) && b'.log == b.log + [Issued(b.now, c, i)] && Slot(b', i, t, listed)
    requires e == NaiveTick(d, k) && Untouched(e.log, |b.log| + 1, i)
    ensures Slot(e, i, t, listed)
    ensures Firings(e.log, i) == Firings(b.log, i) + if t.funct.Some? then Snapshot(k, m, i) else []
  {
    var rest := RestOfTick(d, k, m, id, q, c, b);
    FiringsAppend(b.log, Issued(b.now, c, i), i);
    RestKeeps(d, b', rest, DueSet(k.table, b.now), m, k.table.numTimers, e, i, t, listed);
  }

  lemma CallBeforeEnd(d: Devices, k: Clock, m: nat, id: nat, q: nat, c: Command, b: Clock, b': Clock)
    requires MadeAt(d, k, m, id, q, c, b) && Shaped(k.table) && Shaped(b.table) && b' == NaiveCommand(b, c)
    ensures b.now == k.now + 1 && b'.log <= NaiveTick(d, k).log
  {
    var rest := RestOfTick(d, k, m, id, q, c, b);
  }

  /** What a call in a callback has put into the slot decides, but for a slot that the scan has marked already:
      that one fires in the same tick, unless it has lost its function. */
  lemma CallInTick(
    d: Devices, k: Clock, m: nat, id: nat, q: nat, c: Command, b: Clock, b': Clock, ops: seq<Op>, e: Clock, r: Clock,
    i: nat, t: Timer, listed: bool, end: nat)
    requires MadeAt(d, k, m, id, q, c, b) && Shaped(k.table) && Shaped(b.table)
    requires b' == NaiveCommand(b, c) && b'.log == b.log + [Issued(b.now, c, i)]
    requires Slot(b', i, t, listed) && Ahead(t, listed, b.now)
    requires e == NaiveTick(d, k) && r == NaiveRun(d, e, ops) && end == k.now + 1 + TicksIn(ops)
    requires Untouched(r.log, |b.log| + 1, i)
    ensures Later(r.log, b, i, if t.funct.Some? then Snapshot(k, m, i) else [], Expected(t, listed, end))
  {
    CallBeforeEnd(d, k, m, id, q, c, b, b');
    UntouchedSplit(b'.log, e.log, r.log, i);
    RestOfTickKeeps(d, k, m, id, q, c, b, b', e, i, t, listed);
    RunFires(d, e, ops, i, t, listed, end);
  }

  /** A callback in the tick after `s` makes call `c` at `b`; after that no event touches slot `i`. */
  ghost predicate LastInTick(
    d: Devices, s: State, m: nat, id: nat, q: nat, c: Command, b: Clock, ops: seq<Op>, i: nat) {
    && Inv(s) && TimeTicks(s) + TicksIn([Tick] + ops) <= HORIZON
    && MadeAt(d, Abs(s), m, id, q, c, b) && i < MAX_TIMERS
    && Untouched(Run(d, s, [Tick] + ops).log, |b.log| + 1, i)
  }

  lemma CallDecidesInTick(
    d: Devices, s: State, m: nat, id: nat, q: nat, c: Command, b: Clock, b': Clock, ops: seq<Op>, i: nat, t: Timer,
    listed: bool, end: nat, after: seq<nat>)
    requires LastInTick(d, s, m, id, q, c, b, ops, i) && Shaped(b.table)
    requires b' == NaiveCommand(b, c) && b'.log == b.log + [Issued(b.now, c, i)]
    requires Slot(b', i, t, listed) && Ahead(t, listed, b.now)
    requires end == TimeTicks(s) + 1 + TicksIn(ops) && after == Expected(t, listed, end)
    ensures Later(Run(d, s, [Tick] + ops).log, b, i,
              if t.funct.Some? then Snapshot(Abs(s), m, i) else [], after)
  {
    var k, r := Abs(s), Abs(Run(d, s, [Tick] + ops));
    assert r == NaiveRun(d, NaiveTick(d, k), ops) by {
      TickThenRun(d, s, ops);
    }
    CallInTick(d, k, m, id, q, c, b, b', ops, NaiveTick(d, k), r, i, t, listed, end);
  }

  /** A timer that a callback deactivates does not fire any more, but for the tick under way if the scan has marked
      it and its turn is still to come: then it fires exactly that once. */
  lemma DeactivatedInCallback(
    d: Devices, s: State, m: nat, id: nat, q: nat, b: Clock, ops: seq<Op>, i: nat)
    requires LastInTick(d, s, m, id, q, Deactivate(i), b, ops, i) && 1 <= i < b.table.numTimers
    ensures Later(Run(d, s, [Tick] + ops).log, b, i,
              if b.table.timer[i].funct.Some? then Snapshot(Abs(s), m, i) else [], [])
  {
    var c, t := Deactivate(i), b.table.timer[i].(active := false);
    CallDecidesInTick(d, s, m, id, q, c, b, NaiveCommand(b, c), ops, i, t, true, TimeTicks(s) + 1 + TicksIn(ops), []);
  }

  /** A timer that a callback unregisters does not fire any more, not even in the tick under way. */
  lemma UnregisteredInCallback(
    d: Devices, s: State, m: nat, id: nat, q: nat, b: Clock, ops: seq<Op>, i: nat)
    requires LastInTick(d, s, m, id, q, Unregister(i), b, ops, i) && 1 <= i < b.table.numTimers
    requires !b.table.timer[i].active
    ensures Later(Run(d, s, [Tick] + ops).log, b, i, [], [])
  {
    var c, end := Unregister(i), TimeTicks(s) + 1 + TicksIn(ops);
    var b' := NaiveCommand(b, c);
    CallDecidesInTick(d, s, m, id, q, c, b, b', ops, i, b'.table.timer[i], i < b'.table.numTimers, end, []);
  }

  /** A timer that a callback activates fires from that tick on like any other, and before that once more in the
      tick under way if it is in the snapshot and its turn is still to come. */
  lemma ActivatedInCallback(
    d: Devices, s: State, m: nat, id: nat, q: nat, b: Clock, ops: seq<Op>, i: nat, ticks: nat, continuous: bool)
    requires LastInTick(d, s, m, id, q, Activate(i, ticks, continuous), b, ops, i) && 1 <= i < b.table.numTimers
    ensures Later(Run(d, s, [Tick] + ops).log, b, i,
              if b.table.timer[i].funct.Some? then Snapshot(Abs(s), m, i) else [],
              if b.table.timer[i].funct.Some?
              then ArmedFirings(TimeTicks(s) + 1, ticks, continuous, TicksIn(ops)) else [])
  {
    var c, end := Activate(i, ticks, continuous), TimeTicks(s) + 1 + TicksIn(ops);
    var b' := NaiveCommand(b, c);
    ActivatedSlot(b, i, ticks, continuous, b', b'.table.timer[i], end);
    var t := b'.table.timer[i];
    CallDecidesInTick(d, s, m, id, q, c, b, b', ops, i, t, true, end, Expected(t, true, end));
  }

  /** A timer that a callback registers in the first free slot fires from that tick on, if it is active; a slot
      that was in the snapshot and given up in the meantime fires for its new owner once. */
  lemma RegisteredInCallback(
    d: Devices, s: State, m: nat, id: nat, q: nat, b: Clock, ops: seq<Op>, i: nat, id': nat, ticks: nat,
    continuous: bool, active: bool)
    requires LastInTick(d, s, m, id, q, Register(id', ticks, continuous, active), b, ops, i)
    requires b.table.numTimers < MAX_TIMERS && FirstFree(b.table, i)
    ensures Later(Run(d, s, [Tick] + ops).log, b, i,
              Snapshot(Abs(s), m, i),
              if active then ArmedFirings(TimeTicks(s) + 1, ticks, continuous, TicksIn(ops)) else [])
  {
    var c, end := Register(id', ticks, continuous, active), TimeTicks(s) + 1 + TicksIn(ops);
    var b' := NaiveCommand(b, c);
    RegisteredSlot(b, id', ticks, continuous, active, i, b', b'.table.timer[i], end);
    var t := b'.table.timer[i];
    CallDecidesInTick(d, s, m, id, q, c, b, b', ops, i, t, true, end, Expected(t, true, end));
  }

  // ---------------------------------------------------------------- a timer that re-arms itself

  /** Call `c` does not concern slot `i`, and does not give handler `id` another slot. */
  predicate Quiet(c: Command, i: nat, id: nat) {
    match c
    case Register(id', _, _, _) => id' != id
    case _ => c.slot != i
  }

  /** The callback of device `id` activates slot `i` again as a one-shot, and nobody else meddles with it. */
  ghost predicate Rearms(d: Devices, i: nat, id: nat, p: nat) {
    && (forall log, t :: d(log, t, id) == [Activate(i, p, false)])
    && (forall log, t, id' :: id' != id ==> forall c :: c in d(log, t, id') ==> Quiet(c, i, id))
  }

  /** Slot `i` holds timer `t` of device `id`, which has no other. */
  ghost predicate Owns(k: Clock, i: nat, id: nat, t: Timer) {
    && Shaped(k.table) && 1 <= i < k.table.numTimers
    && k.table.timer[i] == t && t.inUse && t.funct == Some(Device(id))
    && forall j :: 0 <= j < MAX_TIMERS && j != i ==> k.table.timer[j].funct != Some(Device(id))
  }

  lemma QuietCommand(k: Clock, c: Command, i: nat, id: nat, t: Timer)
    requires Owns(k, i, id, t) && Quiet(c, i, id)
    ensures Owns(NaiveCommand(k, c), i, id, t)
    ensures Firings(NaiveCommand(k, c).log, i) == Firings(k.log, i)
  {
    if Legal(k.table, c) {
      FiringsAppend(k.log, Issued(k.now, c, Target(k.table, c)), i);
    }
  }

  lemma {:induction false} QuietCommands(k: Clock, cs: seq<Command>, i: nat, id: nat, t: Timer)
    requires Owns(k, i, id, t) && forall c :: c in cs ==> Quiet(c, i, id)
    ensures Owns(NaiveCommands(k, cs), i, id, t)
    ensures Firings(NaiveCommands(k, cs).log, i) == Firings(k.log, i)
    decreases |cs|
  {
    if cs != [] {
      QuietCommand(k, cs[0], i, id, t);
      QuietCommands(NaiveCommand(k, cs[0]), cs[1..], i, id, t);
    }
  }

  lemma OthersAreQuiet(d: Devices, log: seq<Event>, t: Table, h: Handler, i: nat, id: nat, p: nat)
    requires Rearms(d, i, id, p) && h != Device(id)
    ensures forall c :: c in Reaction(d, log, t, h) ==> Quiet(c, i, id)
  {
  }

  /** The one-shot, armed anew at `now`. */
  function Again(t: Timer, p: nat, now: nat): Timer {
    t.(period := p, timeToFire := now + p, active := true, continuous := false)
  }

  lemma QuietTurn(d: Devices, k: Clock, j: nat, i: nat, id: nat, p: nat, t: Timer)
    requires Owns(k, i, id, t) && Rearms(d, i, id, p) && j < MAX_TIMERS && j != i
    ensures Owns(NaiveCall(d, k, j), i, id, t)
    ensures Firings(NaiveCall(d, k, j).log, i) == Firings(k.log, i)
  {
    var f := k.table.timer[j].funct;
    if f.Some? {
      var log := k.log + [Fired(k.now, j)];
      var k' := k.(log := log);
      FiringsAppend(k.log, Fired(k.now, j), i);
      OthersAreQuiet(d, log, k.table, f.value, i, id, p);
      QuietCommands(k', Reaction(d, log, k.table, f.value), i, id, t);
    }
  }

  lemma OwnTurn(d: Devices, k: Clock, i: nat, id: nat, p: nat, t: Timer)
    requires Owns(k, i, id, t) && Rearms(d, i, id, p) && p >= 1
    ensures Owns(NaiveCall(d, k, i), i, id, Again(t, p, k.now))
    ensures Firings(NaiveCall(d, k, i).log, i) == Firings(k.log, i) + [k.now]
  {
    var log, c := k.log + [Fired(k.now, i)], Activate(i, p, false);
    assert d(log, k.table, id) == [c];
    var k' := k.(log := log);
    assert NaiveCommands(k', [c]) == NaiveCommand(k', c);
    FiringsAppend(k.log, Fired(k.now, i), i);
    FiringsAppend(log, Issued(k.now, c, i), i);
  }

  lemma TurnRearms(d: Devices, k: Clock, j: nat, i: nat, id: nat, p: nat, t: Timer, r: Clock)
    requires Owns(k, i, id, t) && Rearms(d, i, id, p) && p >= 1 && j < MAX_TIMERS && r == NaiveCall(d, k, j)
    ensures Owns(r, i, id, if j == i then Again(t, p, k.now) else t)
    ensures Firings(r.log, i) == Firings(k.log, i) + if j == i then [k.now] else []
  {
    if j == i {
      OwnTurn(d, k, i, id, p, t);
    } else {
      QuietTurn(d, k, j, i, id, p, t);
    }
  }

  lemma {:induction false} TurnsRearm(
    d: Devices, k: Clock, due: set<nat>, n: nat, i: nat, id: nat, p: nat, t: Timer, r: Clock)
    requires Owns(k, i, id, t) && Rearms(d, i, id, p) && p >= 1 && n <= MAX_TIMERS && r == NaiveCalls(d, k, due, n)
    ensures Owns(r, i, id, if i in due && i < n then Again(t, p, k.now) else t)
    ensures Firings(r.log, i) == Firings(k.log, i) + if i in due && i < n then [k.now] else []
    decreases n
  {
    if n > 0 {
      var k' := NaiveCalls(d, k, due, n - 1);
      TurnsRearm(d, k, due, n - 1, i, id, p, t, k');
      if n - 1 in due {
        TurnRearms(d, k', n - 1, i, id, p, k'.table.timer[i], r);
      }
    }
  }

  /** A one-shot with period `p` that is armed and lies ahead. */
  predicate Shot(t: Timer, p: nat, now: nat) {
    t.active && !t.continuous && t.period == p >= 1 && t.timeToFire > now
  }

  lemma TickRearms(d: Devices, k: Clock, i: nat, id: nat, p: nat, t: Timer, t': Timer)
    requires Owns(k, i, id, t) && Rearms(d, i, id, p) && Shot(t, p, k.now)
    requires t' == if t.timeToFire == k.now + 1 then Again(t, p, k.now + 1) else t
    ensures Owns(NaiveTick(d, k), i, id, t')
    ensures Firings(NaiveTick(d, k).log, i)
         == Firings(k.log, i) + if t.timeToFire == k.now + 1 then [k.now + 1] else []
  {
    var k' := TickStart(k);
    var due, n := DueSet(k.table, k'.now), k.table.numTimers;
    TurnsRearm(d, k', due, n, i, id, p, k'.table.timer[i], NaiveTick(d, k));
  }

  /** The same timer as a continuous one. */
  function Continuous(t: Timer): Timer { t.(continuous := true) }

  lemma ShotThenRest(past: seq<nat>, t: Timer, p: nat, now: nat, t': Timer, end: nat)
    requires Shot(t, p, now) && now < end
    requires t' == if t.timeToFire == now + 1 then Again(t, p, now + 1) else t
    ensures Shot(t', p, now + 1)
    ensures past + (if t.timeToFire == now + 1 then [now + 1] else []) + Schedule(Continuous(t'), end)
         == past + Schedule(Continuous(t), end)
  {
    if t.timeToFire == now + 1 {
      assert Rearm(Continuous(t)) == Continuous(t');
      assert Schedule(Continuous(t), end) == [now + 1] + Schedule(Continuous(t'), end);
    }
  }

  /** A one-shot that its callback arms again fires on the schedule of a continuous timer. */
  lemma {:induction false} RunRearms(
    d: Devices, k: Clock, ops: seq<Op>, r: Clock, i: nat, id: nat, p: nat, t: Timer, end: nat)
    requires Owns(k, i, id, t) && Rearms(d, i, id, p) && Shot(t, p, k.now)
    requires forall c :: Do(c) in ops ==> Quiet(c, i, id)
    requires r == NaiveRun(d, k, ops) && end == k.now + TicksIn(ops)
    ensures Firings(r.log, i) == Firings(k.log, i) + Schedule(Continuous(t), end)
    decreases |ops|
  {
    if ops == [] {
    } else if ops[0].Tick? {
      var k' := NaiveTick(d, k);
      var t' := if t.timeToFire == k.now + 1 then Again(t, p, k.now + 1) else t;
      TickRearms(d, k, i, id, p, t, t');
      ShotThenRest(Firings(k.log, i), t, p, k.now, t', end);
      RunRearms(d, k', ops[1..], r, i, id, p, t', end);
    } else {
      assert Do(ops[0].command) in ops;
      QuietCommand(k, ops[0].command, i, id, t);
      RunRearms(d, NaiveCommand(k, ops[0].command), ops[1..], r, i, id, p, t, end);
    }
  }

  lemma RearmedTicks(
    d: Devices, k: Clock, ops: seq<Op>, r: Clock, i: nat, id: nat, p: nat, t: Timer, end: nat, ticks: seq<nat>)
    requires Owns(k, i, id, t) && Rearms(d, i, id, p) && Shot(t, p, k.now)
    requires forall c :: Do(c) in ops ==> Quiet(c, i, id)
    requires r == NaiveRun(d, k, ops) && end == k.now + TicksIn(ops) && ticks == Schedule(Continuous(t), end)
    ensures Firings(r.log, i) == Firings(k.log, i) + ticks
  {
    RunRearms(d, k, ops, r, i, id, p, t, end);
  }

  lemma ShotSchedule(t: Timer, p: nat, now: nat, n: nat) returns (end: nat, ticks: seq<nat>)
    requires Shot(t, p, now) && t.timeToFire == now + p
    ensures end == now + n && ticks == EveryPeriod(now, p, n) && ticks == Schedule(Continuous(t), end)
  {
    end, ticks := now + n, EveryPeriod(now, p, n);
    ContinuousSchedule(Continuous(t), now, n);
  }

  /** A one-shot armed at t0 for p ticks, whose device activates it again by p at each call, fires at t0 + p,
      t0 + 2p, ..., n / p times in n ticks. */
  lemma RearmingTimer(d: Devices, s: State, ops: seq<Op>, i: nat, id: nat, p: nat, t: Timer)
    requires Inv(s) && TimeTicks(s) + TicksIn(ops) <= HORIZON
    requires Owns(Abs(s), i, id, t) && Rearms(d, i, id, p)
    requires t.active && !t.continuous && t.period == p >= 1 && t.timeToFire == TimeTicks(s) + p
    requires forall c :: Do(c) in ops ==> Quiet(c, i, id)
    ensures Firings(Run(d, s, ops).log, i) == Firings(s.log, i) + EveryPeriod(TimeTicks(s), p, TicksIn(ops))
  {
    var end, ticks := ShotSchedule(t, p, TimeTicks(s), TicksIn(ops));
    RunRefines(d, s, ops);
    RearmedTicks(d, Abs(s), ops, Abs(Run(d, s, ops)), i, id, p, t, end, ticks);
  }

  // ---------------------------------------------------------------- the null timer

  /** No timer call acts on the null timer. */
  ghost predicate NullUntouched(log: seq<Event>, from: nat) {
    Untouched(log, from, 0)
  }

  lemma CommandSparesNull(k: Clock, c: Command, from: nat)
    requires Shaped(k.table) && NullUntouched(k.log, from)
    ensures NullUntouched(NaiveCommand(k, c).log, from)
  {
  }

  lemma {:induction false} CommandsSpareNull(k: Clock, cs: seq<Command>, from: nat)
    requires Shaped(k.table) && NullUntouched(k.log, from)
    ensures NullUntouched(NaiveCommands(k, cs).log, from)
    decreases |cs|
  {
    if cs != [] {
      CommandsSpareNull(NaiveCommand(k, cs[0]), cs[1..], from);
    }
  }

  lemma {:induction false} CallsSpareNull(d: Devices, k: Clock, due: set<nat>, n: nat, from: nat)
    requires Shaped(k.table) && n <= MAX_TIMERS && NullUntouched(k.log, from)
    ensures NullUntouched(NaiveCalls(d, k, due, n).log, from)
    decreases n
  {
    if n > 0 {
      CallsSpareNull(d, k, due, n - 1, from);
      var k' := NaiveCalls(d, k, due, n - 1);
      var f := k'.table.timer[n - 1].funct;
      if f.Some? {
        var log := k'.log + [Fired(k'.now, n - 1)];
        CommandsSpareNull(k'.(log := log), Reaction(d, log, k'.table, f.value), from);
      }
    }
  }

  lemma {:induction false} RunSparesNull(d: Devices, k: Clock, ops: seq<Op>, from: nat)
    requires Shaped(k.table) && NullUntouched(k.log, from)
    ensures NullUntouched(NaiveRun(d, k, ops).log, from)
    decreases |ops|
  {
    if ops != [] {
      match ops[0]
      case Tick =>
        var now := k.now + 1;
        var k' := Clock(Rearmed(k.table, now), k.log, now);
        CallsSpareNull(d, k', DueSet(k.table, now), k.table.numTimers, from);
        RunSparesNull(d, NaiveTick(d, k), ops[1..], from);
      case Do(c) =>
        CommandSparesNull(k, c, from);
        RunSparesNull(d, NaiveCommand(k, c), ops[1..], from);
    }
  }

  /** From the start, and whatever is called, the null timer fires at every multiple of 2^32 - 1 ticks. */
  lemma NullTimerFires(d: Devices, ops: seq<Op>)
    requires TicksIn(ops) <= HORIZON
    ensures Inv(PcSystem.InitialState()) && TimeTicks(PcSystem.InitialState()) == 0
    ensures Firings(Run(d, PcSystem.InitialState(), ops).log, 0) == EveryPeriod(0, 0xffff_ffff, TicksIn(ops))
  {
    PcSystem.InitialStateOk();
    var s := PcSystem.InitialState();
    var t := s.table.timer[0];
    RunRefines(d, s, ops);
    RunSparesNull(d, Abs(s), ops, 0);
    RunFires(d, Abs(s), ops, 0, t, true, TicksIn(ops));
    ContinuousSchedule(t, 0, TicksIn(ops));
  }
}
