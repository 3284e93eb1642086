/** The PC system object: the timer table and the countdown, updated in place. */
module PcSystem {
  import opened Machine
  import opened Timers

  const UNUSED := Timer(false, 0, 0, false, false, None)

  /** The state in which a simulation run starts. */
  function InitialState(): State {
    var first := Timer(true, NULL_INTERVAL, NULL_INTERVAL, true, true, Some(NullTimer));
    State(Table([first] + seq(MAX_TIMERS - 1, _ => UNUSED), 1), [], 0, NULL_INTERVAL, NULL_INTERVAL)
  }

  lemma InitialStateOk()
    ensures Inv(InitialState()) && TimeTicks(InitialState()) == 0
  {
    var s := InitialState();
    assert forall i: nat :: Armed(s.table, i) ==> i == 0;
  }

  /** Every state of a run that starts from `initialize` satisfies the invariant, and the run does what
      the naive scheduler does. */
  lemma RunFromStart(d: Devices, ops: seq<Op>)
    requires TicksIn(ops) <= HORIZON
    ensures Inv(InitialState()) && TimeTicks(InitialState()) == 0
    ensures var r := Run(d, InitialState(), ops);
      && Inv(r) && TimeTicks(r) == TicksIn(ops)
      && Abs(r) == NaiveRun(d, Clock(InitialState().table, [], 0), ops)
  {
    InitialStateOk();
    RunRefines(d, InitialState(), ops);
  }

  /** Slots outside `due` are skipped. */
  lemma {:induction false} CallsSkip(d: Devices, s: State, due: set<nat>, a: nat, b: nat)
    requires StateShaped(s) && a <= b <= MAX_TIMERS
    requires forall i: nat :: a <= i < b ==> i !in due
    ensures Calls(d, s, due, b) == Calls(d, s, due, a)
    decreases b
  {
    if a < b {
      CallsSkip(d, s, due, a, b - 1);
    }
  }

  /** The results of sequential reads while `time_usec` runs through a clock that does not go backwards:
      each is the later of the clock and the previous result, plus one. */
  function SequentialReads(previous: nat, clock: seq<nat>): seq<nat>
    decreases |clock|
  {
    if clock == [] then [] else
    var r := Max(previous, clock[0]) + 1;
    [r] + SequentialReads(r, clock[1..])
  }

  /** Element `i` of `s`, or what came before it. */
  function Before(first: nat, s: seq<nat>, i: nat): nat
    requires i <= |s|
  {
    if i == 0 then first else s[i - 1]
  }

  /** Each value is above the one before. */
  ghost predicate Rising(first: nat, s: seq<nat>) {
    forall i :: 0 <= i < |s| ==> s[i] > Before(first, s, i)
  }

  /** No value is below the one before. */
  ghost predicate NeverBack(first: nat, s: seq<nat>) {
    forall i :: 0 <= i < |s| ==> s[i] >= Before(first, s, i)
  }

  /** These results are strictly increasing and always ahead of the clock. */
  lemma {:induction false} SequentialReadsIncrease(previous: nat, clock: seq<nat>)
    ensures var r := SequentialReads(previous, clock);
      && |r| == |clock|
      && (forall i :: 0 <= i < |r| ==> r[i] > previous && r[i] > clock[i])
      && (forall i, j :: 0 <= i < j < |r| ==> r[i] < r[j])
    decreases |clock|
  {
    if clock != [] {
      SequentialReadsIncrease(Max(previous, clock[0]) + 1, clock[1..]);
    }
  }

  lemma RisingCons(first: nat, s: seq<nat>)
    requires s != []
    ensures Rising(first, s) <==> s[0] > first && Rising(s[0], s[1..])
  {
    if s[0] > first && Rising(s[0], s[1..]) {
      forall i | 0 <= i < |s|
        ensures s[i] > Before(first, s, i)
      {
        assert i > 0 ==> s[i] == s[1..][i - 1] && Before(first, s, i) == Before(s[0], s[1..], i - 1);
      }
    }
  }

  lemma NeverBackCons(first: nat, s: seq<nat>)
    requires s != []
    ensures NeverBack(first, s) <==> s[0] >= first && NeverBack(s[0], s[1..])
  {
    if s[0] >= first && NeverBack(s[0], s[1..]) {
      forall i | 0 <= i < |s|
        ensures s[i] >= Before(first, s, i)
      {
        assert i > 0 ==> s[i] == s[1..][i - 1] && Before(first, s, i) == Before(s[0], s[1..], i - 1);
      }
    }
  }

  class PcSystem {
    const devices: Devices
    const timer: array<Timer>
    var numTimers: nat
    var triggeredTimer: nat
    var currCountdown: nat
    var currCountdownPeriod: nat
    var ticksTotal: nat
    var lastTimeUsec: nat
    var usecSinceLast: nat
    var hrq: bool
    var killBochsRequest: nat

    /** What the devices have seen so far: every firing and every timer call. */
    var log: seq<Event>

    function View(): State
      reads this, timer
    {
      State(Table(timer[..], numTimers), log, ticksTotal, currCountdownPeriod, currCountdown)
    }

    ghost predicate Valid()
      reads this, timer
    {
      Inv(View())
    }

    constructor (devices: Devices)
      ensures this.devices == devices && fresh(timer)
      ensures View().table.timer == InitialState().table.timer[0 :=
        InitialState().table.timer[0].(timeToFire := 0)]
      ensures numTimers == 1 && ticksTotal == 0 && log == []
    {
      this.devices := devices;
      timer := new Timer[MAX_TIMERS](_ => UNUSED);
      numTimers := 1;
      ticksTotal := 0;
      log := [];
      new;
      timer[0] := Timer(true, NULL_INTERVAL, 0, true, true, Some(NullTimer));
    }

    method Initialize()
      requires View().table.timer == InitialState().table.timer[0 :=
        InitialState().table.timer[0].(timeToFire := 0)]
      requires numTimers == 1 && log == []
      modifies this, timer
      ensures Valid() && View() == InitialState()
      ensures triggeredTimer == 0 && lastTimeUsec == 0 && usecSinceLast == 0 && !hrq && killBochsRequest == 0
    {
      InitialStateOk();
      ticksTotal := 0;
      timer[0] := timer[0].(timeToFire := NULL_INTERVAL);
      currCountdown := NULL_INTERVAL;
      currCountdownPeriod := NULL_INTERVAL;
      lastTimeUsec := 0;
      usecSinceLast := 0;
      triggeredTimer := 0;
      hrq := false;
      killBochsRequest := 0;
      assert timer[..] == InitialState().table.timer;
    }

    /** The search for a slot that is not in use. */
    method FindSlot() returns (i: nat)
      requires Shaped(View().table)
      ensures i == FreeSlotFrom(View().table, 1)
    {
      ghost var t := View().table;
      i := 1;
      while i < numTimers && timer[i].inUse
        invariant 1 <= i <= numTimers
        invariant FreeSlotFrom(t, 1) == FreeSlotFrom(t, i)
      {
        i := i + 1;
      }
    }

    method RegisterTimerTicks(id: nat, ticks: nat, continuous: bool, active: bool) returns (r: int)
      requires Valid()
      modifies this`numTimers, this`currCountdown, this`currCountdownPeriod, this`log, timer
      ensures Valid()
      ensures View() == DoCommand(old(View()), Register(id, ticks, continuous, active))
      ensures r == if old(numTimers) >= MAX_TIMERS then -1 else FreeSlotFrom(old(View().table), 1)
    {
      ghost var s, c := View(), Register(id, ticks, continuous, active);
      CommandRefines(s, c);
      var now := ticksTotal + (currCountdownPeriod - currCountdown);
      var p := if ticks < MIN_PERIOD then MIN_PERIOD else ticks;
      var i := FindSlot();
      if numTimers >= MAX_TIMERS {
        log := log + [Issued(now, Register(id, ticks, continuous, active), MAX_TIMERS)];
        return -1;
      }
      log := log + [Issued(now, Register(id, ticks, continuous, active), i)];
      if active {
        ShortenTo(p);
      }
      Occupy(i, Timer(true, p, now + p, active, continuous, Some(Device(id))));
      r := i;
    }

    /** Fills slot `i`, which may be the next one to allocate. */
    method Occupy(i: nat, t: Timer)
      requires Shaped(View().table) && i <= numTimers && i < MAX_TIMERS
      modifies this`numTimers, timer
      ensures View().table == Table(
        old(View().table).timer[i := t], if i == old(numTimers) then old(numTimers) + 1 else old(numTimers))
    {
      timer[i] := t;
      if i == numTimers {
        numTimers := numTimers + 1;
      }
    }

    /** Shortens the stretch under way so that it ends in `ticks`, without disturbing the time. */
    method ShortenTo(ticks: nat)
      requires StateShaped(View())
      modifies this`currCountdown, this`currCountdownPeriod
      ensures View() == Skew(old(View()), ticks) && TimeTicks(View()) == old(TimeTicks(View()))
    {
      if ticks < currCountdown {
        currCountdownPeriod := currCountdownPeriod - (currCountdown - ticks);
        currCountdown := ticks;
      }
    }

    method ActivateTimerTicks(i: nat, ticks: nat, continuous: bool)
      requires Valid() && 1 <= i < numTimers
      modifies this`currCountdown, this`currCountdownPeriod, this`log, timer
      ensures Valid() && View() == DoCommand(old(View()), Activate(i, ticks, continuous))
    {
      ghost var s := View();
      CommandRefines(s, Activate(i, ticks, continuous));
      var now := ticksTotal + (currCountdownPeriod - currCountdown);
      log := log + [Issued(now, Activate(i, ticks, continuous), i)];
      var p := if ticks < MIN_PERIOD then MIN_PERIOD else ticks;
      timer[i] := timer[i].(period := p);
      timer[i] := timer[i].(timeToFire := now + p);
      timer[i] := timer[i].(active := true);
      timer[i] := timer[i].(continuous := continuous);
      assert timer[..] == Apply(s.table, now, Activate(i, ticks, continuous)).timer;
      ShortenTo(p);
    }

    method DeactivateTimer(i: nat)
      requires Valid() && 1 <= i < numTimers
      modifies this`log, timer
      ensures Valid() && View() == DoCommand(old(View()), Deactivate(i))
    {
      CommandRefines(View(), Deactivate(i));
      log := log + [Issued(ticksTotal + (currCountdownPeriod - currCountdown), Deactivate(i), i)];
      timer[i] := timer[i].(active := false);
    }

    method UnregisterTimer(i: nat) returns (ok: bool)
      requires Valid() && 1 <= i < numTimers
      modifies this`numTimers, this`log, timer
      ensures Valid() && View() == DoCommand(old(View()), Unregister(i))
      ensures ok == !old(timer[i].active)
    {
      ghost var s := View();
      CommandRefines(s, Unregister(i));
      log := log + [Issued(ticksTotal + (currCountdownPeriod - currCountdown), Unregister(i), i)];
      if timer[i].active {
        return false;
      }
      timer[i] := timer[i].(inUse := false, period := MAX_BIT64S, timeToFire := MAX_BIT64S);
      timer[i] := timer[i].(continuous := false, funct := None);
      assert timer[..] == Apply(s.table, 0, Unregister(i)).timer;
      if i == numTimers - 1 {
        numTimers := numTimers - 1;
      }
      ok := true;
    }

    /** A timer call made by a callback or by the CPU; illegal ones are dropped. */
    method Dispatch(c: Command)
      requires Valid()
      modifies this`numTimers, this`currCountdown, this`currCountdownPeriod, this`log, timer
      ensures Valid() && View() == DoCommand(old(View()), c)
    {
      match c
      case Register(id, ticks, continuous, active) =>
        var _ := RegisterTimerTicks(id, ticks, continuous, active);
      case Activate(i, ticks, continuous) =>
        if 1 <= i < numTimers {
          ActivateTimerTicks(i, ticks, continuous);
        }
      case Deactivate(i) =>
        if 1 <= i < numTimers {
          DeactivateTimer(i);
        }
      case Unregister(i) =>
        if 1 <= i < numTimers {
          var _ := UnregisterTimer(i);
        }
    }

    method DispatchAll(commands: seq<Command>)
      requires Valid()
      modifies this`numTimers, this`currCountdown, this`currCountdownPeriod, this`log, timer
      ensures Valid() && View() == DoCommands(old(View()), commands)
    {
      var cs := commands;
      while cs != []
        invariant Valid()
        invariant DoCommands(View(), cs) == DoCommands(old(View()), commands)
        decreases |cs|
      {
        Dispatch(cs[0]);
        cs := cs[1..];
      }
    }

    /** Runs the callback in slot `i`. */
    method Callback(i: nat)
      requires Valid() && i < MAX_TIMERS && timer[i].funct.Some?
      modifies this`numTimers, this`currCountdown, this`currCountdownPeriod, this`log, timer
      ensures Valid() && View() == Call(devices, old(View()), i)
    {
      ghost var s := View();
      CallRefines(devices, s, i);
      log := log + [Fired(ticksTotal + (currCountdownPeriod - currCountdown), i)];
      var cs := Reaction(devices, log, Table(timer[..], numTimers), timer[i].funct.value);
      assert View() == s.(log := log);
      DispatchAll(cs);
    }

    /** The triggered slots between `first` and `last`, in increasing order. */
    method FireTriggered(triggered: array<bool>, first: nat, last: nat, ghost due: set<nat>, ghost n: nat)
      requires Valid() && triggered.Length == MAX_TIMERS && last < n <= MAX_TIMERS
      requires forall j: nat :: j in due ==> first <= j <= last
      requires forall j: nat :: j < n ==> triggered[j] == (j in due)
      requires first <= n
      modifies this`numTimers, this`currCountdown, this`currCountdownPeriod, this`log, this`triggeredTimer, timer
      ensures Valid() && View() == Calls(devices, old(View()), due, n)
    {
      ghost var s := View();
      var i := first;
      CallsSkip(devices, s, due, 0, first);
      while i <= last
        invariant first <= i <= n && (i <= last + 1 || i == first)
        invariant Valid() && View() == Calls(devices, s, due, i)
        invariant forall j: nat :: j < n ==> triggered[j] == (j in due)
      {
        if triggered[i] && timer[i].funct.Some? {
          triggeredTimer := i;
          Callback(i);
          triggeredTimer := 0;
        }
        i := i + 1;
      }
      CallsSkip(devices, s, due, i, n);
    }

    /** The scan of slot `i` at the expiry of the countdown: rearms it if it is due, notes that in
        `triggered`, and takes its new deadline into account if it is still active. */
    method ScanTimer(i: nat, triggered: array<bool>, first: nat, last: nat, min: nat)
      returns (first': nat, last': nat, min': nat)
      requires Shaped(View().table) && triggered.Length == MAX_TIMERS && i < numTimers
      modifies timer, triggered
      ensures timer[i] == if Due(old(View().table), ticksTotal, i) then Rearm(old(timer[i])) else old(timer[i])
      ensures triggered[i] == Due(old(View().table), ticksTotal, i)
      ensures forall j: nat :: j < MAX_TIMERS && j != i ==>
        timer[j] == old(timer[j]) && triggered[j] == old(triggered[j])
      ensures min' == if timer[i].active then Min(min, timer[i].timeToFire) else min
      ensures first' == if triggered[i] && i < first then i else first
      ensures last' == if triggered[i] then i else last
    {
      first', last', min' := first, last, min;
      triggered[i] := false;
      if timer[i].active {
        if ticksTotal == timer[i].timeToFire {
          triggered[i] := true;
          if !timer[i].continuous {
            timer[i] := timer[i].(active := false);
          } else {
            timer[i] := timer[i].(timeToFire := timer[i].timeToFire + timer[i].period);
            if timer[i].timeToFire < min' {
              min' := timer[i].timeToFire;
            }
          }
          if i < first' {
            first' := i;
          }
          last' := i;
        } else {
          if timer[i].timeToFire < min' {
            min' := timer[i].timeToFire;
          }
        }
      }
    }

    /** The scan over all timers. */
    method Scan(triggered: array<bool>) returns (first: nat, last: nat, minTimeToFire: nat)
      requires Shaped(View().table) && triggered.Length == MAX_TIMERS
      modifies timer, triggered
      ensures timer[..] == Rearmed(old(View().table), ticksTotal).timer
      ensures minTimeToFire == MinTimeToFire(View().table, numTimers)
      ensures forall j: nat :: j < numTimers ==> triggered[j] == Due(old(View().table), ticksTotal, j)
      ensures forall j: nat :: Due(old(View().table), ticksTotal, j) ==> first <= j <= last
      ensures first <= numTimers && last < numTimers
    {
      ghost var old_ := View().table;
      ghost var t := Rearmed(old_, ticksTotal);
      first, last := numTimers, 0;
      minTimeToFire := MAX_BIT64;
      var i := 0;
      while i < numTimers
        invariant i <= numTimers
        invariant forall j: nat :: j < MAX_TIMERS ==> timer[j] == if j < i then t.timer[j] else old_.timer[j]
        invariant forall j: nat :: j < i ==> triggered[j] == Due(old_, ticksTotal, j)
        invariant forall j: nat :: j < i && Due(old_, ticksTotal, j) ==> first <= j <= last
        invariant first <= numTimers && last < numTimers
        invariant minTimeToFire == MinTimeToFire(t, i)
      {
        first, last, minTimeToFire := ScanTimer(i, triggered, first, last, minTimeToFire);
        i := i + 1;
      }
      assert timer[..] == t.timer;
    }

    /** Up to the first callback: the scan, and the new countdown narrowed to 32 bits. */
    method Reload(triggered: array<bool>) returns (first: nat, last: nat)
      requires Expired(View()) && triggered.Length == MAX_TIMERS
      modifies this`currCountdown, this`currCountdownPeriod, this`ticksTotal, timer, triggered
      ensures View() == Reloaded(old(View())) && Valid()
      ensures forall j: nat :: j < numTimers ==> triggered[j] == Due(old(View().table), ticksTotal, j)
      ensures forall j: nat :: Due(old(View().table), ticksTotal, j) ==> first <= j <= last
      ensures first <= numTimers && last < numTimers
    {
      ReloadOk(View());
      ticksTotal := ticksTotal + currCountdownPeriod;
      var minTimeToFire;
      first, last, minTimeToFire := Scan(triggered);
      currCountdownPeriod := (minTimeToFire - ticksTotal) % TWO_32;
      currCountdown := currCountdownPeriod;
    }

    method CountdownEvent()
      requires Expired(View())
      modifies this`numTimers, this`currCountdown, this`currCountdownPeriod, this`ticksTotal
      modifies this`log, this`triggeredTimer, timer
      ensures Valid() && View() == Timers.CountdownEvent(devices, old(View()))
    {
      ghost var s := View();
      var triggered := new bool[MAX_TIMERS];
      var first, last := Reload(triggered);
      FireTriggered(triggered, first, last, DueSet(s.table, ticksTotal), numTimers);
    }

    method Tick1()
      requires Valid() && TimeTicks(View()) < HORIZON
      modifies this`numTimers, this`currCountdown, this`currCountdownPeriod, this`ticksTotal
      modifies this`log, this`triggeredTimer, timer
      ensures Valid() && View() == Timers.Tick1(devices, old(View()))
    {
      TickRefines(devices, View());
      currCountdown := currCountdown - 1;
      if currCountdown == 0 {
        CountdownEvent();
      }
    }

    method TickN(ticks: nat)
      requires Valid() && TimeTicks(View()) + ticks <= HORIZON
      modifies this`numTimers, this`currCountdown, this`currCountdownPeriod, this`ticksTotal
      modifies this`log, this`triggeredTimer, timer
      ensures Valid() && View() == Timers.TickN(devices, old(View()), ticks)
    {
      ghost var s := View();
      var n: nat := ticks;
      while n >= currCountdown
        invariant Valid() && TimeTicks(View()) + n <= HORIZON
        invariant Timers.TickN(devices, View(), n) == Timers.TickN(devices, s, ticks)
        decreases n
      {
        EventRefines(devices, View().(countdown := 0));
        n := n - currCountdown;
        currCountdown := 0;
        CountdownEvent();
      }
      currCountdown := currCountdown - n;
    }

    /** The largest value handed out so far by `TimeUsecSequential`. */
    function LastSequential(): nat
      reads this`lastTimeUsec, this`usecSinceLast
    {
      lastTimeUsec + usecSinceLast
    }

    /** `now` is the current `time_usec`.  If that has not gone backwards, the result is the later of now and
        the previous result, plus one; and only then is it above the previous result. */
    method TimeUsecSequential(now: nat) returns (r: nat)
      requires now <= MAX_BIT64
      modifies this`lastTimeUsec, this`usecSinceLast
      ensures old(lastTimeUsec) <= now ==> r == Max(old(LastSequential()), now) + 1
      ensures r > old(LastSequential()) <==> old(lastTimeUsec) <= now
      ensures r == LastSequential() && lastTimeUsec == now
    {
      if now != lastTimeUsec {
        var diff := (now - lastTimeUsec) % TWO_64;
        lastTimeUsec := now;
        if diff >= usecSinceLast {
          usecSinceLast := 0;
        } else {
          usecSinceLast := usecSinceLast - diff;
        }
      }
      usecSinceLast := usecSinceLast + 1;
      r := now + usecSinceLast;
    }

    /** A run of sequential reads while `time_usec` runs through `clock`: the results are strictly increasing
        if and only if the clock never goes backwards. */
    method ReadClock(clock: seq<nat>) returns (results: seq<nat>)
      requires forall i :: 0 <= i < |clock| ==> clock[i] <= MAX_BIT64
      modifies this`lastTimeUsec, this`usecSinceLast
      decreases |clock|
      ensures |results| == |clock|
      ensures Rising(old(LastSequential()), results) <==> NeverBack(old(lastTimeUsec), clock)
      ensures NeverBack(old(lastTimeUsec), clock) ==> results == SequentialReads(old(LastSequential()), clock)
    {
      if clock == [] {
        return [];
      }
      var r := TimeUsecSequential(clock[0]);
      var rest := ReadClock(clock[1..]);
      results := [r] + rest;
      RisingCons(old(LastSequential()), results);
      NeverBackCons(old(lastTimeUsec), clock);
    }
  }
}
