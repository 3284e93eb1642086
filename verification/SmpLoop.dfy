/** The round-robin loop that runs several processors and turns the instructions they execute into
    ticks of the PC system. */
module SmpLoop {
  import opened Arithmetic
  import opened Machine
  import opened Timers
  import opened PcSystem

  /** One trace run by a processor: the instructions it executed (0 if the processor was halted) and
      the timer calls those instructions made. */
  datatype Trace = Trace(instructions: nat, calls: seq<Command>)

  /** What the loop counts for a trace: a halted processor counts as having run its quantum. */
  function Counted(t: Trace, quantum: nat): nat {
    if t.instructions == 0 then quantum else t.instructions
  }

  /** What the code counts, in 32 bits. */
  function Counted32(t: Trace, quantum: nat): nat {
    if t.instructions % TWO_32 == 0 then quantum else t.instructions % TWO_32
  }

  function Total(ts: seq<Trace>, quantum: nat): nat {
    if ts == [] then 0 else Total(ts[..|ts| - 1], quantum) + Counted(ts[|ts| - 1], quantum)
  }

  lemma TotalExtend(ts: seq<Trace>, k: nat, quantum: nat)
    requires k < |ts|
    ensures Total(ts[..k + 1], quantum) == Total(ts[..k], quantum) + Counted(ts[k], quantum)
  {
    assert ts[..k + 1][..k] == ts[..k];
  }

  lemma {:induction false} TotalMonotone(ts: seq<Trace>, k: nat, quantum: nat)
    requires k <= |ts|
    ensures Total(ts[..k], quantum) <= Total(ts, quantum)
    decreases |ts| - k
  {
    if k < |ts| {
      TotalExtend(ts, k, quantum);
      TotalMonotone(ts, k + 1, quantum);
    } else {
      assert ts[..k] == ts;
    }
  }

  lemma DoCommandsKeepTime(s: State, cs: seq<Command>)
    requires Inv(s)
    ensures Inv(DoCommands(s, cs))
    ensures TimeTicks(DoCommands(s, cs)) == TimeTicks(s)
  {
    CommandsRefine(s, cs);
  }

  lemma TickNKeepsCount(d: Devices, s: State, n: nat)
    requires Inv(s) && TimeTicks(s) + n <= HORIZON
    ensures TimeTicks(Timers.TickN(d, s, n)) == TimeTicks(s) + n
  {
  }

  lemma NextProcessor(k: nat, m: nat)
    requires m >= 1
    ensures (k + 1) % m == if k % m + 1 == m then 0 else k % m + 1
  {
    var q, r := k / m, k % m;
    DivMod(k, m);
    if r + 1 == m {
      Distributes(m, q, 1);
      QuotientIs(k + 1, m, q + 1);
    } else {
      QuotientIs(k + 1, m, q);
    }
  }

  /** 32 bits lose nothing exactly if the sum fits into them. */
  lemma NothingLost(executed: nat, trace: Trace, quantum: nat)
    requires quantum < TWO_32
    ensures var sum := (executed + Counted32(trace, quantum)) % TWO_32;
      && sum <= executed + Counted(trace, quantum)
      && (sum == executed + Counted(trace, quantum) <==> executed + Counted(trace, quantum) < TWO_32)
  {
  }

  /** Adds up in 32 bits; `lost` is what does not fit. */
  method Add(executed: nat, n: nat, ghost trace: Trace, ghost quantum: nat) returns (sum: nat, ghost lost: nat)
    requires quantum < TWO_32 && n == Counted32(trace, quantum)
    ensures sum + lost == executed + Counted(trace, quantum)
    ensures lost == 0 <==> executed + Counted(trace, quantum) < TWO_32
  {
    NothingLost(executed, trace, quantum);
    sum := (executed + n) % TWO_32;
    lost := executed + Counted(trace, quantum) - sum;
  }

  /** What is left of `executed` after a turn: at the end of a round, less than a tick's worth. */
  function Remaining(executed: nat, smp: nat, endOfRound: bool): nat
    requires smp >= 1
  {
    if endOfRound then executed % smp else executed
  }

  /** The instructions of the round under way that are not ticks yet, if none is lost. */
  function Pending(ts: seq<Trace>, quantum: nat, smp: nat): nat
    requires smp >= 1
  {
    if ts == [] then 0 else
    Remaining(Pending(ts[..|ts| - 1], quantum, smp) + Counted(ts[|ts| - 1], quantum), smp, |ts| % smp == 0)
  }

  lemma PendingExtend(ts: seq<Trace>, k: nat, quantum: nat, smp: nat)
    requires k < |ts| && smp >= 1
    ensures Pending(ts[..k + 1], quantum, smp)
         == Remaining(Pending(ts[..k], quantum, smp) + Counted(ts[k], quantum), smp, (k + 1) % smp == 0)
  {
    assert ts[..k + 1][..k] == ts[..k];
  }

  /** What is counted within each round, for the first `n` traces, fits 32 bits. */
  ghost predicate RoundsFit(ts: seq<Trace>, n: nat, quantum: nat, smp: nat)
    requires n <= |ts| && smp >= 1
  {
    forall k {:trigger ts[k]} :: 0 <= k < n ==> Pending(ts[..k], quantum, smp) + Counted(ts[k], quantum) < TWO_32
  }

  lemma RoundsFitExtend(ts: seq<Trace>, n: nat, quantum: nat, smp: nat)
    requires n < |ts| && smp >= 1
    ensures RoundsFit(ts, n + 1, quantum, smp) <==>
      RoundsFit(ts, n, quantum, smp) && Pending(ts[..n], quantum, smp) + Counted(ts[n], quantum) < TWO_32
  {
    assert ts[n] == ts[n];
  }

  /** The end of a round: ticks for the whole groups of `smp` instructions, the rest is kept. */
  method EndRound(sys: PcSystem, executed: nat, smp: nat) returns (rest: nat)
    requires sys.Valid() && smp >= 1 && TimeTicks(sys.View()) + executed <= HORIZON
    modifies sys, sys.timer
    ensures sys.Valid() && rest == executed % smp
    ensures executed / smp <= executed && sys.View() == Timers.TickN(sys.devices, old(sys.View()), executed / smp)
  {
    DivMod(executed, smp);
    TickNKeepsCount(sys.devices, sys.View(), executed / smp);
    sys.TickN(executed / smp);
    rest := executed % smp;
  }

  /** Moves on to the next processor; after the last one the round ends. */
  method NextTurn(sys: PcSystem, processor: nat, executed: nat, smp: nat)
    returns (processor': nat, rest: nat, ghost issued: nat)
    requires sys.Valid() && processor < smp && TimeTicks(sys.View()) + executed <= HORIZON
    modifies sys, sys.timer
    ensures sys.Valid() && issued <= executed && issued * smp + rest == executed
    ensures processor' == if processor + 1 == smp then 0 else processor + 1
    ensures rest == if processor' == 0 then executed % smp else executed
    ensures sys.View()
         == if processor' == 0 then Timers.TickN(sys.devices, old(sys.View()), issued) else old(sys.View())
    ensures processor' != 0 ==> issued == 0
  {
    processor', rest, issued := processor + 1, executed, 0;
    if processor' == smp {
      processor' := 0;
      issued := executed / smp;
      DivMod(executed, smp);
      rest := EndRound(sys, executed, smp);
    }
  }

  /** One processor runs one trace; the result is what the loop counts for it. */
  method RunTrace(sys: PcSystem, icount: array<nat>, lastSync: nat, processor: nat, quantum: nat, trace: Trace)
    returns (n: nat)
    requires sys.Valid() && processor < icount.Length && icount[processor] == lastSync
    modifies sys, sys.timer, icount
    ensures sys.Valid() && sys.View() == DoCommands(old(sys.View()), trace.calls)
    ensures TimeTicks(sys.View()) == old(TimeTicks(sys.View()))
    ensures n == Counted32(trace, quantum)
    ensures icount[..] == old(icount[..])[processor := lastSync + trace.instructions]
  {
    DoCommandsKeepTime(sys.View(), trace.calls);
    sys.DispatchAll(trace.calls);
    icount[processor] := icount[processor] + trace.instructions;
    n := (icount[processor] - lastSync) % TWO_32;
    if n == 0 {
      n := quantum;
    }
  }

  /** The system after a trace and, at the end of a round, the ticks issued for it. */
  function AfterTurn(d: Devices, s: State, trace: Trace, issued: nat, endOfRound: bool): State
    requires Inv(s) && TimeTicks(s) + issued <= HORIZON
  {
    DoCommandsKeepTime(s, trace.calls);
    var s' := DoCommands(s, trace.calls);
    if endOfRound then Timers.TickN(d, s', issued) else s'
  }

  /** One turn of the loop: the processor runs a trace, and after the last one the round ends.  `issued`
      ticks are issued; instructions are lost exactly if the sum for the round does not fit 32 bits. */
  method Turn(sys: PcSystem, icount: array<nat>, icountLastSync: array<nat>, quantum: nat,
              trace: Trace, processor: nat, executed: nat)
    returns (processor': nat, executed': nat, ghost issued: nat, ghost lost: nat)
    requires sys.Valid() && icount != icountLastSync && quantum < TWO_32
    requires processor < icount.Length == icountLastSync.Length
    requires icount[processor] == icountLastSync[processor]
    requires TimeTicks(sys.View()) + executed + Counted(trace, quantum) <= HORIZON
    modifies sys, sys.timer, icount, icountLastSync
    ensures sys.Valid() && TimeTicks(sys.View()) == old(TimeTicks(sys.View())) + issued
    ensures issued <= executed + Counted(trace, quantum)
    ensures sys.View() == AfterTurn(sys.devices, old(sys.View()), trace, issued, processor + 1 == icount.Length)
    ensures icount[..] == old(icount[..])[processor := old(icount[processor]) + trace.instructions]
    ensures processor' == if processor + 1 == icount.Length then 0 else processor + 1
    ensures icount[processor'] == icountLastSync[processor']
    ensures issued * icount.Length + executed' + lost == executed + Counted(trace, quantum)
    ensures lost == 0 <==> executed + Counted(trace, quantum) < TWO_32
    ensures lost == 0 ==>
      executed' == Remaining(executed + Counted(trace, quantum), icount.Length, processor' == 0)
    ensures processor' == 0 ==> executed' < icount.Length
  {
    var n := RunTrace(sys, icount, icountLastSync[processor], processor, quantum, trace);
    executed', lost := Add(executed, n, trace, quantum);
    processor', executed', issued := NextTurn(sys, processor, executed', icount.Length);
    icountLastSync[processor'] := icount[processor'];
  }

  /** The account after `k` traces: every instruction is in a tick, pending, or lost. */
  ghost predicate Account(ts: seq<Trace>, k: nat, quantum: nat, smp: nat,
                          processor: nat, ticks: nat, executed: nat, lost: nat)
    requires k <= |ts| && smp >= 1
  {
    && processor == k % smp
    && ticks * smp + executed + lost == Total(ts[..k], quantum)
    && (processor == 0 ==> executed < smp)
    && (lost == 0 <==> RoundsFit(ts, k, quantum, smp))
    && (lost == 0 ==> executed == Pending(ts[..k], quantum, smp))
  }

  lemma AccountTicks(ts: seq<Trace>, k: nat, quantum: nat, smp: nat,
                     processor: nat, ticks: nat, executed: nat, lost: nat)
    requires k < |ts| && smp >= 1 && Account(ts, k, quantum, smp, processor, ticks, executed, lost)
    ensures processor < smp && ticks + executed + Counted(ts[k], quantum) <= Total(ts, quantum)
  {
    DivMod(k, smp);
    AtLeast(smp, ticks);
    TotalExtend(ts, k, quantum);
    TotalMonotone(ts, k + 1, quantum);
  }

  /** The account after one more turn. */
  lemma AccountStep(ts: seq<Trace>, k: nat, quantum: nat, smp: nat,
                    processor: nat, ticks: nat, executed: nat, lost: nat,
                    processor': nat, issued: nat, executed': nat, missed: nat)
    requires k < |ts| && smp >= 1 && Account(ts, k, quantum, smp, processor, ticks, executed, lost)
    requires processor' == if processor + 1 == smp then 0 else processor + 1
    requires issued * smp + executed' + missed == executed + Counted(ts[k], quantum)
    requires missed == 0 <==> executed + Counted(ts[k], quantum) < TWO_32
    requires missed == 0 ==> executed' == Remaining(executed + Counted(ts[k], quantum), smp, processor' == 0)
    requires processor' == 0 ==> executed' < smp
    ensures Account(ts, k + 1, quantum, smp, processor', ticks + issued, executed', lost + missed)
  {
    TotalExtend(ts, k, quantum);
    PendingExtend(ts, k, quantum, smp);
    RoundsFitExtend(ts, k, quantum, smp);
    NextProcessor(k, smp);
    Distributes(smp, ticks, issued);
  }

  lemma AccountAtEnd(ts: seq<Trace>, quantum: nat, smp: nat, processor: nat, ticks: nat, executed: nat, lost: nat)
    requires smp >= 1 && Account(ts, |ts|, quantum, smp, processor, ticks, executed, lost)
    ensures processor == |ts| % smp && ticks * smp + executed + lost == Total(ts, quantum)
    ensures 0 <= ticks * smp && (lost == 0 <==> RoundsFit(ts, |ts|, quantum, smp))
    ensures processor == 0 ==> executed < smp && ticks == (Total(ts, quantum) - lost) / smp
  {
    assert ts[..|ts|] == ts;
    if processor == 0 {
      QuotientIs(Total(ts, quantum) - lost, smp, ticks);
    }
  }

  /** The loop body for trace `k`, with the account it keeps. */
  method NextTrace(sys: PcSystem, icount: array<nat>, icountLastSync: array<nat>, quantum: nat,
                   traces: seq<Trace>, k: nat, processor: nat, executed: nat, ghost ticks: nat, ghost lost: nat)
    returns (processor': nat, executed': nat, ghost ticks': nat, ghost lost': nat)
    requires sys.Valid() && icount != icountLastSync && quantum < TWO_32 && k < |traces|
    requires processor < icount.Length == icountLastSync.Length
    requires icount[processor] == icountLastSync[processor]
    requires Account(traces, k, quantum, icount.Length, processor, ticks, executed, lost)
    requires TimeTicks(sys.View()) + Total(traces, quantum) <= HORIZON + ticks
    modifies sys, sys.timer, icount, icountLastSync
    ensures sys.Valid() && ticks <= ticks' && TimeTicks(sys.View()) == old(TimeTicks(sys.View())) + (ticks' - ticks)
    ensures processor' < icount.Length && icount[processor'] == icountLastSync[processor']
    ensures Account(traces, k + 1, quantum, icount.Length, processor', ticks', executed', lost')
  {
    AccountTicks(traces, k, quantum, icount.Length, processor, ticks, executed, lost);
    ghost var issued, missed;
    processor', executed', issued, missed :=
      Turn(sys, icount, icountLastSync, quantum, traces[k], processor, executed);
    AccountStep(traces, k, quantum, icount.Length, processor, ticks, executed, lost,
                processor', issued, executed', missed);
    ticks', lost' := ticks + issued, lost + missed;
  }

  /** Runs `traces` round robin over `icount.Length` processors, until the run is stopped.  The time that has
      passed is the number of whole rounds' worth of ticks, and `executed` is the remainder.  Instructions are
      lost if and only if the sum of some round does not fit 32 bits. */
  method Run(sys: PcSystem, icount: array<nat>, icountLastSync: array<nat>, quantum: nat, traces: seq<Trace>)
    returns (processor: nat, executed: nat, ghost lost: nat)
    requires sys.Valid() && icount != icountLastSync && quantum < TWO_32
    requires icount.Length == icountLastSync.Length >= 1
    requires icount[0] == icountLastSync[0]
    requires TimeTicks(sys.View()) + Total(traces, quantum) <= HORIZON
    modifies sys, sys.timer, icount, icountLastSync
    ensures sys.Valid() && processor == |traces| % icount.Length
    ensures old(TimeTicks(sys.View())) <= TimeTicks(sys.View()) && lost <= Total(traces, quantum)
    ensures (TimeTicks(sys.View()) - old(TimeTicks(sys.View()))) * icount.Length + executed + lost
         == Total(traces, quantum)
    ensures lost == 0 <==> RoundsFit(traces, |traces|, quantum, icount.Length)
    ensures processor == 0 ==>
      && executed < icount.Length
      && TimeTicks(sys.View()) == old(TimeTicks(sys.View())) + (Total(traces, quantum) - lost) / icount.Length
  {
    ghost var smp, start := icount.Length, TimeTicks(sys.View());
    ghost var ticks: nat := 0;
    executed, processor, lost := 0, 0, 0;
    var k := 0;
    while k < |traces|
      invariant k <= |traces| && sys.Valid() && processor < smp
      invariant icount[processor] == icountLastSync[processor]
      invariant TimeTicks(sys.View()) == start + ticks
      invariant Account(traces, k, quantum, smp, processor, ticks, executed, lost)
    {
      processor, executed, ticks, lost :=
        NextTrace(sys, icount, icountLastSync, quantum, traces, k, processor, executed, ticks, lost);
      k := k + 1;
    }
    AccountAtEnd(traces, quantum, smp, processor, ticks, executed, lost);
  }
}
