/** What a program that opens and closes modules may rely on, without lists, links and pointers: every load makes
    a module of its own, and each module counts its opens and closes. */
module LtdlPlay {
  import opened Machine

  /** A program opens files, and closes what its opens have returned. */
  datatype Action = OpenFile(name: string, loads: bool) | CloseResult(open: nat)

  /** For each module loaded so far its file and its count, which is 0 once it has been closed; and for each open
      so far the module it has returned, if it has succeeded. */
  datatype Play = Play(files: seq<string>, counts: seq<nat>, results: seq<Option<nat>>)

  predicate Shaped(m: Play) {
    && |m.counts| == |m.files|
    && forall j :: 0 <= j < |m.results| ==> m.results[j].Some? ==> m.results[j].value < |m.files|
  }

  /** Module `g` is of file `f` and still open. */
  predicate Open(m: Play, g: nat, f: string)
    requires Shaped(m)
  {
    g < |m.files| && m.files[g] == f && m.counts[g] > 0
  }

  /** Some module of file `f` is open. */
  ghost predicate IsOpen(m: Play, f: string)
    requires Shaped(m)
  {
    exists g: nat :: Open(m, g, f)
  }

  /** At most one module of each file is open. */
  ghost predicate PlayOk(m: Play) {
    && Shaped(m)
    && forall g: nat, h: nat, f :: Open(m, g, f) && Open(m, h, f) ==> g == h
  }

  /** The module of file `f` that is open, among the first `n`. */
  function Search(m: Play, f: string, n: nat): (r: Option<nat>)
    requires Shaped(m) && n <= |m.files|
    ensures r.Some? ==> Open(m, r.value, f)
    ensures r.None? ==> forall g: nat :: g < n ==> !Open(m, g, f)
  {
    if n == 0 then None
    else if Open(m, n - 1, f) then Some(n - 1)
    else Search(m, f, n - 1)
  }

  function Opening(m: Play, f: string, loads: bool): (r: Play)
    requires Shaped(m)
    ensures Shaped(r)
  {
    match Search(m, f, |m.files|)
    case Some(g) => m.(counts := m.counts[g := m.counts[g] + 1], results := m.results + [Some(g)])
    case None =>
      if loads then Play(m.files + [f], m.counts + [1], m.results + [Some(|m.files|)])
      else m.(results := m.results + [None])
  }

  /** The module that closing the result of open number `j` affects. */
  function Closes(m: Play, j: nat): (r: Option<nat>)
    requires Shaped(m)
    ensures r.Some? ==> r.value < |m.files| && m.counts[r.value] > 0
  {
    if j < |m.results| && m.results[j].Some? && m.counts[m.results[j].value] > 0 then m.results[j] else None
  }

  function Step(m: Play, a: Action): (r: Play)
    requires Shaped(m)
    ensures Shaped(r)
  {
    match a
    case OpenFile(name, loads) => Opening(m, name, loads)
    case CloseResult(j) =>
      match Closes(m, j)
      case None => m
      case Some(g) => m.(counts := m.counts[g := m.counts[g] - 1])
  }

  /** What a program has done. */
  function After(actions: seq<Action>): (r: Play)
    ensures Shaped(r)
  {
    if actions == [] then Play([], [], [])
    else Step(After(actions[..|actions| - 1]), actions[|actions| - 1])
  }

  lemma AfterOneMore(actions: seq<Action>, a: Action)
    ensures After(actions + [a]) == Step(After(actions), a)
  {
    assert (actions + [a])[..|actions|] == actions;
  }

  lemma StepKeepsOk(m: Play, a: Action)
    requires PlayOk(m)
    ensures PlayOk(Step(m, a))
  {
    var m' := Step(m, a);
    match a
    case OpenFile(name, loads) =>
      var found := Search(m, name, |m.files|);
      forall g: nat, f | Open(m', g, f)
        ensures if f != name then Open(m, g, f) else if found.Some? then g == found.value else g == |m.files|
      {
        assert g < |m.files| && found != Some(g) ==> Open(m, g, f);
      }
    case CloseResult(_) =>
      assert forall g: nat, f :: Open(m', g, f) ==> Open(m, g, f);
  }

  /** Over any run at most one module of each file is open. */
  lemma {:induction false} AfterOk(actions: seq<Action>)
    ensures PlayOk(After(actions))
  {
    if actions != [] {
      AfterOk(actions[..|actions| - 1]);
      StepKeepsOk(After(actions[..|actions| - 1]), actions[|actions| - 1]);
    }
  }

  lemma OpenAlone(m: Play)
    requires PlayOk(m)
    ensures forall g, h :: 0 <= g < h < |m.files| && m.counts[g] > 0 && m.counts[h] > 0 ==> m.files[g] != m.files[h]
  {
    forall g, h | 0 <= g < h < |m.files| && m.counts[g] > 0 && m.counts[h] > 0
      ensures m.files[g] != m.files[h]
    {
      assert Open(m, g, m.files[g]) && Open(m, h, m.files[h]);
    }
  }

  lemma SearchFinds(m: Play, f: string)
    requires Shaped(m)
    ensures Search(m, f, |m.files|).Some? <==> IsOpen(m, f)
  {
    if Search(m, f, |m.files|).Some? {
      assert Open(m, Search(m, f, |m.files|).value, f);
    }
  }

  lemma NoneOpen(m: Play, f: string)
    requires Shaped(m) && Search(m, f, |m.files|).None?
    ensures forall g :: 0 <= g < |m.files| && m.counts[g] > 0 ==> m.files[g] != f
  {
    forall g | 0 <= g < |m.files| && m.counts[g] > 0
      ensures m.files[g] != f
    {
      assert Open(m, g, m.files[g]);
    }
  }

  // ---------------------------------------------------------------- one result for each open

  function OpensIn(actions: seq<Action>): nat {
    if actions == [] then 0
    else OpensIn(actions[..|actions| - 1]) + if actions[|actions| - 1].OpenFile? then 1 else 0
  }

  lemma {:induction false} OneResultPerOpen(actions: seq<Action>)
    ensures |After(actions).results| == OpensIn(actions)
  {
    if actions != [] {
      OneResultPerOpen(actions[..|actions| - 1]);
    }
  }

  /** What an open has returned stays. */
  lemma {:induction false} ResultsStay(actions: seq<Action>, n: nat)
    requires n <= |actions|
    ensures After(actions[..n]).results <= After(actions).results
    ensures After(actions[..n]).files <= After(actions).files
    decreases |actions|
  {
    if n < |actions| {
      var before := actions[..|actions| - 1];
      assert before[..n] == actions[..n];
      ResultsStay(before, n);
    } else {
      assert actions[..n] == actions;
    }
  }

  /** The open at position `n` of a program returns a module of its file, unless no module of that file is open
      and none can be loaded. */
  lemma ResultOfOpen(actions: seq<Action>, n: nat)
    requires n < |actions| && actions[n].OpenFile?
    ensures var m, m', j := After(actions[..n]), After(actions), OpensIn(actions[..n]);
      && j < |m'.results|
      && (m'.results[j] == None <==> !actions[n].loads && !IsOpen(m, actions[n].name))
      && (m'.results[j].Some? ==> m'.files[m'.results[j].value] == actions[n].name)
  {
    var before := actions[..n];
    assert actions[..n + 1] == before + [actions[n]];
    AfterOneMore(before, actions[n]);
    OneResultPerOpen(before);
    ResultsStay(actions, n + 1);
  }

  // ---------------------------------------------------------------- the closes that count

  /** The result of open number `j` is module `g`, and that is still open. */
  predicate Names(m: Play, j: nat, g: nat)
    requires Shaped(m)
  {
    j < |m.results| && m.results[j] == Some(g) && m.counts[g] > 0
  }

  /** How often a program closes a result that is, at that moment, an open module of file `f`. */
  function ClosesOf(actions: seq<Action>, f: string): nat {
    if actions == [] then 0 else
    var m, last := After(actions[..|actions| - 1]), actions[|actions| - 1];
    ClosesOf(actions[..|actions| - 1], f)
      + if last.CloseResult? && exists g: nat :: g < |m.files| && m.files[g] == f && Names(m, last.open, g)
        then 1 else 0
  }

  lemma ClosesOneMore(actions: seq<Action>, a: Action, f: string)
    ensures var m := After(actions);
      ClosesOf(actions + [a], f) == ClosesOf(actions, f)
        + if a.CloseResult? && Closes(m, a.open).Some? && m.files[Closes(m, a.open).value] == f then 1 else 0
  {
    var m := After(actions);
    assert (actions + [a])[..|actions|] == actions;
    if a.CloseResult? && Closes(m, a.open).Some? {
      assert Names(m, a.open, Closes(m, a.open).value);
    }
  }

  /** How often module `g` is among the results of opens. */
  function Returned(results: seq<Option<nat>>, g: nat): nat {
    if results == [] then 0
    else Returned(results[..|results| - 1], g) + if results[|results| - 1] == Some(g) then 1 else 0
  }

  lemma ReturnedOneMore(results: seq<Option<nat>>, r: Option<nat>, g: nat)
    ensures Returned(results + [r], g) == Returned(results, g) + if r == Some(g) then 1 else 0
  {
    assert (results + [r])[..|results|] == results;
  }

  lemma {:induction false} NotReturned(results: seq<Option<nat>>, g: nat)
    requires forall j :: 0 <= j < |results| ==> results[j] != Some(g)
    ensures Returned(results, g) == 0
  {
    if results != [] {
      NotReturned(results[..|results| - 1], g);
    }
  }

  /** How often a program closes a result that is module `g`, at a moment when that is open. */
  function ClosesOfModule(actions: seq<Action>, g: nat): nat {
    if actions == [] then 0 else
    var last := actions[|actions| - 1];
    ClosesOfModule(actions[..|actions| - 1], g)
      + if last.CloseResult? && Names(After(actions[..|actions| - 1]), last.open, g) then 1 else 0
  }

  /** The count of module `g`, and 0 before it is loaded. */
  function Count(m: Play, g: nat): nat
    requires Shaped(m)
  {
    if g < |m.files| then m.counts[g] else 0
  }

  lemma OpenCounts(m: Play, a: Action, m': Play, g: nat) returns (r: Option<nat>)
    requires Shaped(m) && a.OpenFile? && m' == Step(m, a)
    ensures m'.results == m.results + [r] && Count(m', g) == Count(m, g) + if r == Some(g) then 1 else 0
  {
    r := m'.results[|m.results|];
  }

  lemma CloseCounts(m: Play, j: nat, m': Play, g: nat)
    requires Shaped(m) && m' == Step(m, CloseResult(j))
    ensures m'.results == m.results && Count(m, g) == Count(m', g) + if Names(m, j, g) then 1 else 0
  {
  }

  /** A module is open exactly as long as it has been returned by more opens than it has had closes; and it is
      never closed more often than opened. */
  lemma {:induction false} CountIs(actions: seq<Action>, g: nat)
    ensures Returned(After(actions).results, g) == ClosesOfModule(actions, g) + Count(After(actions), g)
  {
    if actions != [] {
      var before, last := actions[..|actions| - 1], actions[|actions| - 1];
      var m, m' := After(before), After(actions);
      CountIs(before, g);
      match last
      case OpenFile(_, _) =>
        var r := OpenCounts(m, last, m', g);
        ReturnedOneMore(m.results, r, g);
      case CloseResult(j) =>
        CloseCounts(m, j, m', g);
    }
  }

  // ---------------------------------------------------------------- programs that close what they open

  /** The opens whose results a program has closed. */
  function Done(actions: seq<Action>): set<nat> {
    set a | a in actions && a.CloseResult? :: a.open
  }

  /** A program closes the result of an open that has succeeded once at most, and not before that open. */
  ghost predicate Disciplined(actions: seq<Action>) {
    forall n {:trigger actions[n]} :: 0 <= n < |actions| && actions[n].CloseResult? ==>
      ClosesOwn(actions, n, actions[n].open)
  }

  ghost predicate ClosesOwn(actions: seq<Action>, n: nat, j: nat)
    requires n < |actions|
  {
    j < |After(actions).results| && After(actions).results[j].Some? ==>
      j < |After(actions[..n]).results| && j !in Done(actions[..n])
  }

  /** The opens that have returned module `g`, less those whose results have been closed. */
  function Pending(results: seq<Option<nat>>, done: set<nat>, g: nat): nat {
    if results == [] then 0 else
    var last := |results| - 1;
    Pending(results[..last], done, g) + if results[last] == Some(g) && last !in done then 1 else 0
  }

  lemma PendingOneMore(results: seq<Option<nat>>, done: set<nat>, r: Option<nat>, g: nat)
    requires r.Some? ==> |results| !in done
    ensures Pending(results + [r], done, g) == Pending(results, done, g) + if r == Some(g) then 1 else 0
  {
    assert (results + [r])[..|results|] == results;
  }

  lemma {:induction false} PendingNone(results: seq<Option<nat>>, done: set<nat>, g: nat)
    requires forall j :: 0 <= j < |results| && results[j] == Some(g) ==> j in done
    ensures Pending(results, done, g) == 0
  {
    if results != [] {
      PendingNone(results[..|results| - 1], done, g);
    }
  }

  /** Closing one more result. */
  lemma {:induction false} PendingClosed(results: seq<Option<nat>>, done: set<nat>, j: nat, g: nat)
    requires j < |results| && results[j].Some? ==> j !in done
    ensures Pending(results, done, g)
         == Pending(results, done + {j}, g) + if j < |results| && results[j] == Some(g) then 1 else 0
  {
    if results != [] {
      PendingClosed(results[..|results| - 1], done, j, g);
    }
  }

  lemma DisciplinedBefore(actions: seq<Action>)
    requires Disciplined(actions) && actions != []
    ensures Disciplined(actions[..|actions| - 1])
  {
    var before := actions[..|actions| - 1];
    forall n | 0 <= n < |before| && before[n].CloseResult?
      ensures ClosesOwn(before, n, before[n].open)
    {
      assert actions[n] == before[n] && before[..n] == actions[..n];
      ResultsStay(actions, |before|);
    }
  }

  lemma DoneOneMore(actions: seq<Action>, a: Action)
    ensures Done(actions + [a]) == Done(actions) + if a.CloseResult? then {a.open} else {}
  {
    assert forall x :: x in actions + [a] <==> x in actions || x == a;
    assert a in actions + [a];
  }

  /** The result of an open that is just being made has not been closed before. */
  lemma NotDoneYet(before: seq<Action>, a: Action, j: nat)
    requires Disciplined(before + [a]) && a.OpenFile? && j == |After(before).results|
    ensures After(before + [a]).results[j].Some? ==> j !in Done(before)
  {
    var actions := before + [a];
    AfterOneMore(before, a);
    if After(actions).results[j].Some? && j in Done(before) {
      var n :| 0 <= n < |before| && before[n] == CloseResult(j);
      assert actions[n] == before[n] && actions[..n] == before[..n];
      ResultsStay(before, n);
      assert false;
    }
  }

  lemma PendingAfterClose(m: Play, done: set<nat>, j: nat, m': Play, g: nat)
    requires Shaped(m) && m' == Step(m, CloseResult(j)) && Pending(m.results, done, g) == Count(m, g)
    requires j < |m.results| && m.results[j].Some? ==> j !in done
    ensures Pending(m'.results, done + {j}, g) == Count(m', g)
  {
    PendingClosed(m.results, done, j, g);
    CloseCounts(m, j, m', g);
  }

  /** As long as a program closes each result once at most, a module's count is the number of opens that have
      returned it and have not been closed. */
  lemma {:induction false} CountIsPending(actions: seq<Action>, g: nat)
    requires Disciplined(actions)
    ensures Pending(After(actions).results, Done(actions), g) == Count(After(actions), g)
  {
    if actions != [] {
      var before, last := actions[..|actions| - 1], actions[|actions| - 1];
      var m, m' := After(before), After(actions);
      assert actions == before + [last];
      DisciplinedBefore(actions);
      CountIsPending(before, g);
      DoneOneMore(before, last);
      match last
      case OpenFile(_, _) =>
        var r := OpenCounts(m, last, m', g);
        assert Done(actions) == Done(before);
        NotDoneYet(before, last, |m.results|);
        PendingOneMore(m.results, Done(before), r, g);
      case CloseResult(j) =>
        assert ClosesOwn(actions, |before|, j);
        PendingAfterClose(m, Done(before), j, m', g);
    }
  }

  /** A program that closes the result of each open that has succeeded, once and after that open, leaves no module
      open. */
  lemma AllClosed(actions: seq<Action>)
    requires Disciplined(actions)
    requires var m := After(actions);
      forall j :: 0 <= j < |m.results| && m.results[j].Some? ==> CloseResult(j) in actions
    ensures forall g: nat :: g < |After(actions).files| ==> After(actions).counts[g] == 0
  {
    var m := After(actions);
    forall g: nat | g < |m.files|
      ensures m.counts[g] == 0
    {
      CountIsPending(actions, g);
      forall j | 0 <= j < |m.results| && m.results[j] == Some(g)
        ensures j in Done(actions)
      {
        assert CloseResult(j).CloseResult?;
      }
      PendingNone(m.results, Done(actions), g);
    }
  }
}
