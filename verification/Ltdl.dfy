/** The list of open modules of `ltdl.c`: opening, closing, and shutting down. */
module Ltdl {
  import opened Machine

  /** A handle's file name; `None` is the program itself. */
  type FileName = Option<string>

  class Handle {
    const filename: FileName
    var refCount: int
    var next: Handle?

    constructor (filename: FileName)
      ensures this.filename == filename && refCount == 0 && next == null
    {
      this.filename := filename;
      refCount := 0;
      next := null;
    }
  }

  /** The link that leads to position `i` of `s`. */
  ghost function At(s: seq<Handle>, i: nat): Handle? {
    if i < |s| then s[i] else null
  }

  /** `first` leads through exactly the handles of `s`, each once, and then to NULL. */
  ghost predicate Chain(first: Handle?, s: seq<Handle>)
    reads s
  {
    && first == At(s, 0)
    && (forall i {:trigger s[i].next} :: 0 <= i < |s| ==> s[i].next == At(s, i + 1))
    && (forall i, j :: 0 <= i < j < |s| ==> s[i] != s[j])
  }

  ghost predicate Has(s: seq<Handle>, f: FileName) {
    exists i :: 0 <= i < |s| && s[i].filename == f
  }

  ghost predicate OnePerFile(s: seq<Handle>) {
    forall i, j :: 0 <= i < j < |s| ==> s[i].filename != s[j].filename
  }

  /** The handles of `s` that are in `keep`, in order. */
  ghost function Keep(s: seq<Handle>, keep: set<Handle>): seq<Handle> {
    if s == [] then [] else
    Keep(s[..|s| - 1], keep) + if s[|s| - 1] in keep then [s[|s| - 1]] else []
  }

  lemma {:induction false} KeepConcat(a: seq<Handle>, b: seq<Handle>, keep: set<Handle>)
    ensures Keep(a + b, keep) == Keep(a, keep) + Keep(b, keep)
    decreases |b|
  {
    if b == [] {
      assert a + b == a;
    } else {
      assert (a + b)[..|a + b| - 1] == a + b[..|b| - 1];
      KeepConcat(a, b[..|b| - 1], keep);
    }
  }

  lemma {:induction false} KeepAll(s: seq<Handle>, keep: set<Handle>)
    requires forall h :: h in s ==> h in keep
    ensures Keep(s, keep) == s
  {
    if s != [] {
      KeepAll(s[..|s| - 1], keep);
    }
  }

  lemma {:induction false} KeepNone(s: seq<Handle>, keep: set<Handle>)
    requires forall h :: h in s ==> h !in keep
    ensures Keep(s, keep) == []
  {
    if s != [] {
      KeepNone(s[..|s| - 1], keep);
    }
  }

  class Ltdl {
    var handles: Handle?
    var initialized: nat

    /** For each loader, what its exit function returns, if it has one. */
    var loaders: seq<Option<nat>>

    /** The handles whose residency flag is set. */
    var residents: set<Handle>

    /** What `module_close` returns for a handle. */
    const moduleClose: Handle -> nat

    /** The listed handles in order, and every handle that has been passed to `module_close`. */
    ghost var list: seq<Handle>
    ghost var closed: seq<Handle>

    constructor (moduleClose: Handle -> nat)
      ensures Valid() && list == [] && closed == [] && residents == {} && initialized == 1
    {
      this.moduleClose := moduleClose;
      handles := null;
      initialized := 1;
      residents := {};
      loaders := [];
      list, closed := [], [];
    }

    /** The list is acyclic with one entry per file, and handles in use have references. */
    ghost predicate Valid()
      reads this, list
    {
      && Chain(handles, list)
      && OnePerFile(list)
      && (forall h :: h in list && h !in residents ==> h.refCount >= 1)
    }

    /** The search for a handle that has the file open already. */
    method Lookup(filename: FileName) returns (cur: Handle?, ghost k: nat)
      requires Chain(handles, list)
      ensures k <= |list| && cur == At(list, k)
      ensures k < |list| ==> list[k].filename == filename
      ensures forall i :: 0 <= i < k ==> list[i].filename != filename
    {
      cur := handles;
      k := 0;
      while cur != null && cur.filename != filename
        invariant 0 <= k <= |list| && cur == At(list, k)
        invariant forall i :: 0 <= i < k ==> list[i].filename != filename
        decreases |list| - k
      {
        cur := cur.next;
        k := k + 1;
      }
    }

    /** `lt_dlopen`: `loads` says whether a loader can open the file.  The program itself becomes resident.
        `k` is the position at which the file is found, if it is. */
    method Open(filename: FileName, loads: bool) returns (r: Handle?, ghost k: nat)
      requires Valid()
      modifies this`handles, this`list, this`residents, list
      ensures k <= |old(list)| && (k < |old(list)| <==> Has(old(list), filename))
      ensures k < |old(list)| ==> r == old(list)[k]
      ensures residents == old(residents)
        + if !Has(old(list), filename) && loads && filename == None then {r} else {}
      ensures !Has(old(list), filename) && !loads ==>
        r == null && list == old(list)
      ensures !Has(old(list), filename) && loads ==>
        r != null && fresh(r) && list == [r] + old(list) && r.filename == filename && r.refCount == 1
      ensures Has(old(list), filename) ==>
        r != null && r in old(list) && r.filename == filename && list == old(list)
      ensures Has(old(list), filename) && old(r.refCount) != -1 ==>
        r.refCount == old(r.refCount) + 1
      ensures forall h :: h in old(list) && h != r ==> h.refCount == old(h.refCount) && h.next == old(h.next)
      ensures Has(old(list), filename) && old(r.refCount) == -1 ==>
        handles == r && r.next == old(handles) && r.refCount == 1
      ensures (Has(old(list), filename) && old(r.refCount) == -1) || Valid()
    {
      var cur, pos := Lookup(filename);
      k := pos;
      if cur != null {
        cur.refCount := cur.refCount + 1;
        r := cur;
      } else if loads {
        r := new Handle(filename);
        if filename == None {
          residents := residents + {r};
        }
      } else {
        return null, k;
      }
      Register(r, cur == null);
    }

    /** A handle whose count is 0 is taken for a new one and put in front. */
    method Register(r: Handle, ghost isNew: bool)
      requires Chain(handles, list) && (r in list <==> !isNew)
      modifies this`handles, this`list, r
      ensures old(r.refCount) != 0 ==>
        r.refCount == old(r.refCount) && r.next == old(r.next) && handles == old(handles) && list == old(list)
      ensures old(r.refCount) == 0 ==> r.refCount == 1 && r.next == old(handles) && handles == r
      ensures old(r.refCount) == 0 ==> list == if isNew then [r] + old(list) else old(list)
      ensures old(r.refCount) != 0 || isNew ==> Chain(handles, list)
    {
      if r.refCount == 0 {
        r.refCount := 1;
        r.next := handles;
        handles := r;
        if isNew {
          list := [r] + list;
        }
      }
    }

    /** `lt_dlmakeresident`. */
    method MakeResident(handle: Handle)
      requires Valid()
      modifies this`residents
      ensures Valid() && residents == old(residents) + {handle}
    {
      residents := residents + {handle};
    }

    /** The first part of `lt_dlclose`: is the handle on the list, and after which one? */
    method Find(handle: Handle) returns (found: bool, last: Handle?, ghost k: nat)
      requires Chain(handles, list)
      ensures found == (handle in list)
      ensures found ==> k < |list| && list[k] == handle && last == if k == 0 then handles else list[k - 1]
    {
      var cur := handles;
      last := handles;
      k := 0;
      while cur != null && handle != cur
        invariant 0 <= k <= |list| && cur == At(list, k)
        invariant last == if k == 0 then handles else list[k - 1]
        invariant forall i :: 0 <= i < k ==> list[i] != handle
        decreases |list| - k
      {
        last := cur;
        cur := cur.next;
        k := k + 1;
      }
      found := cur != null;
    }

    /** Takes the handle at position `k` off the list. */
    method Unlink(handle: Handle, last: Handle?, ghost k: nat)
      requires Chain(handles, list) && OnePerFile(list)
      requires k < |list| && list[k] == handle && last == if k == 0 then handles else list[k - 1]
      modifies this`handles, this`list, if k == 0 then {} else {list[k - 1]}
      ensures list == old(list)[..k] + old(list)[k + 1..]
      ensures Chain(handles, list) && OnePerFile(list)
      ensures forall h: Handle :: old(allocated(h)) ==> h.refCount == old(h.refCount)
    {
      if handle != handles {
        last.next := handle.next;
      } else {
        handles := handle.next;
      }
      list := list[..k] + list[k + 1..];
    }

    /** `lt_dlclose`; `k` is the position of the handle. */
    method Close(handle: Handle) returns (errors: nat, ghost k: nat)
      requires Valid()
      modifies this`handles, this`list, this`closed, handle`refCount, list
      ensures Valid()
      ensures handle !in old(list) ==> errors == 1 && list == old(list) && closed == old(closed)
      ensures handle.refCount == old(handle.refCount) - if handle in old(list) then 1 else 0
      ensures handle in old(list) ==> k < |old(list)| && old(list)[k] == handle
      ensures handle in old(list) && (handle in residents || old(handle.refCount) > 1) ==>
        list == old(list) && closed == old(closed) && errors == if handle in residents then 1 else 0
      ensures handle in old(list) && handle !in residents && old(handle.refCount) == 1 ==>
        && list == old(list)[..k] + old(list)[k + 1..]
        && closed == old(closed) + [handle] && errors == moduleClose(handle)
      ensures forall h: Handle :: old(allocated(h)) && h != handle ==> h.refCount == old(h.refCount)
    {
      var found, last, pos := Find(handle);
      k := pos;
      if !found {
        return 1, k;
      }
      handle.refCount := handle.refCount - 1;
      if handle.refCount <= 0 && handle !in residents {
        Unlink(handle, last, k);
        closed := closed + [handle];
        return moduleClose(handle), k;
      }
      if handle in residents {
        return 1, k;
      }
      return 0, k;
    }

    /** What one pass of the shutdown loop keeps for the handles not yet visited (`level - 1`) and
        establishes for those visited (`level`): the reference count left and the passes made so far
        add up to at most twice the largest initial count. */
    ghost predicate Budget(h: Handle, level: nat, most: nat)
      reads this, h
    {
      h !in residents ==> 1 <= h.refCount <= most && h.refCount + level <= 2 * most
    }

    /** A pass has dealt with the first `d` handles. */
    ghost predicate Visited(d: nat, level: nat, most: nat)
      requires level >= 1
      reads this, list
    {
      forall i {:trigger list[i]} :: 0 <= i < |list| ==> Budget(list[i], if i < d then level else level - 1, most)
    }

    /** Visits the handle at position `d` in a pass: `removed` says whether its module was closed. */
    method Visit(tmp: Handle, level: nat, ghost most: nat, ghost d: nat)
      returns (error: bool, ghost removed: bool)
      requires Valid() && level >= 1
      requires d < |list| && list[d] == tmp
      requires Visited(d, level, most)
      modifies this`handles, this`list, this`closed, list
      ensures Valid()
      ensures removed ==> tmp !in residents
      ensures list == if removed then old(list)[..d] + old(list)[d + 1..] else old(list)
      ensures closed == if removed then old(closed) + [tmp] else old(closed)
      ensures error == (removed && moduleClose(tmp) != 0)
      ensures Visited(if removed then d else d + 1, level, most)
    {
      error, removed := false, false;
      if tmp !in residents && tmp.refCount <= level {
        removed := tmp.refCount == 1;
        var e, k := Close(tmp);
        assert k == d;
        error := e != 0;
      }
    }

    /** Where a pass that started with the list `start` stands: `taken` are the positions at which
        handles have been taken off the list, each relative to the list at that moment. */
    ghost predicate Taking(start: seq<Handle>, closedBefore: seq<Handle>, taken: seq<nat>, errors: nat)
      reads this
    {
      TakenOff(start, closedBefore, taken, list, closed, errors, moduleClose, residents)
    }

    /** A pass has come to position `d`. */
    ghost predicate AtPosition(cur: Handle?, d: nat, level: nat, most: nat, sawNonresident: bool, taken: seq<nat>)
      requires level >= 1
      reads this, list
    {
      && d <= |list| && cur == At(list, d)
      && Visited(d, level, most)
      && (sawNonresident ==> level <= 2 * most)
      && (!sawNonresident ==> taken == [] && forall i :: 0 <= i < d ==> list[i] in residents)
    }

    /** Visits a handle and adds what has been done to the record of the passes. */
    method VisitTaking(tmp: Handle, level: nat, errors: nat, ghost most: nat, ghost d: nat,
                       ghost start: seq<Handle>, ghost closedBefore: seq<Handle>, ghost taken: seq<nat>)
      returns (errors': nat, ghost d': nat, ghost taken': seq<nat>)
      requires Valid() && level >= 1 && d < |list| && list[d] == tmp && Visited(d, level, most)
      requires Taking(start, closedBefore, taken, errors)
      modifies this`handles, this`list, this`closed, list
      ensures Valid() && Visited(d', level, most) && Taking(start, closedBefore, taken', errors')
      ensures d' == d ==>
        tmp !in residents && list == old(list)[..d] + old(list)[d + 1..]
      ensures d' != d ==> d' == d + 1 && list == old(list) && taken' == taken
    {
      errors', taken', d' := errors, taken, d;
      ghost var before, closed0 := list, closed;
      var error, removed := Visit(tmp, level, most, d);
      if error {
        errors' := errors' + 1;
      }
      if removed {
        TakenOffOneMore(start, closedBefore, taken, before, closed0, errors, moduleClose, residents, d);
        taken' := taken + [d];
      } else {
        d' := d + 1;
      }
    }

    /** The loop body of a pass. */
    method PassStep(tmp: Handle, level: nat, saw: bool, errors: nat, ghost most: nat, ghost d: nat,
                    ghost start: seq<Handle>, ghost closedBefore: seq<Handle>, ghost taken: seq<nat>)
      returns (cur: Handle?, saw': bool, errors': nat, ghost d': nat, ghost taken': seq<nat>)
      requires Valid() && level >= 1 && AtPosition(tmp, d, level, most, saw, taken)
      requires Taking(start, closedBefore, taken, errors)
      modifies this`handles, this`list, this`closed, list
      ensures Valid() && AtPosition(cur, d', level, most, saw', taken')
      ensures Taking(start, closedBefore, taken', errors')
      ensures |list| - d' < |old(list)| - d
      ensures forall i :: 0 <= i < |list| ==> list[i] in old(list)
    {
      cur := tmp.next;
      saw' := saw || tmp !in residents;
      errors', d', taken' := VisitTaking(tmp, level, errors, most, d, start, closedBefore, taken);
    }

    /** One pass over the list, closing what has at most `level` references. */
    method ClosePass(level: nat, ghost most: nat) returns (sawNonresident: bool, errors: nat, ghost taken: seq<nat>)
      requires Valid() && level >= 1 && Visited(0, level, most)
      modifies this`handles, this`list, this`closed, list
      ensures Valid() && Visited(|list|, level, most)
      ensures sawNonresident ==> level <= 2 * most
      ensures !sawNonresident ==> taken == [] && forall i :: 0 <= i < |list| ==> list[i] in residents
      ensures Taking(old(list), old(closed), taken, errors)
    {
      var cur := handles;
      ghost var d: nat := 0;
      sawNonresident, errors, taken := false, 0, [];
      while cur != null
        invariant Valid() && AtPosition(cur, d, level, most, sawNonresident, taken)
        invariant forall i :: 0 <= i < |list| ==> list[i] in old(list)
        invariant Taking(old(list), old(closed), taken, errors)
        decreases |list| - d
      {
        cur, sawNonresident, errors, d, taken :=
          PassStep(cur, level, sawNonresident, errors, most, d, old(list), old(closed), taken);
      }
    }

    /** Skips the resident handles at the head of the list; they are not listed any more. */
    method SkipResidents() returns (ghost lead: nat)
      requires Valid()
      modifies this`handles, this`list
      ensures Valid() && lead <= |old(list)| && list == old(list)[lead..]
      ensures forall i :: 0 <= i < lead ==> old(list)[i] in residents
    {
      lead := 0;
      while handles != null && handles in residents
        invariant Valid() && lead <= |old(list)| && list == old(list)[lead..]
        invariant forall i :: 0 <= i < lead ==> old(list)[i] in residents
        decreases |list|
      {
        handles := handles.next;
        list := list[1..];
        lead := lead + 1;
      }
    }

    /** A pass at `level`, added to what the passes before it have done. */
    method NextPass(level: nat, errors: nat, ghost most: nat, ghost start: seq<Handle>,
                    ghost closedBefore: seq<Handle>, ghost taken: seq<nat>)
      returns (sawNonresident: bool, errors': nat, ghost taken': seq<nat>)
      requires Valid() && level >= 1 && Visited(0, level, most)
      requires Taking(start, closedBefore, taken, errors)
      modifies this`handles, this`list, this`closed, list
      ensures Valid() && Visited(0, level + 1, most)
      ensures sawNonresident ==> level <= 2 * most
      ensures !sawNonresident ==> forall i :: 0 <= i < |list| ==> list[i] in residents
      ensures Taking(start, closedBefore, taken', errors')
      ensures forall i :: 0 <= i < |list| ==> list[i] in old(list)
    {
      ghost var list0, closed0 := list, closed;
      var e: nat;
      ghost var t;
      sawNonresident, e, t := ClosePass(level, most);
      TakenOffConcat(start, closedBefore, taken, list0, closed0, errors, t, list, closed, e, moduleClose, residents);
      WithoutSubset(list0, t);
      taken' := taken + t;
      errors' := errors + e;
    }

    /** The passes of the shutdown loop, from level 1 up.  At most `2 * most` of them find anything to
        close. */
    method ClosePasses(ghost most: nat) returns (errors: nat, ghost taken: seq<nat>, level: nat)
      requires Valid() && Visited(0, 1, most)
      modifies this`handles, this`list, this`closed, list
      ensures Valid()
      ensures forall i :: 0 <= i < |list| ==> list[i] in residents
      ensures Taking(old(list), old(closed), taken, errors)
      ensures level <= 2 * most + 1
    {
      errors, taken, level := 0, [], 1;
      while handles != null
        invariant Valid() && 1 <= level <= 2 * most + 1
        invariant Visited(0, level, most)
        invariant Taking(old(list), old(closed), taken, errors)
        invariant forall i :: 0 <= i < |list| ==> list[i] in old(list)
        decreases 2 * most + 1 - level
      {
        var sawNonresident;
        sawNonresident, errors, taken := NextPass(level, errors, most, old(list), old(closed), taken);
        if !sawNonresident {
          break;
        }
        level := level + 1;
      }
    }

    /** The level-driven loop closes every non-resident module exactly once, whatever the reference
        counts, and leaves the residents in their order. */
    method CloseModules() returns (errors: nat, ghost gone: seq<Handle>)
      requires Valid()
      modifies this`handles, this`list, this`closed, list
      ensures Valid() && closed == old(closed) + gone
      ensures list == Keep(old(list), residents)
      ensures multiset(gone) + multiset(list) == multiset(old(list))
      ensures forall i :: 0 <= i < |list| ==> list[i] in residents
      ensures forall i :: 0 <= i < |gone| ==> gone[i] !in residents
      ensures errors == Failures(moduleClose, gone)
    {
      ghost var start := list;
      ghost var most := LargestCount(list);
      ghost var taken;
      var level;
      errors, taken, level := ClosePasses(most);
      gone := Taken(start, taken);
      TakenConserves(start, taken);
      TakenKeeps(start, taken, residents);
      KeepAll(list, residents);
    }

    /** `lt_dlloader_add` without a place: the loader goes to the end. */
    method AddLoader(exit: Option<nat>)
      modifies this`loaders
      ensures loaders == old(loaders) + [exit]
    {
      loaders := loaders + [exit];
    }

    /** Shuts the loaders down, one after the other. */
    method ExitLoaders() returns (errors: nat)
      modifies this`loaders
      ensures loaders == [] && errors == FailedExits(old(loaders))
    {
      errors := 0;
      while loaders != []
        invariant errors + FailedExits(loaders) == FailedExits(old(loaders))
        decreases |loaders|
      {
        if loaders[0].Some? && loaders[0].value != 0 {
          errors := errors + 1;
        }
        loaders := loaders[1..];
      }
    }

    /** What the last `lt_dlexit` does with the modules: resident handles at the very head of the list are
        dropped from it, and then all others are dealt with. */
    method Shutdown() returns (errors: nat, ghost gone: seq<Handle>, ghost lead: nat)
      requires Valid()
      modifies this`handles, this`list, this`closed, list
      ensures Valid() && closed == old(closed) + gone
      ensures lead <= |old(list)| && (forall i :: 0 <= i < lead ==> old(list)[i] in residents)
      ensures list == Keep(old(list)[lead..], residents)
      ensures multiset(gone) + multiset(list) == multiset(old(list)[lead..])
      ensures forall i :: 0 <= i < |list| ==> list[i] in residents
      ensures forall i :: 0 <= i < |gone| ==> gone[i] !in residents
      ensures errors == Failures(moduleClose, gone)
    {
      lead := SkipResidents();
      errors, gone := CloseModules();
    }

    /** `lt_dlexit`.  Only the last call closes anything. */
    method Exit() returns (errors: nat, ghost gone: seq<Handle>, ghost lead: nat)
      requires Valid()
      modifies this`initialized, this`handles, this`list, this`closed, this`loaders, list
      ensures Valid() && closed == old(closed) + gone
      ensures initialized == if old(initialized) == 0 then 0 else old(initialized) - 1
      ensures old(initialized) == 0 ==> errors == 1 && gone == [] && list == old(list)
      ensures old(initialized) > 1 ==> errors == 0 && gone == [] && list == old(list)
      ensures loaders == if old(initialized) == 1 then [] else old(loaders)
      ensures old(initialized) == 1 ==>
        && lead <= |old(list)| && (forall i :: 0 <= i < lead ==> old(list)[i] in residents)
        && list == Keep(old(list)[lead..], residents)
        && multiset(gone) + multiset(list) == multiset(old(list)[lead..])
        && (forall i :: 0 <= i < |list| ==> list[i] in residents)
        && (forall i :: 0 <= i < |gone| ==> gone[i] !in residents)
        && errors == Failures(moduleClose, gone) + FailedExits(old(loaders))
    {
      errors, gone, lead := 0, [], 0;
      if initialized == 0 {
        return 1, gone, lead;
      }
      initialized := initialized - 1;
      if initialized == 0 {
        errors, gone, lead := Shutdown();
        var e := ExitLoaders();
        errors := errors + e;
      }
    }
  }

  /** How many loaders report an error on exit. */
  function FailedExits(loaders: seq<Option<nat>>): nat {
    if loaders == [] then 0 else
    (if loaders[0].Some? && loaders[0].value != 0 then 1 else 0) + FailedExits(loaders[1..])
  }

  lemma LargestCount(s: seq<Handle>) returns (most: nat)
    ensures forall i :: 0 <= i < |s| ==> s[i].refCount <= most
  {
    most := 0;
    if s != [] {
      var m := LargestCount(s[..|s| - 1]);
      var last := s[|s| - 1].refCount;
      most := if last > m then last else m;
    }
  }

  lemma FailuresOneMore(moduleClose: Handle -> nat, gone: seq<Handle>, h: Handle)
    ensures Failures(moduleClose, gone + [h])
         == Failures(moduleClose, gone) + if moduleClose(h) != 0 then 1 else 0
  {
    assert (gone + [h])[..|gone|] == gone;
  }

  /** How many of the closed modules reported an error. */
  ghost function Failures(moduleClose: Handle -> nat, gone: seq<Handle>): (n: nat)
    ensures n <= |gone|
  {
    if gone == [] then 0 else
    Failures(moduleClose, gone[..|gone| - 1]) + if moduleClose(gone[|gone| - 1]) != 0 then 1 else 0
  }

  ghost function Delete(s: seq<Handle>, p: nat): seq<Handle> {
    if p < |s| then s[..p] + s[p + 1..] else s
  }

  /** `s` after taking off the handles at the positions `ps` one after the other. */
  ghost function Without(s: seq<Handle>, ps: seq<nat>): seq<Handle> {
    if ps == [] then s else Delete(Without(s, ps[..|ps| - 1]), ps[|ps| - 1])
  }

  /** The handles so taken off. */
  ghost function Taken(s: seq<Handle>, ps: seq<nat>): seq<Handle> {
    if ps == [] then [] else
    var before := Without(s, ps[..|ps| - 1]);
    Taken(s, ps[..|ps| - 1]) + if ps[|ps| - 1] < |before| then [before[ps[|ps| - 1]]] else []
  }

  /** After taking off the handles at `taken`, none resident, `list` is left; the handles' modules have
      been closed, `errors` of them reporting an error. */
  ghost predicate TakenOff(
    start: seq<Handle>, closedBefore: seq<Handle>, taken: seq<nat>, list: seq<Handle>, closed: seq<Handle>,
    errors: nat, moduleClose: Handle -> nat, residents: set<Handle>)
  {
    && list == Without(start, taken)
    && closed == closedBefore + Taken(start, taken)
    && errors == Failures(moduleClose, Taken(start, taken))
    && forall i :: 0 <= i < |Taken(start, taken)| ==> Taken(start, taken)[i] !in residents
  }

  lemma TakenOffOneMore(
    start: seq<Handle>, closedBefore: seq<Handle>, taken: seq<nat>, list: seq<Handle>, closed: seq<Handle>,
    errors: nat, moduleClose: Handle -> nat, residents: set<Handle>, d: nat)
    requires TakenOff(start, closedBefore, taken, list, closed, errors, moduleClose, residents)
    requires d < |list| && list[d] !in residents
    ensures TakenOff(start, closedBefore, taken + [d], list[..d] + list[d + 1..], closed + [list[d]],
                     errors + if moduleClose(list[d]) != 0 then 1 else 0, moduleClose, residents)
  {
    var gone, gone' := Taken(start, taken), Taken(start, taken + [d]);
    assert gone' == gone + [list[d]] && Without(start, taken + [d]) == list[..d] + list[d + 1..] by {
      WithoutOneMore(start, taken, d);
    }
    FailuresOneMore(moduleClose, gone, list[d]);
    assert closed + [list[d]] == closedBefore + gone';
  }

  lemma WithoutOneMore(s: seq<Handle>, ps: seq<nat>, p: nat)
    requires p < |Without(s, ps)|
    ensures var now := Without(s, ps);
      && Without(s, ps + [p]) == now[..p] + now[p + 1..]
      && Taken(s, ps + [p]) == Taken(s, ps) + [now[p]]
      && now[p] in s
  {
    assert (ps + [p])[..|ps|] == ps;
    WithoutSubset(s, ps);
  }

  lemma {:induction false} WithoutSubset(s: seq<Handle>, ps: seq<nat>)
    ensures forall h :: h in Without(s, ps) ==> h in s
    ensures forall h :: h in Taken(s, ps) ==> h in s
  {
    if ps != [] {
      WithoutSubset(s, ps[..|ps| - 1]);
    }
  }

  lemma {:induction false} WithoutConcat(s: seq<Handle>, a: seq<nat>, b: seq<nat>)
    ensures Without(s, a + b) == Without(Without(s, a), b)
    ensures Taken(s, a + b) == Taken(s, a) + Taken(Without(s, a), b)
    decreases |b|
  {
    if b == [] {
      assert a + b == a;
    } else {
      assert (a + b)[..|a + b| - 1] == a + b[..|b| - 1];
      WithoutConcat(s, a, b[..|b| - 1]);
    }
  }

  lemma {:induction false} FailuresConcat(moduleClose: Handle -> nat, a: seq<Handle>, b: seq<Handle>)
    ensures Failures(moduleClose, a + b) == Failures(moduleClose, a) + Failures(moduleClose, b)
    decreases |b|
  {
    if b == [] {
      assert a + b == a;
    } else {
      assert (a + b)[..|a + b| - 1] == a + b[..|b| - 1];
      FailuresConcat(moduleClose, a, b[..|b| - 1]);
    }
  }

  lemma TakenOffConcat(
    start: seq<Handle>, closedBefore: seq<Handle>, a: seq<nat>, list0: seq<Handle>, closed0: seq<Handle>, e0: nat,
    b: seq<nat>, list: seq<Handle>, closed: seq<Handle>, e: nat, moduleClose: Handle -> nat, residents: set<Handle>)
    requires TakenOff(start, closedBefore, a, list0, closed0, e0, moduleClose, residents)
    requires TakenOff(list0, closed0, b, list, closed, e, moduleClose, residents)
    ensures TakenOff(start, closedBefore, a + b, list, closed, e0 + e, moduleClose, residents)
  {
    var ta, tb, t := Taken(start, a), Taken(list0, b), Taken(start, a + b);
    assert t == ta + tb && Without(start, a + b) == list by { WithoutConcat(start, a, b); }
    FailuresConcat(moduleClose, ta, tb);
    assert closed == closedBefore + t;
  }

  lemma RemovedOne(s: seq<Handle>, p: nat)
    requires p < |s|
    ensures multiset([s[p]]) + multiset(Delete(s, p)) == multiset(s)
  {
    assert s == s[..p] + [s[p]] + s[p + 1..];
  }

  lemma DeletedKeeps(s: seq<Handle>, p: nat, keep: set<Handle>)
    requires p < |s| && s[p] !in keep
    ensures Keep(Delete(s, p), keep) == Keep(s, keep)
  {
    assert s == s[..p] + [s[p]] + s[p + 1..];
    KeepRemoved(s[..p], s[p], s[p + 1..], keep);
  }

  /** Whatever is taken off is neither lost nor duplicated. */
  lemma {:induction false} TakenConserves(s: seq<Handle>, ps: seq<nat>)
    ensures multiset(Taken(s, ps)) + multiset(Without(s, ps)) == multiset(s)
  {
    if ps != [] {
      var p := ps[|ps| - 1];
      var before := Without(s, ps[..|ps| - 1]);
      TakenConserves(s, ps[..|ps| - 1]);
      if p < |before| {
        RemovedOne(before, p);
      }
    }
  }

  /** Taking off non-residents leaves the residents in their order. */
  lemma {:induction false} TakenKeeps(s: seq<Handle>, ps: seq<nat>, residents: set<Handle>)
    requires forall i :: 0 <= i < |Taken(s, ps)| ==> Taken(s, ps)[i] !in residents
    ensures Keep(Without(s, ps), residents) == Keep(s, residents)
  {
    if ps != [] {
      var init, p := ps[..|ps| - 1], ps[|ps| - 1];
      var before := Without(s, init);
      assert forall i :: 0 <= i < |Taken(s, init)| ==> Taken(s, init)[i] == Taken(s, ps)[i];
      TakenKeeps(s, init, residents);
      if p < |before| {
        assert Taken(s, ps)[|Taken(s, init)|] == before[p];
        DeletedKeeps(before, p, residents);
      }
    }
  }

  lemma KeepRemoved(a: seq<Handle>, x: Handle, b: seq<Handle>, keep: set<Handle>)
    requires x !in keep
    ensures Keep(a + [x] + b, keep) == Keep(a + b, keep)
  {
    KeepConcat(a + [x], b, keep);
    KeepConcat(a, [x], keep);
    KeepConcat(a, b, keep);
    KeepNone([x], keep);
  }
}
