/** Runs of module opens and closes without residents: the book-keeping that reference counts amount to. */
module LtdlSession {
  import opened Ltdl
  import opened LtdlPlay
  import opened Machine

  /** `counts` are the reference counts of `list`. */
  ghost predicate Counted(list: seq<Handle>, counts: seq<int>)
    reads list
  {
    |counts| == |list| && forall i :: 0 <= i < |list| ==> list[i].refCount == counts[i]
  }

  /** The successful opens and the closes of each file so far, and the reference counts of the handles. */
  datatype Ledger = Ledger(opens: multiset<FileName>, closes: multiset<FileName>, counts: seq<int>)

  /** A listed handle's count is the successful opens of its file less the closes; a file that is not
      listed has been closed as often as it was opened. */
  ghost predicate Balanced(list: seq<Handle>, l: Ledger) {
    && |l.counts| == |list|
    && (forall i {:trigger list[i]} :: 0 <= i < |list| ==>
          l.counts[i] + l.closes[list[i].filename] == l.opens[list[i].filename])
    && (forall f {:trigger Has(list, f)} :: !Has(list, f) ==> l.opens[f] == l.closes[f])
  }

  function OpenedAgain(l: Ledger, k: nat, f: FileName): Ledger
    requires k < |l.counts|
  {
    Ledger(l.opens + multiset{f}, l.closes, l.counts[k := l.counts[k] + 1])
  }

  function OpenedNew(l: Ledger, f: FileName): Ledger {
    Ledger(l.opens + multiset{f}, l.closes, [1] + l.counts)
  }

  function ClosedOnce(l: Ledger, k: nat, f: FileName): Ledger
    requires k < |l.counts|
  {
    Ledger(l.opens, l.closes + multiset{f}, l.counts[k := l.counts[k] - 1])
  }

  function ClosedLast(l: Ledger, k: nat, f: FileName): Ledger
    requires k < |l.counts|
  {
    Ledger(l.opens, l.closes + multiset{f}, l.counts[..k] + l.counts[k + 1..])
  }

  lemma HasInsert(list: seq<Handle>, h: Handle, f: FileName)
    ensures Has([h] + list, f) <==> h.filename == f || Has(list, f)
  {
    if h.filename == f {
      assert ([h] + list)[0].filename == f;
    }
    if Has(list, f) {
      var i :| 0 <= i < |list| && list[i].filename == f;
      assert ([h] + list)[i + 1].filename == f;
    }
  }

  lemma HasDelete(list: seq<Handle>, k: nat, f: FileName)
    requires k < |list| && OnePerFile(list)
    ensures Has(list[..k] + list[k + 1..], f) <==> Has(list, f) && list[k].filename != f
  {
    var rest := list[..k] + list[k + 1..];
    if Has(list, f) && list[k].filename != f {
      var i :| 0 <= i < |list| && list[i].filename == f;
      assert rest[if i < k then i else i - 1].filename == f;
    }
    if Has(rest, f) {
      var i :| 0 <= i < |rest| && rest[i].filename == f;
      assert list[if i < k then i else i + 1].filename == f;
    }
  }

  lemma NewFileOnly(list: seq<Handle>, h: Handle)
    ensures forall f {:trigger Has([h] + list, f)} :: Has([h] + list, f) <==> h.filename == f || Has(list, f)
  {
    forall f ensures Has([h] + list, f) <==> h.filename == f || Has(list, f) { HasInsert(list, h, f); }
  }

  lemma BalancedFound(list: seq<Handle>, l: Ledger, k: nat)
    requires Balanced(list, l) && OnePerFile(list) && k < |list|
    ensures Balanced(list, OpenedAgain(l, k, list[k].filename))
  {
    assert Has(list, list[k].filename);
  }

  lemma BalancedNew(list: seq<Handle>, l: Ledger, r: Handle)
    requires Balanced(list, l) && !Has(list, r.filename)
    ensures Balanced([r] + list, OpenedNew(l, r.filename))
  {
    var list', l' := [r] + list, OpenedNew(l, r.filename);
    NewFileOnly(list, r);
    forall i | 0 < i < |list'|
      ensures l'.counts[i] + l'.closes[list'[i].filename] == l'.opens[list'[i].filename]
    {
      assert list'[i] == list[i - 1] && list[i - 1].filename != r.filename;
    }
  }

  lemma BalancedClosed(list: seq<Handle>, l: Ledger, k: nat)
    requires Balanced(list, l) && OnePerFile(list) && k < |list|
    ensures Balanced(list, ClosedOnce(l, k, list[k].filename))
  {
    assert Has(list, list[k].filename);
  }

  lemma BalancedGone(list: seq<Handle>, l: Ledger, k: nat)
    requires Balanced(list, l) && OnePerFile(list) && k < |list| && l.counts[k] == 1
    ensures Balanced(list[..k] + list[k + 1..], ClosedLast(l, k, list[k].filename))
  {
    var list', l' := list[..k] + list[k + 1..], ClosedLast(l, k, list[k].filename);
    forall f ensures Has(list', f) <==> Has(list, f) && list[k].filename != f { HasDelete(list, k, f); }
    forall i | 0 <= i < |list'|
      ensures l'.counts[i] + l'.closes[list'[i].filename] == l'.opens[list'[i].filename]
    {
      var j := if i < k then i else i + 1;
      assert list'[i] == list[j] && list[j].filename != list[k].filename;
    }
  }

  /** Links followed from `h` lead along `s`. */
  lemma {:induction false} Follow(h: Handle, s: seq<Handle>, k: nat, t: seq<Handle>, i: nat)
    requires k < |s| && h.next == s[0] && i <= k + 1 && i < |t| && t[0] == h
    requires forall j {:trigger s[j]} :: 0 <= j < k ==> s[j].next == s[j + 1]
    requires forall j {:trigger t[j]} :: 0 <= j < |t| - 1 ==> t[j].next == t[j + 1]
    ensures t[i] == if i == 0 then h else s[i - 1]
    ensures i <= k ==> t[i].next != null
  {
    if i > 0 {
      Follow(h, s, k, t, i - 1);
    }
  }

  /** If following `next` from `h` leads through the first `k` handles of `s` back to `h`, it never leads
      to NULL. */
  lemma CycleHasNoEnd(h: Handle, s: seq<Handle>, k: nat, t: seq<Handle>)
    requires k < |s| && s[k] == h && h.next == s[0]
    requires forall j {:trigger s[j]} :: 0 <= j < k ==> s[j].next == s[j + 1]
    ensures !Chain(h, t)
  {
    if Chain(h, t) {
      Follow(h, s, k, t, if |t| <= k + 1 then |t| - 1 else k + 1);
    }
  }

  /** Opening keeps the handle list acyclic, except when it finds a handle whose count is -1: a resident
      closed once more often than it was opened.  Its count comes back to 0, it is taken for a new
      handle and put on the list a second time. */
  method OpenAcyclicIff(lib: Ltdl, filename: FileName, loads: bool, ghost k: nat) returns (r: Handle?)
    requires lib.Valid()
    requires k <= |lib.list| && (k < |lib.list| ==> lib.list[k].filename == filename)
    requires k == |lib.list| ==> !Has(lib.list, filename)
    modifies lib, lib.list
    ensures (exists t: seq<Handle> :: Chain(lib.handles, t))
       <==> !(k < |old(lib.list)| && old(lib.list[k].refCount) == -1)
  {
    ghost var s := lib.list;
    ghost var found;
    r, found := lib.Open(filename, loads);
    if k < |s| && old(s[k].refCount) == -1 {
      assert s[k].filename == filename;
      assert r == s[k];
      forall t: seq<Handle> ensures !Chain(lib.handles, t) {
        CycleHasNoEnd(s[k], s, k, t);
      }
    } else {
      assert Chain(lib.handles, lib.list);
    }
  }

  /** That happens: a resident that has been opened once, closed twice and opened again is on the list
      twice, and following the list never comes to an end. */
  method ClosedOnceTooOften(moduleClose: Handle -> nat, filename: FileName) returns (lib: Ltdl, h: Handle?)
    ensures h != null && lib.handles == h && h.next == h && h.refCount == 1
    ensures forall t: seq<Handle> :: !Chain(lib.handles, t)
  {
    lib := new Ltdl(moduleClose);
    ghost var k;
    h, k := lib.Open(filename, true);
    lib.MakeResident(h);
    var _, _ := lib.Close(h);
    var _, _ := lib.Close(h);
    ghost var s := lib.list;
    assert s == [h] && s[0].filename == filename;
    var again;
    again, k := lib.Open(filename, true);
    forall t: seq<Handle> ensures !Chain(lib.handles, t) {
      CycleHasNoEnd(h, s, 0, t);
    }
  }

  /** The library is in order, has no residents, and the ledger balances. */
  ghost predicate Accounted(lib: Ltdl, l: Ledger)
    reads lib, lib.list
  {
    lib.Valid() && lib.residents == {} && Counted(lib.list, l.counts) && Balanced(lib.list, l)
  }

  /** A file is listed exactly if it has been opened more often than closed. */
  lemma ListedIffOpen(list: seq<Handle>, l: Ledger, f: FileName)
    requires Balanced(list, l) && forall i :: 0 <= i < |list| ==> l.counts[i] >= 1
    ensures Has(list, f) <==> l.opens[f] > l.closes[f]
  {
  }

  /** Opens a file and finds out what that does to the counts: it raises that of the handle at position `k`,
      or puts a new handle in front. */
  method OpenCounted(lib: Ltdl, filename: FileName, loads: bool, ghost counts: seq<int>)
    returns (r: Handle?, ghost k: nat)
    requires filename.Some?
    requires lib.Valid() && lib.residents == {} && Counted(lib.list, counts)
    modifies lib`handles, lib`list, lib`residents, lib.list
    ensures lib.Valid() && lib.residents == {} && k <= |old(lib.list)|
    ensures k < |old(lib.list)| ==>
      lib.list == old(lib.list) && r == lib.list[k] && r.filename == filename
      && Counted(lib.list, counts[k := counts[k] + 1])
    ensures k == |old(lib.list)| ==> !Has(old(lib.list), filename) && (r != null <==> loads)
    ensures k == |old(lib.list)| && r == null ==> lib.list == old(lib.list) && Counted(lib.list, counts)
    ensures k == |old(lib.list)| && r != null ==>
      fresh(r) && lib.list == [r] + old(lib.list) && r.filename == filename && Counted(lib.list, [1] + counts)
  {
    r, k := lib.Open(filename, loads);
  }

  method OpenRecorded(lib: Ltdl, filename: FileName, loads: bool, ghost l: Ledger)
    returns (r: Handle?, ghost l': Ledger)
    requires filename.Some?
    requires Accounted(lib, l)
    modifies lib`handles, lib`list, lib`residents, lib.list
    ensures Accounted(lib, l')
    ensures r == null <==> !Has(old(lib.list), filename) && !loads
    ensures r != null ==> r in lib.list && r.filename == filename
    ensures lib.list == if Has(old(lib.list), filename) || !loads then old(lib.list) else [r] + old(lib.list)
    ensures !Has(old(lib.list), filename) && loads ==> fresh(r)
    ensures l'.opens == if r == null then l.opens else l.opens + multiset{filename}
    ensures l'.closes == l.closes
  {
    ghost var before, k := lib.list, 0;
    r, k := OpenCounted(lib, filename, loads, l.counts);
    l' := l;
    if k < |before| {
      BalancedFound(before, l, k);
      l' := OpenedAgain(l, k, filename);
      assert Has(before, before[k].filename);
    } else if r != null {
      BalancedNew(before, l, r);
      l' := OpenedNew(l, filename);
    }
  }

  /** Closes a handle and finds out what that does to the counts: it lowers that of the handle at position
      `k`, or takes that handle off the list. */
  method CloseCounted(lib: Ltdl, handle: Handle, ghost counts: seq<int>) returns (errors: nat, ghost k: nat)
    requires lib.Valid() && lib.residents == {} && Counted(lib.list, counts)
    modifies lib`handles, lib`list, lib`closed, handle`refCount, lib.list
    ensures lib.Valid() && lib.residents == {}
    ensures handle !in old(lib.list) ==>
      errors == 1 && lib.list == old(lib.list) && lib.closed == old(lib.closed) && Counted(lib.list, counts)
    ensures handle in old(lib.list) ==> k < |old(lib.list)| && old(lib.list)[k] == handle
    ensures handle in old(lib.list) && counts[k] != 1 ==>
      lib.list == old(lib.list) && lib.closed == old(lib.closed) && Counted(lib.list, counts[k := counts[k] - 1])
    ensures handle in old(lib.list) && counts[k] == 1 ==>
      && lib.list == Delete(old(lib.list), k) && lib.closed == old(lib.closed) + [handle]
      && Counted(lib.list, counts[..k] + counts[k + 1..])
  {
    ghost var before := lib.list;
    ghost var isListed := handle in before;
    errors, k := lib.Close(handle);
    if isListed {
      if counts[k] == 1 {
        forall i | 0 <= i < |lib.list|
          ensures lib.list[i].refCount == (counts[..k] + counts[k + 1..])[i]
        {
          assert lib.list[i] == before[if i < k then i else i + 1];
        }
      } else {
        forall i | 0 <= i < |lib.list|
          ensures lib.list[i].refCount == counts[k := counts[k] - 1][i]
        {
          assert lib.list[i] == before[i] && (i != k ==> before[i] != before[k]);
        }
      }
    }
  }

  lemma NotListedAgain(list: seq<Handle>, k: nat)
    requires OnePerFile(list) && k < |list|
    ensures list[k] !in Delete(list, k)
  {
  }

  method CloseRecorded(lib: Ltdl, handle: Handle, ghost l: Ledger) returns (errors: nat, ghost k: nat, ghost l': Ledger)
    requires Accounted(lib, l)
    modifies lib`handles, lib`list, lib`closed, handle`refCount, lib.list
    ensures Accounted(lib, l')
    ensures handle !in old(lib.list) ==>
      errors == 1 && l' == l && lib.list == old(lib.list) && lib.closed == old(lib.closed)
    ensures handle in old(lib.list) ==>
      && k < |old(lib.list)| && old(lib.list)[k] == handle
      && l'.opens == l.opens && l'.closes == l.closes + multiset{handle.filename}
      && (handle !in lib.list <==> l'.opens[handle.filename] == l'.closes[handle.filename])
      && lib.list == (if handle in lib.list then old(lib.list) else Delete(old(lib.list), k))
      && lib.closed == old(lib.closed) + if handle in lib.list then [] else [handle]
  {
    ghost var before := lib.list;
    l' := l;
    errors, k := CloseCounted(lib, handle, l.counts);
    if handle in before {
      if l.counts[k] == 1 {
        BalancedGone(before, l, k);
        NotListedAgain(before, k);
        l' := ClosedLast(l, k, handle.filename);
      } else {
        BalancedClosed(before, l, k);
        l' := ClosedOnce(l, k, handle.filename);
      }
    }
  }

  /** Each of the handles created has either been passed to `module_close`, once, or is listed, once. */
  ghost predicate Conserved(created: seq<Handle>, closed: seq<Handle>, list: seq<Handle>) {
    && multiset(created) == multiset(closed) + multiset(list)
    && forall h :: h in created ==> multiset(created)[h] == 1
  }

  lemma ConservedNew(created: seq<Handle>, closed: seq<Handle>, list: seq<Handle>, h: Handle)
    requires Conserved(created, closed, list) && h !in created
    ensures Conserved(created + [h], closed, [h] + list)
  {
  }

  function CreatedBy(created: seq<Handle>, r: Handle?, isNew: bool): seq<Handle>
    requires isNew ==> r != null
  {
    if isNew then created + [r] else created
  }

  lemma ConservedOpened(
    created: seq<Handle>, closed: seq<Handle>, list: seq<Handle>, list': seq<Handle>, r: Handle?, isNew: bool)
    requires Conserved(created, closed, list) && (isNew ==> r != null && r !in created)
    requires list' == if isNew then [r] + list else list
    ensures Conserved(CreatedBy(created, r, isNew), closed, list')
  {
    if isNew {
      ConservedNew(created, closed, list, r);
    }
  }

  lemma ConservedGone(created: seq<Handle>, closed: seq<Handle>, list: seq<Handle>, k: nat)
    requires Conserved(created, closed, list) && k < |list|
    ensures Conserved(created, closed + [list[k]], Delete(list, k))
  {
    RemovedOne(list, k);
  }

  /** Everything done since the library was set up: the ledger, and all handles created. */
  datatype Record = Record(ledger: Ledger, created: seq<Handle>)

  ghost predicate Recorded(lib: Ltdl, rec: Record)
    reads lib, lib.list
  {
    Accounted(lib, rec.ledger) && Conserved(rec.created, lib.closed, lib.list)
  }

  /** What an open does to the list and the record. */
  ghost predicate Opened(list: seq<Handle>, rec: Record, filename: FileName, loads: bool, r: Handle?,
                         list': seq<Handle>, rec': Record)
  {
    && (r == null <==> !Has(list, filename) && !loads)
    && (r != null ==> r in list' && r.filename == filename)
    && list' == (if Has(list, filename) || !loads then list else [r] + list)
    && rec'.created == rec.created + (if Has(list, filename) || !loads then [] else [r])
    && rec'.ledger.opens == rec.ledger.opens + (if r == null then multiset{} else multiset{filename})
    && rec'.ledger.closes == rec.ledger.closes
  }

  /** What a close does to them.  A module is closed exactly when the closes of its file catch up with the
      opens.  Closing a handle that is not listed is an error and changes nothing. */
  ghost predicate Closed(list: seq<Handle>, closed: seq<Handle>, rec: Record, handle: Handle, errors: nat,
                         list': seq<Handle>, closed': seq<Handle>, rec': Record)
  {
    && (handle !in list ==> errors == 1 && rec' == rec && list' == list && closed' == closed)
    && (handle in list ==>
          && rec'.created == rec.created && rec'.ledger.opens == rec.ledger.opens
          && rec'.ledger.closes == rec.ledger.closes + multiset{handle.filename}
          && (handle !in list' <==> rec'.ledger.opens[handle.filename] == rec'.ledger.closes[handle.filename])
          && closed' == closed + (if handle in list' then [] else [handle])
          && (forall h :: h in list' ==> h in list)
          && forall h :: h in list && h != handle ==> h in list')
  }

  lemma OpenedAs(list: seq<Handle>, rec: Record, filename: FileName, loads: bool, r: Handle?,
                 list': seq<Handle>, rec': Record)
    requires r == null <==> !Has(list, filename) && !loads
    requires r != null ==> r in list' && r.filename == filename
    requires list' == if Has(list, filename) || !loads then list else [r] + list
    requires rec'.created == if Has(list, filename) || !loads then rec.created else rec.created + [r]
    requires rec'.ledger.opens == if r == null then rec.ledger.opens else rec.ledger.opens + multiset{filename}
    requires rec'.ledger.closes == rec.ledger.closes
    ensures Opened(list, rec, filename, loads, r, list', rec')
  {
  }

  method OpenStep(lib: Ltdl, filename: FileName, loads: bool, ghost rec: Record)
    returns (r: Handle?, ghost rec': Record)
    requires filename.Some? && Recorded(lib, rec)
    modifies lib`handles, lib`list, lib`residents, lib.list
    ensures Recorded(lib, rec') && Opened(old(lib.list), rec, filename, loads, r, lib.list, rec')
    ensures !Has(old(lib.list), filename) && loads ==> fresh(r)
  {
    ghost var before, l, isNew := lib.list, rec.ledger, !Has(lib.list, filename) && loads;
    r, l := OpenRecorded(lib, filename, loads, rec.ledger);
    rec' := Record(l, CreatedBy(rec.created, r, isNew));
    ConservedOpened(rec.created, lib.closed, before, lib.list, r, isNew);
    OpenedAs(before, rec, filename, loads, r, lib.list, rec');
  }

  lemma OthersStay(list: seq<Handle>, k: nat)
    requires k < |list|
    ensures forall h :: h in list && h != list[k] ==> h in Delete(list, k)
    ensures forall h :: h in Delete(list, k) ==> h in list
  {
    forall h | h in list && h != list[k]
      ensures h in Delete(list, k)
    {
      var i :| 0 <= i < |list| && list[i] == h;
      assert Delete(list, k)[if i < k then i else i - 1] == h;
    }
  }

  method CloseStep(lib: Ltdl, handle: Handle, ghost rec: Record) returns (errors: nat, ghost rec': Record)
    requires Recorded(lib, rec)
    modifies lib`handles, lib`list, lib`closed, handle`refCount, lib.list
    ensures Recorded(lib, rec')
    ensures Closed(old(lib.list), old(lib.closed), rec, handle, errors, lib.list, lib.closed, rec')
  {
    ghost var before, closed, k, l := lib.list, lib.closed, 0, rec.ledger;
    errors, k, l := CloseRecorded(lib, handle, rec.ledger);
    rec' := Record(l, rec.created);
    if handle in before && handle !in lib.list {
      ConservedGone(rec.created, closed, before, k);
      OthersStay(before, k);
    }
  }

  /** The library together with the record of everything done since it was set up. */
  class Session {
    const lib: Ltdl
    ghost var record: Record

    ghost predicate Valid()
      reads this, lib, lib.list
    {
      Recorded(lib, record)
    }

    constructor (moduleClose: Handle -> nat)
      ensures Valid() && fresh(lib) && lib.list == [] && lib.closed == []
      ensures record == Record(Ledger(multiset{}, multiset{}, []), [])
    {
      lib := new Ltdl(moduleClose);
      record := Record(Ledger(multiset{}, multiset{}, []), []);
    }

    method Open(filename: FileName, loads: bool) returns (r: Handle?)
      requires filename.Some? && Valid()
      modifies this, lib, lib.list
      ensures Valid() && lib.closed == old(lib.closed)
      ensures Opened(old(lib.list), old(record), filename, loads, r, lib.list, record)
      ensures !Has(old(lib.list), filename) && loads ==> fresh(r)
    {
      ghost var rec;
      r, rec := OpenStep(lib, filename, loads, record);
      Note(rec);
    }

    method Close(handle: Handle) returns (errors: nat)
      requires Valid()
      modifies this, lib, handle`refCount, lib.list
      ensures Valid()
      ensures Closed(old(lib.list), old(lib.closed), old(record), handle, errors, lib.list, lib.closed, record)
    {
      ghost var rec;
      errors, rec := CloseStep(lib, handle, record);
      Note(rec);
    }

    ghost method Note(rec: Record)
      requires Recorded(lib, rec)
      modifies this`record
      ensures Valid() && record == rec
    {
      record := rec;
    }
  }

  // ---------------------------------------------------------------- whole runs

  /** How often file `f` is among the results of opens. */
  ghost function Successes(results: seq<Handle?>, f: FileName): nat {
    if results == [] then 0 else
    var last := results[|results| - 1];
    Successes(results[..|results| - 1], f) + if last != null && last.filename == f then 1 else 0
  }

  /** The ledger's opens are the opens that succeeded. */
  ghost predicate Tally(l: Ledger, results: seq<Handle?>) {
    forall f {:trigger l.opens[f]} :: l.opens[f] == Successes(results, f)
  }

  /** The handles created are the modules loaded, and those of the open modules are listed. */
  ghost predicate SameModules(list: seq<Handle>, created: seq<Handle>, m: Play) {
    && Shaped(m) && |created| == |m.files|
    && (forall g :: 0 <= g < |created| ==> created[g].filename == Some(m.files[g]))
    && (forall g :: 0 <= g < |created| ==> (created[g] in list <==> m.counts[g] > 0))
  }

  /** The opens have returned the handles of those modules, or NULL. */
  ghost predicate SameResults(created: seq<Handle>, results: seq<Handle?>, m: Play) {
    && Shaped(m) && |created| == |m.files| && |results| == |m.results|
    && forall j :: 0 <= j < |results| ==>
      results[j] == if m.results[j].Some? then created[m.results[j].value] else null
  }

  /** What an open module counts is what the ledger says about its file. */
  ghost predicate SameCounts(l: Ledger, m: Play) {
    && Shaped(m)
    && forall g :: 0 <= g < |m.files| && m.counts[g] > 0 ==>
      l.opens[Some(m.files[g])] == l.closes[Some(m.files[g])] + m.counts[g]
  }

  /** The list, the ledger and the results are those of play `m`. */
  ghost predicate Matches(list: seq<Handle>, rec: Record, results: seq<Handle?>, m: Play) {
    && SameModules(list, rec.created, m) && SameResults(rec.created, results, m) && SameCounts(rec.ledger, m)
    && PlayOk(m)
  }

  /** What has been done since the library was set up is what `actions` say. */
  ghost predicate Follows(s: Session, results: seq<Handle?>, actions: seq<Action>)
    reads s, s.lib, s.lib.list
  {
    && s.Valid() && Matches(s.lib.list, s.record, results, After(actions))
    && Tally(s.record.ledger, results) && ClosesMatch(s.record.ledger, actions)
  }

  /** The ledger's closes are the closes of open modules. */
  ghost predicate ClosesMatch(l: Ledger, actions: seq<Action>) {
    forall f {:trigger l.closes[Some(f)]} :: l.closes[Some(f)] == ClosesOf(actions, f)
  }

  lemma CreatedOnce(created: seq<Handle>, closed: seq<Handle>, list: seq<Handle>)
    requires Conserved(created, closed, list)
    ensures forall i :: 0 <= i < |list| ==> list[i] in created
    ensures forall i, j :: 0 <= i < j < |created| ==> created[i] != created[j]
  {
    forall i | 0 <= i < |list|
      ensures list[i] in created
    {
      assert list[i] in multiset(list);
      assert list[i] in multiset(created);
    }
    forall i, j | 0 <= i < j < |created|
      ensures created[i] != created[j]
    {
      var a, b := created[..j], created[j..];
      assert created == a + b;
      assert a[i] == created[i] && b[0] == created[j];
      assert a[i] in multiset(a) && b[0] in multiset(b);
      assert multiset(created)[a[i]] == multiset(a)[a[i]] + multiset(b)[a[i]];
    }
  }

  /** A file is listed exactly if a module of it is open. */
  lemma ListedIffInPlay(list: seq<Handle>, created: seq<Handle>, m: Play, f: string)
    requires SameModules(list, created, m) && forall i :: 0 <= i < |list| ==> list[i] in created
    ensures Has(list, Some(f)) <==> Search(m, f, |m.files|).Some?
  {
    if Has(list, Some(f)) {
      var i :| 0 <= i < |list| && list[i].filename == Some(f);
      var g :| 0 <= g < |created| && created[g] == list[i];
      assert Open(m, g, f);
    }
    if Search(m, f, |m.files|).Some? {
      var g := Search(m, f, |m.files|).value;
      var i :| 0 <= i < |list| && list[i] == created[g];
    }
  }

  /** A listed handle is that of the open module of its file. */
  lemma FoundInPlay(list: seq<Handle>, created: seq<Handle>, m: Play, f: string, r: Handle)
    requires SameModules(list, created, m) && PlayOk(m) && r in created
    requires r in list && r.filename == Some(f)
    ensures Search(m, f, |m.files|).Some? && r == created[Search(m, f, |m.files|).value]
  {
    var g :| 0 <= g < |created| && created[g] == r;
    assert Open(m, g, f);
  }

  lemma TallyOne(rec: Record, results: seq<Handle?>, list: seq<Handle>, filename: FileName, loads: bool, r: Handle?,
                 list': seq<Handle>, rec': Record)
    requires Tally(rec.ledger, results) && Opened(list, rec, filename, loads, r, list', rec')
    ensures Tally(rec'.ledger, results + [r])
  {
    assert (results + [r])[..|results|] == results;
  }

  lemma FoundMatches(list: seq<Handle>, rec: Record, name: string, loads: bool, r: Handle,
                     rec': Record, results: seq<Handle?>, m: Play)
    requires Matches(list, rec, results, m) && r in list && r in rec.created && r.filename == Some(name)
    requires rec'.created == rec.created
    requires rec'.ledger.opens == rec.ledger.opens + multiset{Some(name)} && rec'.ledger.closes == rec.ledger.closes
    ensures Matches(list, rec', results + [r], Step(m, OpenFile(name, loads)))
  {
    FoundInPlay(list, rec.created, m, name, r);
    StepKeepsOk(m, OpenFile(name, loads));
    OpenAlone(m);
  }

  lemma NewMatches(list: seq<Handle>, rec: Record, name: string, r: Handle, rec': Record, results: seq<Handle?>,
                   m: Play)
    requires Matches(list, rec, results, m) && r !in rec.created && r.filename == Some(name)
    requires Search(m, name, |m.files|).None? && Balanced(list, rec.ledger) && !Has(list, Some(name))
    requires rec'.created == rec.created + [r]
    requires rec'.ledger.opens == rec.ledger.opens + multiset{Some(name)} && rec'.ledger.closes == rec.ledger.closes
    ensures Matches([r] + list, rec', results + [r], Step(m, OpenFile(name, true)))
  {
    StepKeepsOk(m, OpenFile(name, true));
    NoneOpen(m, name);
  }

  lemma NotCreated(created: seq<Handle>, r: Handle, closed: seq<Handle>, list: seq<Handle>)
    requires Conserved(created + [r], closed, list)
    ensures r !in created
  {
    assert (created + [r])[|created|] == r;
    assert multiset(created + [r])[r] == multiset(created)[r] + 1;
  }

  lemma FailedMatches(list: seq<Handle>, rec: Record, name: string, rec': Record, results: seq<Handle?>, m: Play)
    requires Matches(list, rec, results, m) && Search(m, name, |m.files|).None?
    requires rec'.created == rec.created && rec'.ledger.opens == rec.ledger.opens
    requires rec'.ledger.closes == rec.ledger.closes
    ensures Matches(list, rec', results + [null], Step(m, OpenFile(name, false)))
  {
    StepKeepsOk(m, OpenFile(name, false));
  }

  /** An open does what the play says. */
  lemma OpenMatches(list: seq<Handle>, rec: Record, closed: seq<Handle>, name: string, loads: bool, r: Handle?,
                    list': seq<Handle>, rec': Record, results: seq<Handle?>, m: Play)
    requires Opened(list, rec, Some(name), loads, r, list', rec') && Balanced(list, rec.ledger)
    requires Conserved(rec.created, closed, list) && Conserved(rec'.created, closed, list')
    requires Matches(list, rec, results, m)
    ensures Matches(list', rec', results + [r], Step(m, OpenFile(name, loads)))
  {
    assert Has(list, Some(name)) <==> Search(m, name, |m.files|).Some? by {
      CreatedOnce(rec.created, closed, list);
      ListedIffInPlay(list, rec.created, m, name);
    }
    if Has(list, Some(name)) {
      assert r in rec.created by {
        CreatedOnce(rec.created, closed, list);
      }
      FoundMatches(list, rec, name, loads, r, rec', results, m);
    } else if loads {
      NotCreated(rec.created, r, closed, list');
      NewMatches(list, rec, name, r, rec', results, m);
    } else {
      FailedMatches(list, rec, name, rec', results, m);
    }
  }

  /** The ledger's closes after closing the result of open number `j`. */
  ghost function ClosesAfter(l: Ledger, m: Play, j: nat): multiset<FileName>
    requires Shaped(m)
  {
    match Closes(m, j)
    case None => l.closes
    case Some(g) => l.closes + multiset{Some(m.files[g])}
  }

  ghost function ClosesBy(l: Ledger, m: Play, a: Action): multiset<FileName>
    requires Shaped(m)
  {
    if a.CloseResult? then ClosesAfter(l, m, a.open) else l.closes
  }

  lemma CloseMatches(list: seq<Handle>, rec: Record, closed: seq<Handle>, j: nat, handle: Handle, errors: nat,
                     list': seq<Handle>, closed': seq<Handle>, rec': Record, results: seq<Handle?>, m: Play)
    requires j < |results| && results[j] == handle
    requires Closed(list, closed, rec, handle, errors, list', closed', rec')
    requires Conserved(rec.created, closed, list)
    requires Matches(list, rec, results, m)
    ensures Matches(list', rec', results, Step(m, CloseResult(j)))
    ensures rec'.ledger.opens == rec.ledger.opens && rec'.ledger.closes == ClosesAfter(rec.ledger, m, j)
    ensures forall i :: 0 <= i < |list'| ==> list'[i] in list
  {
    CreatedOnce(rec.created, closed, list);
    StepKeepsOk(m, CloseResult(j));
    OpenAlone(m);
  }

  method CloseNamed(s: Session, j: nat, handle: Handle, ghost results: seq<Handle?>, ghost m: Play)
    requires j < |results| && results[j] == handle
    requires s.Valid() && Matches(s.lib.list, s.record, results, m)
    modifies s, s.lib, handle`refCount, s.lib.list
    ensures s.Valid() && Matches(s.lib.list, s.record, results, Step(m, CloseResult(j)))
    ensures s.record.ledger.opens == old(s.record).ledger.opens
    ensures s.record.ledger.closes == ClosesAfter(old(s.record).ledger, m, j)
    ensures forall i :: 0 <= i < |s.lib.list| ==> s.lib.list[i] in old(s.lib.list)
  {
    ghost var rec, list, closed := s.record, s.lib.list, s.lib.closed;
    var errors := s.Close(handle);
    CloseMatches(list, rec, closed, j, handle, errors, s.lib.list, s.lib.closed, s.record, results, m);
  }

  /** Everything listed or returned is among `mine`. */
  ghost predicate Within(list: seq<Handle>, results: seq<Handle?>, mine: set<Handle>) {
    && (forall j :: 0 <= j < |list| ==> list[j] in mine)
    && forall j :: 0 <= j < |results| ==> results[j] == null || results[j] in mine
  }

  /** An open returns, and lists, nothing but what was listed and the handle it has created. */
  lemma NothingElse(list: seq<Handle>, rec: Record, filename: FileName, loads: bool, r: Handle?, list': seq<Handle>,
                    rec': Record, results: seq<Handle?>, mine: set<Handle>, isNew: bool)
    requires Opened(list, rec, filename, loads, r, list', rec') && Within(list, results, mine)
    requires isNew == (!Has(list, filename) && loads)
    ensures isNew ==> r != null
    ensures Within(list', results + [r], if isNew then mine + {r} else mine)
  {
  }

  method OpenWithin(s: Session, filename: FileName, loads: bool, ghost results: seq<Handle?>, ghost mine: set<Handle>)
    returns (r: Handle?, ghost mine': set<Handle>)
    requires filename.Some? && s.Valid() && Within(s.lib.list, results, mine)
    modifies s, s.lib, mine
    ensures s.Valid() && Opened(old(s.lib.list), old(s.record), filename, loads, r, s.lib.list, s.record)
    ensures s.lib.closed == old(s.lib.closed)
    ensures Within(s.lib.list, results + [r], mine') && mine <= mine' && fresh(mine' - mine)
  {
    ghost var list, rec, isNew := s.lib.list, s.record, !Has(s.lib.list, filename) && loads;
    r := s.Open(filename, loads);
    NothingElse(list, rec, filename, loads, r, s.lib.list, s.record, results, mine, isNew);
    mine' := if isNew then mine + {r} else mine;
  }

  method PerformOpen(s: Session, name: string, loads: bool, results: seq<Handle?>, ghost m: Play,
                     ghost mine: set<Handle>)
    returns (results': seq<Handle?>, ghost mine': set<Handle>)
    requires s.Valid() && Matches(s.lib.list, s.record, results, m) && Tally(s.record.ledger, results)
    requires Within(s.lib.list, results, mine)
    modifies s, s.lib, mine
    ensures s.Valid() && Matches(s.lib.list, s.record, results', Step(m, OpenFile(name, loads)))
    ensures Tally(s.record.ledger, results') && s.record.ledger.closes == old(s.record).ledger.closes
    ensures Within(s.lib.list, results', mine') && mine <= mine' && fresh(mine' - mine)
  {
    ghost var rec, list, closed := s.record, s.lib.list, s.lib.closed;
    var r, all := OpenWithin(s, Some(name), loads, results, mine);
    results', mine' := results + [r], all;
    OpenMatches(list, rec, closed, name, loads, r, s.lib.list, s.record, results, m);
    TallyOne(rec, results, list, Some(name), loads, r, s.lib.list, s.record);
  }

  method PerformClose(s: Session, j: nat, results: seq<Handle?>, ghost m: Play, ghost mine: set<Handle>)
    requires s.Valid() && Matches(s.lib.list, s.record, results, m) && Tally(s.record.ledger, results)
    requires Within(s.lib.list, results, mine)
    modifies s, s.lib, mine
    ensures s.Valid() && Matches(s.lib.list, s.record, results, Step(m, CloseResult(j)))
    ensures Tally(s.record.ledger, results) && s.record.ledger.closes == ClosesAfter(old(s.record).ledger, m, j)
    ensures Within(s.lib.list, results, mine)
  {
    if j < |results| {
      var handle := results[j];
      if handle != null {
        CloseNamed(s, j, handle, results, m);
      }
    }
  }

  lemma ClosesMatchOneMore(l: Ledger, l': Ledger, actions: seq<Action>, a: Action)
    requires ClosesMatch(l, actions)
    requires l'.closes == ClosesBy(l, After(actions), a)
    ensures ClosesMatch(l', actions + [a])
  {
    forall f
      ensures l'.closes[Some(f)] == ClosesOf(actions + [a], f)
    {
      ClosesOneMore(actions, a, f);
    }
  }

  method PerformAction(s: Session, action: Action, results: seq<Handle?>, ghost m: Play, ghost mine: set<Handle>)
    returns (results': seq<Handle?>, ghost mine': set<Handle>)
    requires s.Valid() && Matches(s.lib.list, s.record, results, m) && Tally(s.record.ledger, results)
    requires Within(s.lib.list, results, mine)
    modifies s, s.lib, mine
    ensures s.Valid() && Matches(s.lib.list, s.record, results', Step(m, action)) && Tally(s.record.ledger, results')
    ensures s.record.ledger.closes == ClosesBy(old(s.record).ledger, m, action)
    ensures Within(s.lib.list, results', mine') && mine <= mine' && fresh(mine' - mine)
  {
    match action
    case OpenFile(name, loads) =>
      results', mine' := PerformOpen(s, name, loads, results, m, mine);
    case CloseResult(j) =>
      PerformClose(s, j, results, m, mine);
      results', mine' := results, mine;
  }

  /** One action does what the play says. */
  method Perform(s: Session, actions: seq<Action>, i: nat, results: seq<Handle?>, ghost mine: set<Handle>)
    returns (results': seq<Handle?>, ghost mine': set<Handle>)
    requires i < |actions| && Follows(s, results, actions[..i]) && Within(s.lib.list, results, mine)
    modifies s, s.lib, mine
    ensures Follows(s, results', actions[..i + 1])
    ensures Within(s.lib.list, results', mine') && mine <= mine' && fresh(mine' - mine)
  {
    ghost var before, ledger := actions[..i], s.record.ledger;
    assert actions[..i + 1] == before + [actions[i]];
    AfterOneMore(before, actions[i]);
    results', mine' := PerformAction(s, actions[i], results, After(before), mine);
    ClosesMatchOneMore(ledger, s.record.ledger, before, actions[i]);
  }

  method Start(moduleClose: Handle -> nat) returns (s: Session)
    ensures fresh(s) && fresh(s.lib) && s.lib.list == [] && Follows(s, [], [])
  {
    s := new Session(moduleClose);
  }

  /** Over any run the library does what the play of these actions says: it lists the handles of the open modules,
      the opens return the handles that they should, and the ledger counts the opens that succeeded and the closes
      of open modules.  Every module that has been loaded is closed exactly once or is still listed, and a file is
      listed exactly as long as its closes have not caught up with its opens. */
  method Run(moduleClose: Handle -> nat, actions: seq<Action>) returns (s: Session, results: seq<Handle?>)
    ensures fresh(s) && Follows(s, results, actions)
    ensures forall f :: Has(s.lib.list, f) <==> s.record.ledger.opens[f] > s.record.ledger.closes[f]
  {
    s := Start(moduleClose);
    results := [];
    var i := 0;
    ghost var mine: set<Handle> := {};
    while i < |actions|
      invariant i <= |actions| && fresh(s) && fresh(s.lib) && fresh(mine)
      invariant Follows(s, results, actions[..i]) && Within(s.lib.list, results, mine)
    {
      results, mine := Perform(s, actions, i, results, mine);
      i := i + 1;
    }
    assert actions[..i] == actions;
    ListedAsOpened(s);
  }

  lemma ListedAsOpened(s: Session)
    requires s.Valid()
    ensures forall f :: Has(s.lib.list, f) <==> s.record.ledger.opens[f] > s.record.ledger.closes[f]
  {
    forall f ensures Has(s.lib.list, f) <==> s.record.ledger.opens[f] > s.record.ledger.closes[f] {
      ListedIffOpen(s.lib.list, s.record.ledger, f);
    }
  }

  /** Each open of a run has one result: the handle of a module of the file that it names, or NULL, which it is
      exactly if no module of that file was open at that moment and none could be loaded. */
  lemma OpenResults(s: Session, results: seq<Handle?>, actions: seq<Action>, n: nat)
    requires Follows(s, results, actions) && n < |actions| && actions[n].OpenFile?
    ensures |results| == OpensIn(actions)
    ensures var m, j := After(actions[..n]), OpensIn(actions[..n]);
      && j < |results|
      && (results[j] == null <==> !actions[n].loads && !IsOpen(m, actions[n].name))
      && (results[j] != null ==> results[j].filename == Some(actions[n].name))
  {
    OneResultPerOpen(actions);
    ResultOfOpen(actions, n);
  }

  lemma ListedIffOpenIn(list: seq<Handle>, created: seq<Handle>, closed: seq<Handle>, m: Play, f: string)
    requires SameModules(list, created, m) && Conserved(created, closed, list)
    ensures Has(list, Some(f)) <==> IsOpen(m, f)
  {
    CreatedOnce(created, closed, list);
    ListedIffInPlay(list, created, m, f);
    SearchFinds(m, f);
  }

  /** At any moment of a run a file is listed exactly if a module of it is open. */
  lemma ListedInRun(s: Session, results: seq<Handle?>, actions: seq<Action>, f: string)
    requires Follows(s, results, actions)
    ensures Has(s.lib.list, Some(f)) <==> IsOpen(After(actions), f)
  {
    ListedIffOpenIn(s.lib.list, s.record.created, s.lib.closed, After(actions), f);
  }

  lemma FirstIsMember(list: seq<Handle>)
    ensures list == [] || list[0] in list
  {
  }

  lemma EmptyIfAllClosed(list: seq<Handle>, created: seq<Handle>, closed: seq<Handle>, m: Play)
    requires SameModules(list, created, m) && Conserved(created, closed, list)
    requires forall g :: 0 <= g < |m.files| ==> m.counts[g] == 0
    ensures list == [] && multiset(closed) == multiset(created)
    ensures forall h :: h in created ==> multiset(closed)[h] == 1
  {
    CreatedOnce(created, closed, list);
    FirstIsMember(list);
    assert forall h :: h in created ==> h !in list;
  }

  /** If a program closes the result of each open that has succeeded, once and after that open, the list ends
      empty and every module that has been loaded has been closed exactly once. */
  lemma NothingLeft(s: Session, results: seq<Handle?>, actions: seq<Action>)
    requires Follows(s, results, actions) && Disciplined(actions)
    requires forall j :: 0 <= j < |results| && results[j] != null ==> CloseResult(j) in actions
    ensures s.lib.list == [] && multiset(s.lib.closed) == multiset(s.record.created)
    ensures forall h :: h in s.record.created ==> multiset(s.lib.closed)[h] == 1
  {
    AllClosed(actions);
    EmptyIfAllClosed(s.lib.list, s.record.created, s.lib.closed, After(actions));
  }
}
