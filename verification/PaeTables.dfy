/** Page tables of physical address extension that are laid out for a mapping: the walks find exactly that
    mapping. */
module PaeTables {
  import opened Arithmetic
  import opened Machine
  import PageMap
  import PaeWalk

  /** What an entry stands for: nothing, a page, or a table of 512 entries of the level below. */
  datatype Tree = Hole | Page(frame: nat) | Table(at: nat, entries: seq<Tree>)

  /** What one entry of a table covers: 4 KB, and 512 times as much at each level. */
  function Span(level: nat): (r: nat)
    ensures r >= 1
  {
    if level == 0 then 0x1000 else 512 * Span(level - 1)
  }

  /** An entry that is present holds, in bits 12 to 51, the number of a page of 4 KB, below it twelve flags, and
      above it twelve more. */
  ghost predicate Holds(word: nat, page: nat, flags: nat, upper: nat) {
    && page < 0x100_0000_0000 && flags < 0x1000 && upper < 0x1000
    && flags % 2 == 1 && word == upper * 0x10_0000_0000_0000 + page * 0x1000 + flags
  }

  ghost predicate PointsTo(word: nat, frame: nat) {
    exists page: nat, flags: nat, upper: nat :: Holds(word, page, flags, upper) && frame == page * 0x1000
  }

  /** An entry for a large page has bit 7 set, and a flag in bit 12 too. */
  ghost predicate HoldsLarge(word: nat, pages: nat, flags: nat, upper: nat) {
    && pages < 0x80_0000_0000 && flags < 0x2000 && upper < 0x1000
    && flags % 2 == 1 && flags / 0x80 % 2 == 1 && word == upper * 0x10_0000_0000_0000 + pages * 0x2000 + flags
  }

  ghost predicate PointsToLarge(word: nat, frame: nat) {
    exists pages: nat, flags: nat, upper: nat :: HoldsLarge(word, pages, flags, upper) && frame == pages * 0x2000
  }

  /** An entry at `level` maps a page: 4 KB, 2 MB, or 1 GB if the processor has pages of that size. */
  ghost predicate EncodesPage(m: PaeWalk.Paging, word: nat, frame: nat, level: nat) {
    && !m.reserved(word)
    && if level == 0 then PointsTo(word, frame)
       else (level == 1 || (level == 2 && m.hugePages)) && Rest(frame, Span(level)) == 0 && PointsToLarge(word, frame)
  }

  /** An entry above the lowest level has bit 7 set, but there are no pages of that size, or its address is not
      aligned to the size. */
  ghost predicate Malformed(m: PaeWalk.Paging, word: nat, level: nat) {
    exists frame: nat :: PointsToLarge(word, frame)
      && (level > 2 || (level == 2 && !m.hugePages) || Rest(frame, Span(level)) != 0)
  }

  ghost predicate LeadsTo(word: nat, at: nat) {
    PointsTo(word, at) && word / 0x80 % 2 == 0
  }

  /** An entry at `level` is laid out for `t`; an entry that is absent, has reserved bits set or is malformed stands
      for nothing. */
  ghost predicate EncodesEntry(m: PaeWalk.Paging, word: nat, t: Tree, level: nat)
    decreases level, 1
  {
    match t
    case Hole => word % 2 == 0 || m.reserved(word) || (level > 0 && Malformed(m, word, level))
    case Page(frame) => EncodesPage(m, word, frame, level)
    case Table(at, entries) =>
      level > 0 && !m.reserved(word) && LeadsTo(word, at) && Encodes(m, at, entries, level - 1)
  }

  /** The 512 entries of the table at `at`, each of 8 bytes, are laid out for `entries`. */
  ghost predicate Encodes(m: PaeWalk.Paging, at: nat, entries: seq<Tree>, level: nat)
    decreases level, 2
  {
    |entries| == 512 && forall n :: 0 <= n < 512 ==> EncodesEntry(m, m.read(at + 8 * n) % TWO_64, entries[n], level)
  }

  /** Where `t`, an entry at `level`, maps byte `offset` of what it covers. */
  function Mapped(t: Tree, level: nat, offset: nat): Option<nat>
    decreases level, 1
  {
    match t
    case Hole => None
    case Page(frame) => Some(frame + offset)
    case Table(_, entries) => if level == 0 then None else MappedIn(entries, level - 1, offset)
  }

  function MappedIn(entries: seq<Tree>, level: nat, offset: nat): Option<nat>
    decreases level, 2
  {
    var n := Quotient(offset, Span(level));
    if n < |entries| then Mapped(entries[n], level, Rest(offset, Span(level))) else None
  }

  function Quotient(x: nat, unit: nat): nat
    requires unit >= 1
  {
    x / unit
  }

  function Rest(x: nat, unit: nat): nat
    requires unit >= 1
  {
    x % unit
  }

  // ---------------------------------------------------------------- entries

  lemma SpanIsUnit(level: nat)
    requires level <= 3
    ensures Span(level) == PaeWalk.Unit(level)
  {
    assert Span(0) == 0x1000;
    assert Span(1) == 512 * Span(0);
    assert Span(2) == 512 * Span(1);
    assert Span(3) == 512 * Span(2);
  }

  lemma FlagBits(n: nat, flags: nat, word: nat)
    requires word == n * 0x1000 + flags && flags < 0x2000
    ensures word % 2 == flags % 2 && word / 0x80 % 2 == flags / 0x80 % 2
  {
    EvenMultiple(n * 0x800, flags);
    assert word / 0x80 == n * 0x20 + flags / 0x80;
    EvenMultiple(n * 0x10, flags / 0x80);
  }

  /** An entry with an address. */
  ghost predicate ReadsAs(word: nat, frame: nat) {
    PageMap.Present(word) && PaeWalk.Frame(word) == frame
  }

  lemma FrameHeld(word: nat, page: nat, flags: nat, upper: nat)
    requires Holds(word, page, flags, upper)
    ensures PaeWalk.Frame(word) == page * 0x1000
  {
    Parts(word, 0x1000, upper * 0x100_0000_0000 + page, flags);
    Parts(upper * 0x100_0000_0000 + page, 0x100_0000_0000, upper, page);
  }

  lemma AddressHeld(word: nat, frame: nat)
    requires PointsTo(word, frame)
    ensures ReadsAs(word, frame)
  {
    var page: nat, flags: nat, upper: nat :| Holds(word, page, flags, upper) && frame == page * 0x1000;
    EvenMultiple(upper * 0x8_0000_0000_0000 + page * 0x800, flags);
    FrameHeld(word, page, flags, upper);
  }

  /** An entry with the address of a large page. */
  ghost predicate ReadsAsLarge(word: nat, frame: nat) {
    PageMap.Present(word) && PageMap.SizeBit(word) && PaeWalk.LargeFrame(word) == frame
  }

  lemma LargeFrameHeld(word: nat, pages: nat, flags: nat, upper: nat)
    requires HoldsLarge(word, pages, flags, upper)
    ensures PaeWalk.LargeFrame(word) == pages * 0x2000
  {
    Parts(word, 0x2000, upper * 0x80_0000_0000 + pages, flags);
    Parts(upper * 0x80_0000_0000 + pages, 0x80_0000_0000, upper, pages);
  }

  lemma LargeHeld(word: nat, frame: nat)
    requires PointsToLarge(word, frame)
    ensures ReadsAsLarge(word, frame)
  {
    var pages: nat, flags: nat, upper: nat :| HoldsLarge(word, pages, flags, upper) && frame == pages * 0x2000;
    FlagBits(upper * 0x100_0000_0000 + pages * 2, flags, word);
    LargeFrameHeld(word, pages, flags, upper);
  }

  // ---------------------------------------------------------------- walks

  lemma SplitIn(q: nat, below: nat, r: nat, s: nat, h: nat, n: nat)
    requires q == h * 512 + n && n < 512 && r < below && s == 512 * below
    ensures q * below + r == h * s + (n * below + r) && n * below + r < s
  {
    Distributes(below, h * 512, n);
    assert h * 512 * below == h * s;
    MultiplesApart(n, 511, below);
  }

  /** The part of an address below a unit of 512 lower units, and its digits. */
  lemma Digits(lin: nat, below: nat, s: nat)
    requires below >= 1 && s == 512 * below
    ensures lin % s / below == lin / below % 512 && lin % s % below == lin % below
  {
    var q, r := lin / below, lin % below;
    DivMod(lin, below);
    SplitIn(q, below, r, s, q / 512, q % 512);
    Parts(lin, s, q / 512, q % 512 * below + r);
    Parts(q % 512 * below + r, below, q % 512, r);
  }

  lemma DownAndRest(lin: nat, level: nat)
    ensures PaeWalk.Down(lin, level) <= lin && lin - PaeWalk.Down(lin, level) == lin % PaeWalk.Unit(level)
  {
  }

  lemma TargetIs(m: PaeWalk.Paging, word: nat, frame: nat, level: nat)
    requires level <= 3 && !m.reserved(word)
    requires if level == 0 then ReadsAs(word, frame) else ReadsAsLarge(word, frame)
    ensures !PaeWalk.LeadsOn(m, word, level)
    ensures PaeWalk.Target(m, word, level)
         == if level == 0 || ((level == 1 || (level == 2 && m.hugePages)) && Rest(frame, Span(level)) == 0)
            then Some(frame) else None
  {
    SpanIsUnit(level);
  }

  lemma PageFound(m: PaeWalk.Paging, word: nat, frame: nat, level: nat)
    requires level <= 3 && EncodesPage(m, word, frame, level)
    ensures !PaeWalk.LeadsOn(m, word, level) && PaeWalk.Target(m, word, level) == Some(frame)
  {
    if level == 0 {
      AddressHeld(word, frame);
    } else {
      LargeHeld(word, frame);
    }
    TargetIs(m, word, frame, level);
  }

  lemma NothingFound(m: PaeWalk.Paging, word: nat, level: nat)
    requires level <= 3 && EncodesEntry(m, word, Hole, level)
    ensures !PaeWalk.LeadsOn(m, word, level) && PaeWalk.Target(m, word, level) == None
  {
    if word % 2 != 0 && !m.reserved(word) {
      var frame: nat :| PointsToLarge(word, frame)
        && (level > 2 || (level == 2 && !m.hugePages) || Rest(frame, Span(level)) != 0);
      LargeHeld(word, frame);
      TargetIs(m, word, frame, level);
    }
  }

  lemma TableFound(m: PaeWalk.Paging, word: nat, at: nat, level: nat)
    requires 0 < level <= 3 && LeadsTo(word, at) && !m.reserved(word)
    ensures PaeWalk.LeadsOn(m, word, level) && PaeWalk.Frame(word) == at
  {
    AddressHeld(word, at);
  }

  lemma LeafMapped(t: Tree, level: nat, lin: nat, rest: nat)
    requires !t.Table? && rest == lin % PaeWalk.Unit(level)
    ensures var p := PaeWalk.Leaf(lin, level, if t.Page? then Some(t.frame) else None);
      p.start <= lin && PageMap.MappedBy(p, lin) == Mapped(t, level, rest)
  {
    DownAndRest(lin, level);
  }

  /** An entry at which the walk ends. */
  lemma LeafRoundTrip(m: PaeWalk.Paging, word: nat, t: Tree, level: nat, lin: nat, rest: nat)
    requires level <= 3 && !t.Table? && EncodesEntry(m, word, t, level) && rest == lin % PaeWalk.Unit(level)
    ensures !PaeWalk.LeadsOn(m, word, level)
    ensures var p := PaeWalk.Leaf(lin, level, PaeWalk.Target(m, word, level));
      p.start <= lin && PageMap.MappedBy(p, lin) == Mapped(t, level, rest)
  {
    LeafMapped(t, level, lin, rest);
    if t.Page? {
      PageFound(m, word, t.frame, level);
    } else {
      NothingFound(m, word, level);
    }
  }

  /** An entry of the table below. */
  lemma MappedBelow(t: Tree, level: nat, rest: nat, n: nat, rest': nat)
    requires t.Table? && |t.entries| == 512 && level > 0
    requires n == Quotient(rest, Span(level - 1)) < 512 && rest' == Rest(rest, Span(level - 1))
    ensures Mapped(t, level, rest) == Mapped(t.entries[n], level - 1, rest')
  {
  }

  /** From any table laid out for `entries`, the walk finds what they map. */
  lemma {:induction false} FindRoundTrip(
    m: PaeWalk.Paging, table: nat, entries: seq<Tree>, level: nat, lin: nat, p: PageMap.Page, n: nat, rest: nat)
    requires level <= 3 && Encodes(m, table, entries, level) && p == PaeWalk.Find(m, table, level, lin)
    requires n == PaeWalk.Index(lin, level) && rest == lin % PaeWalk.Unit(level)
    ensures p.start <= lin && PageMap.MappedBy(p, lin) == Mapped(entries[n], level, rest)
    decreases level
  {
    var word, t := PaeWalk.EntryAt(m, table, n), entries[n];
    assert EncodesEntry(m, word, t, level);
    if t.Table? {
      TableFound(m, word, t.at, level);
      NextTable(m, t, level, lin, p, rest);
    } else {
      LeafRoundTrip(m, word, t, level, lin, rest);
    }
  }

  lemma {:induction false} NextTable(
    m: PaeWalk.Paging, t: Tree, level: nat, lin: nat, p: PageMap.Page, rest: nat)
    requires 0 < level <= 3 && t.Table? && Encodes(m, t.at, t.entries, level - 1)
    requires p == PaeWalk.Find(m, t.at, level - 1, lin) && rest == lin % PaeWalk.Unit(level)
    ensures p.start <= lin && PageMap.MappedBy(p, lin) == Mapped(t, level, rest)
    decreases level, 0
  {
    var below := PaeWalk.Unit(level - 1);
    var n, rest' := PaeWalk.Index(lin, level - 1), lin % below;
    SpanIsUnit(level - 1);
    Digits(lin, below, PaeWalk.Unit(level));
    FindRoundTrip(m, t.at, t.entries, level - 1, lin, p, n, rest');
    MappedBelow(t, level, rest, n, rest');
  }

  /** All of the 32-bit space lies in the first entry of the top table. */
  lemma FirstEntry(lin: nat, top: nat)
    requires lin < TWO_32 && top == 3
    ensures PaeWalk.Index(lin, top) == 0 == lin / PaeWalk.Unit(top) && lin % PaeWalk.Unit(top) == lin
  {
  }

  /** The control register holds the number of the page of the top table, and twelve more bits. */
  ghost predicate HoldsTop(cr3: nat, page: nat, flags: nat) {
    page < 0x100_0000_0000 && flags < 0x1000 && cr3 == page * 0x1000 + flags
  }

  ghost predicate TopTable(cr3: nat, table: nat) {
    exists page: nat, flags: nat :: HoldsTop(cr3, page, flags) && table == page * 0x1000
  }

  lemma TopTableHeld(cr3: nat, table: nat)
    requires TopTable(cr3, table)
    ensures PaeWalk.Frame(cr3) == table
  {
    var page: nat, flags: nat :| HoldsTop(cr3, page, flags) && table == page * 0x1000;
    Parts(cr3, 0x1000, page, flags);
    Parts(page, 0x100_0000_0000, 0, page);
  }

  lemma TopFound(m: PaeWalk.Paging, table: nat, entries: seq<Tree>, top: nat, lin: nat, p: PageMap.Page)
    requires top + 1 == PaeWalk.LONG_LEVELS && lin < TWO_32
    requires Encodes(m, table, entries, top) && p == PaeWalk.Find(m, table, top, lin)
    ensures p.start <= lin && PageMap.MappedBy(p, lin) == MappedIn(entries, top, lin)
  {
    SpanIsUnit(top);
    FirstEntry(lin, top);
    FindRoundTrip(m, table, entries, top, lin, p, 0, lin);
  }

  /** The four-level walk finds the mapping that the tables are laid out for, at every address. */
  lemma LongModeRoundTrip(
    m: PaeWalk.Paging, cr3: nat, table: nat, entries: seq<Tree>, top: nat, lin: nat, p: PageMap.Page)
    requires p == PaeWalk.LongModePage(m, cr3, lin) && TopTable(cr3, table) && lin < TWO_32
    requires top + 1 == PaeWalk.LONG_LEVELS && Encodes(m, table, entries, top)
    ensures PaeWalk.LONG_LEVELS == 4
    ensures p.start <= lin && PageMap.MappedBy(p, lin) == MappedIn(entries, top, lin)
  {
    TopTableHeld(cr3, table);
    TopFound(m, table, entries, top, lin, p);
  }

  /** One of the four directory pointers: it has no large page, and its bit 7 does not count. */
  ghost predicate EncodesPointer(m: PaeWalk.Paging, word: nat, t: Tree, below: nat) {
    match t
    case Hole => word % 2 == 0
    case Page(_) => false
    case Table(at, entries) => PointsTo(word, at) && Encodes(m, at, entries, below)
  }

  ghost predicate EncodesPointers(m: PaeWalk.Paging, pointers: nat -> nat, space: seq<Tree>, below: nat) {
    |space| == 4 && forall d :: 0 <= d < 4 ==> EncodesPointer(m, pointers(d) % TWO_64, space[d], below)
  }

  lemma FourPointers(lin: nat, top: nat)
    requires top == 2 && lin < TWO_32
    ensures lin / PaeWalk.Unit(top) < 4 && lin / PaeWalk.Unit(top) % 4 == lin / PaeWalk.Unit(top)
  {
  }

  lemma PointerRoundTrip(
    m: PaeWalk.Paging, pointers: nat -> nat, t: Tree, top: nat, lin: nat, rest: nat, word: nat, p: PageMap.Page)
    requires top == PaeWalk.LEGACY_LEVELS && word == PaeWalk.PointerFor(pointers, lin)
    requires EncodesPointer(m, word, t, top - 1) && rest == lin % PaeWalk.Unit(top)
    requires p == PaeWalk.LegacyPaePage(m, pointers, lin)
    ensures p.start <= lin && PageMap.MappedBy(p, lin) == Mapped(t, top, rest)
  {
    if t.Table? {
      AddressHeld(word, t.at);
      NextTable(m, t, top, lin, p, rest);
    } else {
      LeafMapped(t, top, lin, rest);
    }
  }

  /** The walk of legacy mode finds the mapping that the tables are laid out for, at every address. */
  lemma LegacyPaeRoundTrip(
    m: PaeWalk.Paging, pointers: nat -> nat, space: seq<Tree>, top: nat, lin: nat, p: PageMap.Page)
    requires p == PaeWalk.LegacyPaePage(m, pointers, lin) && lin < TWO_32
    requires top == PaeWalk.LEGACY_LEVELS && EncodesPointers(m, pointers, space, top - 1)
    ensures PaeWalk.LEGACY_LEVELS == 2
    ensures p.start <= lin && PageMap.MappedBy(p, lin) == MappedIn(space, top, lin)
  {
    SpanIsUnit(top);
    FourPointers(lin, top);
    var d, rest := lin / PaeWalk.Unit(top), lin % PaeWalk.Unit(top);
    PointerRoundTrip(m, pointers, space[d], top, lin, rest, pointers(d) % TWO_64, p);
  }

  /** What is printed in compatibility mode, for tables laid out for a mapping, reads back to that mapping. */
  method DumpLongMode(m: PaeWalk.Paging, cr3: nat, ghost table: nat, ghost entries: seq<Tree>, ghost top: nat)
    returns (out: seq<PageMap.Interval>)
    requires TopTable(cr3, table) && top + 1 == PaeWalk.LONG_LEVELS && Encodes(m, table, entries, top)
    ensures forall lin: nat :: lin < TWO_32 ==> PageMap.Lookup(out, lin) == MappedIn(entries, top, lin)
  {
    var w := (lin: nat) => PaeWalk.LongModePage(m, cr3, lin);
    PaeWalk.LongModeWalkPaged(m, cr3);
    out := PageMap.DumpTable(w);
    forall lin: nat | lin < TWO_32
      ensures PageMap.Lookup(out, lin) == MappedIn(entries, top, lin)
    {
      LongModeRoundTrip(m, cr3, table, entries, top, lin, w(lin));
    }
  }

  /** And so it does in legacy mode. */
  method DumpLegacyPae(m: PaeWalk.Paging, pointers: nat -> nat, ghost space: seq<Tree>, ghost top: nat)
    returns (out: seq<PageMap.Interval>)
    requires top == PaeWalk.LEGACY_LEVELS && EncodesPointers(m, pointers, space, top - 1)
    ensures forall lin: nat :: lin < TWO_32 ==> PageMap.Lookup(out, lin) == MappedIn(space, top, lin)
  {
    var w := (lin: nat) => PaeWalk.LegacyPaePage(m, pointers, lin);
    PaeWalk.LegacyPaeWalkPaged(m, pointers);
    out := PageMap.DumpTable(w);
    forall lin: nat | lin < TWO_32
      ensures PageMap.Lookup(out, lin) == MappedIn(space, top, lin)
    {
      LegacyPaeRoundTrip(m, pointers, space, top, lin, w(lin));
    }
  }
}
