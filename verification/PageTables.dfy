/** Page tables that are laid out for a mapping: the page walks find exactly that mapping. */
module PageTables {
  import opened Arithmetic
  import opened Machine
  import PageMap

  // ---------------------------------------------------------------- two levels

  /** What one of the 1024 entries of a page directory stands for: nothing, a page of 4 MB, or a table of 1024
      pages of 4 KB. */
  datatype Directory = Hole | Large(frame: nat) | Table(at: nat, pages: seq<Option<nat>>)

  /** Bit 0 of an entry says that it is present. */
  predicate Absent(word: nat) { word % 2 == 0 }

  /** An entry that is present holds the number of a page of 4 KB and twelve flags. */
  ghost predicate Holds(word: nat, page: nat, flags: nat) {
    page < 0x10_0000 && flags < 0x1000 && flags % 2 == 1 && word == page * 0x1000 + flags
  }

  /** An entry for 4 MB: the low ten bits of the number of the page of 4 MB are on top, nine more go to bits 13 to
      21; bit 7 is set. */
  ghost predicate HoldsLarge(word: nat, low: nat, high: nat, flags: nat) {
    && low < 0x400 && high < 0x200 && flags < 0x2000
    && flags % 2 == 1 && flags / 0x80 % 2 == 1 && word == low * 0x40_0000 + high * 0x2000 + flags
  }

  ghost predicate EncodesPage(word: nat, page: Option<nat>) {
    match page
    case None => Absent(word)
    case Some(frame) => PointsTo(word, frame)
  }

  ghost predicate PointsTo(word: nat, frame: nat) {
    exists page: nat, flags: nat :: Holds(word, page, flags) && frame == page * 0x1000
  }

  ghost predicate EncodesLarge(word: nat, frame: nat) {
    exists low: nat, high: nat, flags: nat ::
      HoldsLarge(word, low, high, flags) && frame == high * TWO_32 + low * 0x40_0000
  }

  /** An entry for a table; bit 7 is clear if pages of 4 MB are enabled. */
  ghost predicate EncodesTable(read: nat -> nat, pse: bool, word: nat, at: nat, pages: seq<Option<nat>>) {
    && PointsTo(word, at) && (pse ==> word / 0x80 % 2 == 0)
    && |pages| == 1024 && forall n :: 0 <= n < 1024 ==> EncodesPage(read(at + 4 * n), pages[n])
  }

  ghost predicate EncodesEntry(read: nat -> nat, pse: bool, word: nat, d: Directory) {
    match d
    case Hole => Absent(word)
    case Large(frame) => pse && EncodesLarge(word, frame)
    case Table(at, pages) => EncodesTable(read, pse, word, at, pages)
  }

  /** The page directory at `dir` is laid out for `space`. */
  ghost predicate Encodes(read: nat -> nat, dir: nat, pse: bool, space: seq<Directory>) {
    |space| == 1024 && forall d :: 0 <= d < 1024 ==> EncodesEntry(read, pse, read(dir + 4 * d), space[d])
  }

  /** Where `space` maps byte `offset` of page `n` of directory entry `d`. */
  function Mapped(d: Directory, n: nat, offset: nat): Option<nat> {
    match d
    case Hole => None
    case Large(frame) => Some(frame + n * 0x1000 + offset)
    case Table(_, pages) =>
      if n < |pages| && pages[n].Some? then Some(pages[n].value + offset) else None
  }

  /** The address of byte `offset` of page `n` of directory entry `d`. */
  predicate Address(lin: nat, d: nat, n: nat, offset: nat) {
    d < 1024 && n < 1024 && offset < 0x1000 && lin == d * 0x40_0000 + n * 0x1000 + offset
  }

  /** The page that the walk should find. */
  function PageOf(e: Directory, lin: nat, d: nat, n: nat, offset: nat): PageMap.Page
    requires offset <= lin
  {
    match e
    case Large(frame) => PageMap.Page(d * 0x40_0000, 0x40_0000, Some(frame))
    case Hole => PageMap.Page(lin - offset, 0x1000, None)
    case Table(_, pages) => PageMap.Page(lin - offset, 0x1000, if n < |pages| then pages[n] else None)
  }

  // ---------------------------------------------------------------- bits

  lemma NarrowWord(word: nat)
    requires word < TWO_32
    ensures word % TWO_32 == word
  {
  }

  /** An entry with an address. */
  ghost predicate ReadsAs(word: nat, frame: nat) {
    word % TWO_32 == word && PageMap.Present(word) && PageMap.Small(word) == frame
  }

  lemma AddressHeld(word: nat, frame: nat)
    requires PointsTo(word, frame)
    ensures ReadsAs(word, frame)
  {
    var page: nat, flags: nat :| Holds(word, page, flags) && frame == page * 0x1000;
    Parts(word, 0x1000, page, flags);
    EvenMultiple(page * 0x800, flags);
    NarrowWord(word);
  }

  /** An entry for 4 MB. */
  ghost predicate ReadsAsLarge(word: nat, frame: nat) {
    word % TWO_32 == word && PageMap.Present(word) && PageMap.SizeBit(word) && PageMap.LargeFrame(word) == frame
  }

  lemma LargeBits(word: nat, low: nat, high: nat, flags: nat)
    requires HoldsLarge(word, low, high, flags)
    ensures word % 2 == 1 && word / 0x80 % 2 == 1
  {
    EvenMultiple(low * 0x20_0000 + high * 0x1000, flags);
    assert word / 0x80 == low * 0x8000 + high * 0x40 + flags / 0x80;
    EvenMultiple(low * 0x4000 + high * 0x20, flags / 0x80);
  }

  lemma LargeDigits(word: nat, low: nat, high: nat, flags: nat)
    requires HoldsLarge(word, low, high, flags)
    ensures PageMap.Large(word) == low * 0x40_0000 && word / 0x2000 % 0x200 == high
  {
    Parts(word, 0x40_0000, low, high * 0x2000 + flags);
    Parts(word, 0x2000, low * 0x200 + high, flags);
    Parts(low * 0x200 + high, 0x200, low, high);
  }

  lemma LargeHeld(word: nat, frame: nat)
    requires EncodesLarge(word, frame)
    ensures ReadsAsLarge(word, frame)
  {
    var low: nat, high: nat, flags: nat :|
      HoldsLarge(word, low, high, flags) && frame == high * TWO_32 + low * 0x40_0000;
    LargeBits(word, low, high, flags);
    LargeDigits(word, low, high, flags);
    NarrowWord(word);
  }

  /** The digits of an address. */
  ghost predicate Split(lin: nat, d: nat, n: nat, offset: nat) {
    && PageMap.DirectoryIndex(lin) == d && PageMap.TableIndex(lin) == n
    && PageMap.Small(lin) + offset == lin && PageMap.Large(lin) == d * 0x40_0000
  }

  lemma Digits(lin: nat, d: nat, n: nat, offset: nat)
    requires Address(lin, d, n, offset)
    ensures lin < TWO_32 && Split(lin, d, n, offset)
  {
    Parts(lin, 0x40_0000, d, n * 0x1000 + offset);
    Parts(lin, 0x1000, d * 0x400 + n, offset);
    Parts(d * 0x400 + n, 0x400, d, n);
  }

  // ---------------------------------------------------------------- the walk

  lemma LargeFound(read: nat -> nat, dir: nat, lin: nat, d: nat, n: nat, offset: nat, word: nat, frame: nat)
    requires Split(lin, d, n, offset) && word == PageMap.EntryIn(read, dir, d) && ReadsAsLarge(word, frame)
    ensures PageMap.LegacyPage(read, dir, true, lin) == PageOf(Large(frame), lin, d, n, offset)
  {
  }

  /** An entry that is absent stays absent in 32 bits. */
  lemma AbsentNarrow(word: nat)
    requires Absent(word)
    ensures !PageMap.Present(word % TWO_32)
  {
    DivMod(word, TWO_32);
    EvenMultiple(word / TWO_32 * 0x8000_0000, word % TWO_32);
  }

  /** What an entry of a table maps. */
  function PageIn(pte: nat): Option<nat> { if PageMap.Present(pte) then Some(PageMap.Small(pte)) else None }

  lemma PageFound(read: nat -> nat, at: nat, n: nat, page: Option<nat>)
    requires EncodesPage(read(at + 4 * n), page)
    ensures PageIn(PageMap.EntryIn(read, at, n)) == page
  {
    if page.Some? {
      AddressHeld(read(at + 4 * n), page.value);
    } else {
      AbsentNarrow(read(at + 4 * n));
    }
  }

  lemma TableFound(read: nat -> nat, dir: nat, pse: bool, lin: nat, d: nat, n: nat, offset: nat, word: nat, at: nat,
                   pages: seq<Option<nat>>)
    requires Split(lin, d, n, offset) && word == PageMap.EntryIn(read, dir, d) && ReadsAs(word, at)
    requires pse ==> !PageMap.SizeBit(word)
    requires n < |pages| && PageIn(PageMap.EntryIn(read, at, n)) == pages[n]
    ensures PageMap.LegacyPage(read, dir, pse, lin) == PageOf(Table(at, pages), lin, d, n, offset)
  {
  }

  lemma HoleFound(read: nat -> nat, dir: nat, pse: bool, lin: nat, d: nat, n: nat, offset: nat)
    requires Split(lin, d, n, offset) && !PageMap.Present(PageMap.EntryIn(read, dir, d))
    ensures PageMap.LegacyPage(read, dir, pse, lin) == PageOf(Hole, lin, d, n, offset)
  {
  }

  lemma TableEntryFound(read: nat -> nat, dir: nat, pse: bool, lin: nat, d: nat, n: nat, offset: nat, word: nat,
                        at: nat, pages: seq<Option<nat>>)
    requires Split(lin, d, n, offset) && n < 1024
    requires word == read(dir + 4 * d) && EncodesTable(read, pse, word, at, pages)
    ensures PageMap.LegacyPage(read, dir, pse, lin) == PageOf(Table(at, pages), lin, d, n, offset)
  {
    AddressHeld(word, at);
    PageFound(read, at, n, pages[n]);
    TableFound(read, dir, pse, lin, d, n, offset, word, at, pages);
  }

  lemma LargeEntryFound(read: nat -> nat, dir: nat, lin: nat, d: nat, n: nat, offset: nat, word: nat, frame: nat)
    requires Split(lin, d, n, offset) && word == read(dir + 4 * d) && EncodesLarge(word, frame)
    ensures PageMap.LegacyPage(read, dir, true, lin) == PageOf(Large(frame), lin, d, n, offset)
  {
    LargeHeld(word, frame);
    LargeFound(read, dir, lin, d, n, offset, word, frame);
  }

  lemma EntryFound(read: nat -> nat, dir: nat, pse: bool, e: Directory, lin: nat, d: nat, n: nat, offset: nat,
                   word: nat)
    requires Split(lin, d, n, offset) && n < 1024 && word == read(dir + 4 * d) && EncodesEntry(read, pse, word, e)
    ensures PageMap.LegacyPage(read, dir, pse, lin) == PageOf(e, lin, d, n, offset)
  {
    match e
    case Hole =>
      AbsentNarrow(word);
      HoleFound(read, dir, pse, lin, d, n, offset);
    case Large(frame) => LargeEntryFound(read, dir, lin, d, n, offset, word, frame);
    case Table(at, pages) => TableEntryFound(read, dir, pse, lin, d, n, offset, word, at, pages);
  }

  lemma PageMapped(w: PageMap.Walk, e: Directory, lin: nat, d: nat, n: nat, offset: nat)
    requires Address(lin, d, n, offset) && w(lin) == PageOf(e, lin, d, n, offset)
    ensures w(lin).start <= lin && PageMap.Translate(w, lin) == Mapped(e, n, offset)
  {
  }

  /** The two-level walk. */
  ghost predicate IsLegacyWalk(w: PageMap.Walk, read: nat -> nat, dir: nat, pse: bool) {
    forall lin: nat {:trigger w(lin)} :: w(lin) == PageMap.LegacyPage(read, dir, pse, lin)
  }

  /** The two-level walk finds the mapping that the tables are laid out for, at every address. */
  lemma LegacyRoundTrip(
    w: PageMap.Walk, read: nat -> nat, dir: nat, pse: bool, space: seq<Directory>, lin: nat, d: nat, n: nat,
    offset: nat)
    requires IsLegacyWalk(w, read, dir, pse) && Encodes(read, dir, pse, space) && Address(lin, d, n, offset)
    ensures w(lin).start <= lin && PageMap.Translate(w, lin) == Mapped(space[d], n, offset)
  {
    Digits(lin, d, n, offset);
    EntryFound(read, dir, pse, space[d], lin, d, n, offset, read(dir + 4 * d));
    PageMapped(w, space[d], lin, d, n, offset);
  }

  /** What is printed for tables laid out for a mapping reads back to that mapping. */
  method DumpLegacy(read: nat -> nat, dir: nat, pse: bool, ghost space: seq<Directory>)
    returns (out: seq<PageMap.Interval>)
    requires Encodes(read, dir, pse, space)
    ensures PageMap.WellPrinted(out)
    ensures forall lin: nat, d: nat, n: nat, offset: nat {:trigger Address(lin, d, n, offset)} ::
      Address(lin, d, n, offset) ==> PageMap.Lookup(out, lin) == Mapped(space[d], n, offset)
  {
    var w := (lin: nat) => PageMap.LegacyPage(read, dir, pse, lin);
    PageMap.LegacyWalkPaged(read, dir, pse);
    out := PageMap.DumpTable(w);
    forall lin: nat, d: nat, n: nat, offset: nat | Address(lin, d, n, offset)
      ensures PageMap.Lookup(out, lin) == Mapped(space[d], n, offset)
    {
      LegacyRoundTrip(w, read, dir, pse, space, lin, d, n, offset);
    }
  }
}
