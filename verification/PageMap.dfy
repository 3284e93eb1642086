/** The debugger's dump of the linear-to-physical mapping of a 32-bit address space. */
module PageMap {
  import opened Machine

  const PAGE: nat := 0x1000

  /** What the page walk finds for a linear address: the page it lies in and where that is mapped. */
  datatype Page = Page(start: nat, size: nat, frame: Option<nat>)

  type Walk = nat -> Page

  /** `p` is a page of whole 4 KB units that begins in the 32-bit space.  If it is mapped, it ends there too,
      and is mapped below 2^52; a hole may be larger than the space. */
  predicate PageOk(p: Page) {
    && p.start % PAGE == 0 && p.size % PAGE == 0 && p.size > 0 && p.start < TWO_32
    && (p.frame.Some? ==>
          && p.start + p.size <= TWO_32
          && p.frame.value % PAGE == 0 && p.frame.value + p.size <= 0x10_0000_0000_0000)
  }

  /** Where `p` ends within the 32-bit space. */
  function PageEnd(p: Page): nat {
    if p.start + p.size <= TWO_32 then p.start + p.size else TWO_32
  }

  /** The walk divides the 32-bit space into pages: all addresses of a page find that same page. */
  ghost predicate Paged(w: Walk) {
    forall lin {:trigger w(lin)} :: 0 <= lin < TWO_32 ==>
      PageOk(w(lin)) && w(lin).start <= lin < w(lin).start + w(lin).size
  }

  ghost predicate PagesAgree(w: Walk) {
    forall a, b {:trigger w(a), w(b)} ::
      0 <= a < TWO_32 && 0 <= b < TWO_32 && w(a).start <= b < w(a).start + w(a).size ==> w(b) == w(a)
  }

  /** Where page `p` maps one of its addresses. */
  function MappedBy(p: Page, lin: nat): Option<nat>
    requires p.start <= lin
  {
    match p.frame
    case None => None
    case Some(f) => Some(f + (lin - p.start))
  }

  /** Where a linear address is mapped. */
  function Translate(w: Walk, lin: nat): Option<nat>
    requires w(lin).start <= lin
  {
    MappedBy(w(lin), lin)
  }

  /** One printed line: the linear addresses from `lin` to `linEnd` are mapped to `phy` to `phyEnd`. */
  datatype Interval = Interval(lin: nat, linEnd: nat, phy: nat, phyEnd: nat)

  /** Reading the printed lines back. */
  function Lookup(out: seq<Interval>, lin: nat): Option<nat> {
    if out == [] then None else
    var last := out[|out| - 1];
    if last.lin <= lin <= last.linEnd then Some(last.phy + (lin - last.lin)) else Lookup(out[..|out| - 1], lin)
  }

  lemma LookupAppend(out: seq<Interval>, i: Interval, lin: nat)
    ensures Lookup(out + [i], lin)
         == if i.lin <= lin <= i.linEnd then Some(i.phy + (lin - i.lin)) else Lookup(out, lin)
  {
    assert (out + [i])[..|out|] == out;
  }

  /** Line `b` comes after line `a`, with a gap in the linear or in the physical addresses. */
  predicate Follows(a: Interval, b: Interval) {
    a.linEnd < b.lin && !(b.lin == a.linEnd + 1 && b.phy == a.phyEnd + 1)
  }

  /** Both sides of a line are equally long; each line follows the one before it and could not have
      been joined to it. */
  predicate WellPrinted(out: seq<Interval>) {
    out == [] ||
    (var last := out[|out| - 1];
     && last.lin <= last.linEnd < TWO_32 && last.phyEnd - last.phy == last.linEnd - last.lin
     && (|out| > 1 ==> Follows(out[|out| - 2], last))
     && WellPrinted(out[..|out| - 1]))
  }

  /** The lines are ascending and disjoint. */
  lemma {:induction false} Ascending(out: seq<Interval>, i: nat, j: nat)
    requires WellPrinted(out) && i < j < |out|
    ensures out[i].linEnd < out[j].lin <= out[j].linEnd
  {
    if j < |out| - 1 {
      Ascending(out[..|out| - 1], i, j);
    } else if i < j - 1 {
      Ascending(out[..|out| - 1], i, j - 1);
    } else {
      assert Follows(out[i], out[j]);
    }
  }

  /** The end of the last line, or -1. */
  function LastEnd(out: seq<Interval>): int {
    if out == [] then -1 else out[|out| - 1].linEnd
  }

  /** The state of the loop: `startLin` is 1 (and `startPhy` 2) unless a line has been begun. */
  ghost predicate Begun(w: Walk, out: seq<Interval>, startLin: nat, startPhy: nat, lin: nat)
    requires Paged(w) && lin <= TWO_32
  {
    && WellPrinted(out)
    && (startLin == 1 ==> startPhy == 2 && (out != [] ==> LastEnd(out) + 1 < lin))
    && (startLin != 1 ==>
          && startLin < lin && startPhy < 0x10_0000_0000_0000
          && (out != [] ==> Follows(out[|out| - 1], Line(startLin, startPhy, lin))))
    && (forall l: nat :: l < lin ==>
          Translate(w, l) == if startLin != 1 && startLin <= l then Some(startPhy + (l - startLin)) else Lookup(out, l))
  }

  /** The line that is printed when the line begun is finished just before `lin`. */
  function Line(startLin: nat, startPhy: nat, lin: nat): Interval
    requires startLin < lin
  {
    Interval(startLin, lin - 1, startPhy, startPhy + (lin - 1 - startLin))
  }

  lemma LinePrinted(out: seq<Interval>, line: Interval)
    requires WellPrinted(out) && (out != [] ==> Follows(out[|out| - 1], line))
    requires line.lin <= line.linEnd < TWO_32 && line.phyEnd - line.phy == line.linEnd - line.lin
    ensures WellPrinted(out + [line])
  {
    assert (out + [line])[..|out|] == out;
  }

  lemma LineReadBack(w: Walk, out: seq<Interval>, startLin: nat, startPhy: nat, lin: nat)
    requires Paged(w) && lin <= TWO_32 && startLin != 1 && Begun(w, out, startLin, startPhy, lin)
    ensures forall l: nat :: l < lin ==> Translate(w, l) == Lookup(out + [Line(startLin, startPhy, lin)], l)
  {
    forall l: nat | l < lin
      ensures Translate(w, l) == Lookup(out + [Line(startLin, startPhy, lin)], l)
    {
      LookupAppend(out, Line(startLin, startPhy, lin), l);
    }
  }

  lemma {:induction false} LookupBeyond(out: seq<Interval>, lin: nat)
    requires WellPrinted(out) && LastEnd(out) < lin
    ensures Lookup(out, lin) == None
  {
    if out != [] {
      LookupBeyond(out[..|out| - 1], lin);
    }
  }

  /** The sentinels never look like a line begun just before `lin`. */
  lemma SentinelsDiffer(lin: nat, phy: nat)
    requires lin % PAGE == 0 && phy % PAGE == 0 && lin < TWO_32 && phy < 0x10_0000_0000_0000
    ensures (lin - 1) % TWO_64 != (phy - 2) % TWO_64
  {
    if lin == 0 {
      assert (lin - 1) % TWO_64 == TWO_64 - 1;
    } else {
      assert (lin - 1) % TWO_64 == lin - 1;
    }
    if phy == 0 {
      assert (phy - 2) % TWO_64 == TWO_64 - 2;
    } else {
      assert (phy - 2) % TWO_64 == phy - 2;
    }
  }

  /** Unsigned 64-bit differences are equal exactly when the differences are. */
  lemma DifferencesEqual(lin: nat, startLin: nat, phy: nat, startPhy: nat)
    requires startLin <= lin < TWO_32 && phy < 0x10_0000_0000_0000 && startPhy < 0x10_0000_0000_0000
    ensures (lin - startLin) % TWO_64 == (phy - startPhy) % TWO_64 <==> lin - startLin == phy - startPhy
  {
    assert (lin - startLin) % TWO_64 == lin - startLin;
    if phy < startPhy {
      assert (phy - startPhy) % TWO_64 == phy - startPhy + TWO_64;
    } else {
      assert (phy - startPhy) % TWO_64 == phy - startPhy;
    }
  }

  /** The test whether a new line begins, in unsigned 64-bit differences. */
  predicate NewLine(lin: nat, startLin: nat, phy: nat, startPhy: nat) {
    (lin - startLin) % TWO_64 != (phy - startPhy) % TWO_64
  }

  /** A new line begins if none is under way or the physical address does not go on. */
  lemma NewLineIff(lin: nat, startLin: nat, phy: nat, startPhy: nat)
    requires lin % PAGE == 0 && phy % PAGE == 0 && lin < TWO_32 && phy < 0x10_0000_0000_0000
    requires if startLin == 1 then startPhy == 2 else startLin <= lin && startPhy < 0x10_0000_0000_0000
    ensures NewLine(lin, startLin, phy, startPhy) <==> startLin == 1 || phy != startPhy + (lin - startLin)
  {
    if startLin == 1 {
      SentinelsDiffer(lin, phy);
    } else {
      DifferencesEqual(lin, startLin, phy, startPhy);
    }
  }

  /** The page at `lin` is `p`, throughout. */
  ghost predicate PageAt(w: Walk, lin: nat, p: Page) {
    && Paged(w) && PageOk(p) && p.start == lin
    && forall l: nat :: lin <= l < PageEnd(p) ==> w(l) == p
  }

  lemma LineContinues(w: Walk, out: seq<Interval>, startLin: nat, startPhy: nat, lin: nat, p: Page)
    requires PageAt(w, lin, p) && Begun(w, out, startLin, startPhy, lin)
    requires startLin != 1 && p.frame == Some(startPhy + (lin - startLin))
    ensures Begun(w, out, startLin, startPhy, PageEnd(p))
  {
  }

  /** `out` reads back to all of the mapping below `lin`, and no line is under way. */
  ghost predicate Printed(w: Walk, out: seq<Interval>, lin: nat)
    requires Paged(w) && lin <= TWO_32
  {
    && WellPrinted(out) && LastEnd(out) < lin
    && forall l: nat :: l < lin ==> Translate(w, l) == Lookup(out, l)
  }

  lemma LineFinished(w: Walk, out: seq<Interval>, startLin: nat, startPhy: nat, lin: nat)
    requires Paged(w) && lin <= TWO_32 && startLin != 1 && Begun(w, out, startLin, startPhy, lin)
    ensures Printed(w, out + [Line(startLin, startPhy, lin)], lin)
  {
    LinePrinted(out, Line(startLin, startPhy, lin));
    LineReadBack(w, out, startLin, startPhy, lin);
  }

  lemma LineBegins(w: Walk, out: seq<Interval>, lin: nat, p: Page)
    requires PageAt(w, lin, p) && Printed(w, out, lin) && p.frame.Some?
    requires out != [] ==> !(LastEnd(out) + 1 == lin && out[|out| - 1].phyEnd + 1 == p.frame.value)
    ensures Begun(w, out, lin, p.frame.value, PageEnd(p))
  {
    var end := PageEnd(p);
    assert lin != 1 && p.frame.value % PAGE == 0;
    forall l: nat | l < end
      ensures Translate(w, l) == if lin <= l then Some(p.frame.value + (l - lin)) else Lookup(out, l)
    {
    }
  }

  lemma NothingMapped(w: Walk, out: seq<Interval>, lin: nat, p: Page)
    requires PageAt(w, lin, p) && Printed(w, out, lin) && p.frame == None
    ensures Begun(w, out, 1, 2, PageEnd(p))
  {
    var end := PageEnd(p);
    forall l: nat | lin <= l < end
      ensures Translate(w, l) == Lookup(out, l)
    {
      LookupBeyond(out, l);
    }
  }

  /** The loop body for the page that begins at `lin`. */
  method VisitPage(w: Walk, out: seq<Interval>, startLin: nat, startPhy: nat, lin: nat, p: Page)
    returns (out': seq<Interval>, startLin': nat, startPhy': nat)
    requires PageAt(w, lin, p) && lin < TWO_32
    requires Begun(w, out, startLin, startPhy, lin)
    ensures Begun(w, out', startLin', startPhy', PageEnd(p)) && (startLin' != 1 ==> p.frame.Some?)
  {
    out', startLin', startPhy' := out, startLin, startPhy;
    if startLin != 1 {
      LineFinished(w, out, startLin, startPhy, lin);
    }
    if p.frame.Some? {
      var phy := p.frame.value;
      NewLineIff(lin, startLin, phy, startPhy);
      if NewLine(lin, startLin, phy, startPhy) {
        if startLin != 1 {
          out' := out + [Line(startLin, startPhy, lin)];
        }
        startLin' := lin;
        startPhy' := phy;
        LineBegins(w, out', lin, p);
      } else {
        LineContinues(w, out, startLin, startPhy, lin, p);
      }
    } else {
      if startLin != 1 {
        out' := out + [Line(startLin, startPhy, lin)];
      }
      startLin' := 1;
      startPhy' := 2;
      NothingMapped(w, out', lin, p);
    }
  }

  /** The address after the end of a page begins a page. */
  lemma NextPage(w: Walk, lin: nat)
    requires Paged(w) && PagesAgree(w) && lin < TWO_32 && w(lin).start == lin
    ensures PageAt(w, lin, w(lin))
    ensures PageEnd(w(lin)) < TWO_32 ==> w(PageEnd(w(lin))).start == PageEnd(w(lin))
  {
    var p, next := w(lin), PageEnd(w(lin));
    assert forall l: nat :: lin <= l < next ==> w(l) == p;
    if next < TWO_32 && w(next).start < next {
      SamePage(w, next, next - 1);
    }
  }

  lemma SamePage(w: Walk, a: nat, b: nat)
    requires PagesAgree(w) && a < TWO_32 && b < TWO_32 && w(a).start <= b < w(a).start + w(a).size
    ensures w(b) == w(a)
  {
  }

  /** Pages end on 4 KB boundaries, so testing for the last 4 KB tests for the last page. */
  lemma LastPage(p: Page)
    requires PageOk(p)
    ensures p.start + p.size - 1 >= 0xffff_f000 <==> PageEnd(p) == TWO_32
  {
  }

  /** One turn of the loop. */
  method Advance(w: Walk, out: seq<Interval>, startLin: nat, startPhy: nat, lin: nat)
    returns (out': seq<Interval>, startLin': nat, startPhy': nat, lin': nat, done: bool)
    requires Paged(w) && PagesAgree(w) && lin < TWO_32 && w(lin).start == lin
    requires Begun(w, out, startLin, startPhy, lin)
    ensures done ==> Begun(w, out', startLin', startPhy', TWO_32) && (startLin' != 1 ==> lin' == TWO_32 - 1)
    ensures !done ==> lin < lin' < TWO_32 && w(lin').start == lin' && Begun(w, out', startLin', startPhy', lin')
  {
    var p := w(lin);
    NextPage(w, lin);
    LastPage(p);
    out', startLin', startPhy' := VisitPage(w, out, startLin, startPhy, lin, p);
    lin' := lin + (p.size - 1);
    done := lin' >= 0xffff_f000;
    if !done {
      lin' := lin' + 1;
    }
  }

  /** Reading the printed lines back gives exactly the mapping, and the lines are as long as possible. */
  method DumpTable(w: Walk) returns (out: seq<Interval>)
    requires Paged(w) && PagesAgree(w)
    ensures WellPrinted(out)
    ensures forall lin: nat :: lin < TWO_32 ==> Lookup(out, lin) == Translate(w, lin)
  {
    var lin: nat := 0;
    var startLin: nat, startPhy: nat := 1, 2;
    out := [];
    var done := false;
    while !done
      invariant if done then startLin != 1 ==> lin == TWO_32 - 1 else lin < TWO_32 && w(lin).start == lin
      invariant Begun(w, out, startLin, startPhy, if done then TWO_32 else lin)
      decreases !done, TWO_32 - lin
    {
      out, startLin, startPhy, lin, done := Advance(w, out, startLin, startPhy, lin);
    }
    out := FinishLine(w, out, startLin, startPhy, lin);
  }

  /** What is left to do after the loop: the line under way is printed. */
  method FinishLine(w: Walk, out: seq<Interval>, startLin: nat, startPhy: nat, lin: nat) returns (out': seq<Interval>)
    requires Paged(w) && Begun(w, out, startLin, startPhy, TWO_32) && (startLin != 1 ==> lin == TWO_32 - 1)
    ensures WellPrinted(out')
    ensures forall lin: nat :: lin < TWO_32 ==> Lookup(out', lin) == Translate(w, lin)
  {
    out' := out;
    if startLin != 1 {
      LineFinished(w, out, startLin, startPhy, TWO_32);
      out' := out + [Interval(startLin, lin, startPhy, startPhy + (lin - startLin))];
    }
  }

  // ---------------------------------------------------------------- the two-level page walk

  /** `x` rounded down to a multiple of 4 KB, and of 4 MB. */
  function Small(x: nat): nat { x - x % 0x1000 }

  function Large(x: nat): nat { x - x % 0x40_0000 }

  function DirectoryIndex(lin: nat): nat { lin / 0x40_0000 }

  function TableIndex(lin: nat): nat { lin / 0x1000 % 0x400 }

  /** Entry `index` of a table; `read` gives the 32-bit words of physical memory. */
  function EntryIn(read: nat -> nat, table: nat, index: nat): nat { read(table + 4 * index) % TWO_32 }

  predicate Present(entry: nat) { entry % 2 == 1 }

  predicate SizeBit(entry: nat) { entry / 0x80 % 2 == 1 }

  /** The frame of 4 MB that a directory entry maps: bits 13 to 21 are bits 32 to 40 of the address. */
  function LargeFrame(pde: nat): nat { Large(pde) + pde / 0x2000 % 0x200 * TWO_32 }

  /** Non-PAE paging: `dir` is the page directory. */
  function LegacyPage(read: nat -> nat, dir: nat, pse: bool, lin: nat): Page {
    var pde := EntryIn(read, dir, DirectoryIndex(lin));
    if !Present(pde) then Page(Small(lin), 0x1000, None)
    else if pse && SizeBit(pde) then Page(Large(lin), 0x40_0000, Some(LargeFrame(pde)))
    else
      var pte := EntryIn(read, Small(pde), TableIndex(lin));
      Page(Small(lin), 0x1000, if Present(pte) then Some(Small(pte)) else None)
  }

  lemma SmallRounds(x: nat)
    ensures Small(x) % 0x1000 == 0 && Small(x) <= x < Small(x) + 0x1000
    ensures x < TWO_32 ==> Small(x) + 0x1000 <= TWO_32
  {
  }

  lemma LargeRounds(x: nat)
    ensures Large(x) % 0x40_0000 == 0 && Large(x) % 0x1000 == 0 && Large(x) <= x < Large(x) + 0x40_0000
    ensures x < TWO_32 ==> Large(x) + 0x40_0000 <= TWO_32
  {
    var q := x / 0x40_0000;
    assert Large(x) == q * 0x40_0000 == q * 0x400 * 0x1000;
  }

  lemma LargeFrameOk(pde: nat)
    requires pde < TWO_32
    ensures LargeFrame(pde) % PAGE == 0 && LargeFrame(pde) + 0x40_0000 <= 0x10_0000_0000_0000
  {
    LargeRounds(pde);
    var high := pde / 0x2000 % 0x200;
    assert high * TWO_32 == high * 0x10_0000 * 0x1000;
    MultiplePages(Large(pde), high * 0x10_0000);
  }

  lemma MultiplePages(x: nat, n: nat)
    requires x % 0x1000 == 0
    ensures (x + n * 0x1000) % 0x1000 == 0
  {
  }

  lemma SmallAgrees(a: nat, b: nat)
    requires Small(a) <= b < Small(a) + 0x1000
    ensures Small(b) == Small(a) && b / 0x1000 == a / 0x1000 && b / 0x40_0000 == a / 0x40_0000
  {
    SameFrame(a, b);
    LargeOfSmall(a);
    LargeOfSmall(b);
  }

  lemma SameFrame(a: nat, b: nat)
    requires Small(a) <= b < Small(a) + 0x1000
    ensures b / 0x1000 == a / 0x1000 && Small(b) == Small(a)
  {
  }

  lemma LargeOfSmall(x: nat)
    ensures x / 0x40_0000 == x / 0x1000 / 0x400
  {
  }

  lemma LargeAgrees(a: nat, b: nat)
    requires Large(a) <= b < Large(a) + 0x40_0000
    ensures Large(b) == Large(a) && b / 0x40_0000 == a / 0x40_0000
  {
  }

  /** A page in order that contains `lin`. */
  predicate PageWith(p: Page, lin: nat) {
    PageOk(p) && p.start <= lin < p.start + p.size
  }

  lemma SmallPageOk(lin: nat, entry: nat)
    requires lin < TWO_32 && entry < TWO_32
    ensures PageWith(Page(Small(lin), 0x1000, None), lin)
    ensures PageWith(Page(Small(lin), 0x1000, Some(Small(entry))), lin)
  {
    SmallRounds(lin);
    SmallRounds(entry);
  }

  lemma LargePageOk(lin: nat, pde: nat)
    requires lin < TWO_32 && pde < TWO_32
    ensures PageWith(Page(Large(lin), 0x40_0000, Some(LargeFrame(pde))), lin)
  {
    LargeRounds(lin);
    LargeFrameOk(pde);
  }

  lemma LegacyPageOk(read: nat -> nat, dir: nat, pse: bool, lin: nat, pde: nat, pte: nat)
    requires lin < TWO_32 && pde == EntryIn(read, dir, DirectoryIndex(lin))
    requires pte == EntryIn(read, Small(pde), TableIndex(lin))
    ensures PageWith(LegacyPage(read, dir, pse, lin), lin)
  {
    if Present(pde) && pse && SizeBit(pde) {
      LargePageOk(lin, pde);
    } else {
      SmallPageOk(lin, pte);
    }
  }

  lemma LegacyPagesAgree(read: nat -> nat, dir: nat, pse: bool, a: nat, b: nat)
    requires var p := LegacyPage(read, dir, pse, a); p.start <= b < p.start + p.size
    ensures LegacyPage(read, dir, pse, b) == LegacyPage(read, dir, pse, a)
  {
    if LegacyPage(read, dir, pse, a).size == 0x1000 {
      SmallAgrees(a, b);
    } else {
      LargeAgrees(a, b);
    }
  }

  /** The two-level page walk divides the address space into pages, whatever the page tables hold. */
  lemma LegacyWalkPaged(read: nat -> nat, dir: nat, pse: bool)
    ensures var w := (lin: nat) => LegacyPage(read, dir, pse, lin);
      Paged(w) && PagesAgree(w)
  {
    forall lin: nat | lin < TWO_32
      ensures PageWith(LegacyPage(read, dir, pse, lin), lin)
    {
      var pde := EntryIn(read, dir, DirectoryIndex(lin));
      LegacyPageOk(read, dir, pse, lin, pde, EntryIn(read, Small(pde), TableIndex(lin)));
    }
    forall a: nat, b: nat
      | var p := LegacyPage(read, dir, pse, a); p.start <= b < p.start + p.size
      ensures LegacyPage(read, dir, pse, b) == LegacyPage(read, dir, pse, a)
    {
      LegacyPagesAgree(read, dir, pse, a, b);
    }
  }
}
