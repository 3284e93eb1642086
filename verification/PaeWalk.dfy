/** The page walks of physical address extension: in legacy mode, with four directory pointers, and in
    compatibility mode, with four levels of tables. */
module PaeWalk {
  import opened Machine
  import opened PageMap

  /** What one entry of a table at `level` maps: 4 KB, 2 MB, 1 GB, 512 GB. */
  function Unit(level: nat): (r: nat)
    ensures r >= 1
  {
    if level == 0 then 0x1000 else if level == 1 then 0x20_0000 else if level == 2 then 0x4000_0000 else 0x80_0000_0000
  }

  /** `x` rounded down to a unit. */
  function Down(x: nat, level: nat): nat { x / Unit(level) * Unit(level) }

  /** The 64-bit words of physical memory, which entries have reserved address bits set, and whether 1 GB pages
      are supported. */
  datatype Paging = Paging(read: nat -> nat, reserved: nat -> bool, hugePages: bool)

  /** Bits 12 to 51, and 13 to 51, of an entry. */
  function Frame(entry: nat): nat { entry / 0x1000 % 0x100_0000_0000 * 0x1000 }

  function LargeFrame(entry: nat): nat { entry / 0x2000 % 0x80_0000_0000 * 0x2000 }

  function Leaf(lin: nat, level: nat, frame: Option<nat>): Page { Page(Down(lin, level), Unit(level), frame) }

  /** What an entry at which the walk ends maps; one that is not present or is malformed maps nothing. */
  function Target(m: Paging, entry: nat, level: nat): Option<nat> {
    if !Present(entry) || m.reserved(entry) then None
    else if level == 0 then Some(Frame(entry))
    else if LargeFrame(entry) % Unit(level) == 0 && (level == 1 || (level == 2 && m.hugePages))
    then Some(LargeFrame(entry)) else None
  }

  /** The walk goes on from an entry that leads to another table. */
  predicate LeadsOn(m: Paging, entry: nat, level: nat) {
    level > 0 && Present(entry) && !m.reserved(entry) && !SizeBit(entry)
  }

  function Index(lin: nat, level: nat): nat { lin / Unit(level) % 512 }

  /** Entry `index` of a table. */
  function EntryAt(m: Paging, table: nat, index: nat): nat { m.read(table + 8 * index) % TWO_64 }

  function EntryFor(m: Paging, table: nat, level: nat, lin: nat): nat {
    EntryAt(m, table, Index(lin, level))
  }

  /** The walk from the table at `table` down. */
  function Find(m: Paging, table: nat, level: nat, lin: nat): Page
    decreases level
  {
    var entry := EntryFor(m, table, level, lin);
    if LeadsOn(m, entry, level) then Find(m, Frame(entry), level - 1, lin)
    else Leaf(lin, level, Target(m, entry, level))
  }

  /** Levels of tables in legacy mode, below the directory pointers, and in compatibility mode. */
  const LEGACY_LEVELS: nat := 2
  const LONG_LEVELS: nat := 4

  /** The directory pointer for an address; `pointers` are the four. */
  function PointerFor(pointers: nat -> nat, lin: nat): nat {
    pointers(lin / Unit(LEGACY_LEVELS) % 4) % TWO_64
  }

  /** Legacy mode. */
  function LegacyPaePage(m: Paging, pointers: nat -> nat, lin: nat): Page {
    var pointer := PointerFor(pointers, lin);
    if !Present(pointer) then Leaf(lin, LEGACY_LEVELS, None)
    else Find(m, Frame(pointer), LEGACY_LEVELS - 1, lin)
  }

  /** Compatibility mode: four levels. */
  function LongModePage(m: Paging, cr3: nat, lin: nat): Page {
    Find(m, Frame(cr3), LONG_LEVELS - 1, lin)
  }

  // ---------------------------------------------------------------- units

  lemma DownBounds(x: nat, level: nat)
    ensures Down(x, level) <= x < Down(x, level) + Unit(level)
  {
  }

  /** A unit lies inside one unit of the level above. */
  lemma Nested(x: nat, level: nat)
    requires 1 <= level <= 3
    ensures Down(x, level) <= Down(x, level - 1)
    ensures Down(x, level - 1) + Unit(level - 1) <= Down(x, level) + Unit(level)
  {
    var q := x / Unit(level - 1);
    assert x / Unit(level) == q / 512 by { DivDiv(x, level); }
    assert q / 512 * 512 <= q < q / 512 * 512 + 512;
  }

  lemma DivDiv(x: nat, level: nat)
    requires 1 <= level <= 3
    ensures x / Unit(level) == x / Unit(level - 1) / 512
  {
    if level == 1 {
      assert x / 0x20_0000 == x / 0x1000 / 512;
    } else if level == 2 {
      assert x / 0x4000_0000 == x / 0x20_0000 / 512;
    } else {
      assert x / 0x80_0000_0000 == x / 0x4000_0000 / 512;
    }
  }

  /** Addresses of the same unit have the same index at its level. */
  lemma SameUnit(a: nat, b: nat, level: nat)
    requires level <= 3 && Down(a, level) <= b < Down(a, level) + Unit(level)
    ensures b / Unit(level) == a / Unit(level) && Down(b, level) == Down(a, level)
  {
    if level == 0 {
    } else if level == 1 {
    } else if level == 2 {
    } else {
    }
  }

  /** A multiple of a unit below 2^32 or 2^52 leaves room for the unit. */
  lemma RoomForUnit(x: nat, level: nat, q: nat)
    requires level <= 2 && x == q * Unit(level)
    ensures x % 0x1000 == 0
    ensures x < TWO_32 ==> x + Unit(level) <= TWO_32
    ensures x < 0x10_0000_0000_0000 ==> x + Unit(level) <= 0x10_0000_0000_0000
  {
    if level == 0 {
    } else if level == 1 {
      assert x == q * 512 * 0x1000;
    } else {
      assert x == q * 0x4_0000 * 0x1000;
    }
  }

  lemma FrameBounds(entry: nat)
    ensures Frame(entry) % 0x1000 == 0 && Frame(entry) + 0x1000 <= 0x10_0000_0000_0000
    ensures LargeFrame(entry) < 0x10_0000_0000_0000
  {
  }

  lemma LargeFrameBounds(entry: nat, level: nat)
    requires level <= 2 && LargeFrame(entry) % Unit(level) == 0
    ensures LargeFrame(entry) % 0x1000 == 0 && LargeFrame(entry) + Unit(level) <= 0x10_0000_0000_0000
  {
    FrameBounds(entry);
    RoomForUnit(LargeFrame(entry), level, LargeFrame(entry) / Unit(level));
  }

  /** What the walk may leave at the end: a hole of any size, or a page of up to 1 GB. */
  lemma LeafOk(lin: nat, level: nat, frame: Option<nat>)
    requires level <= 3 && lin < TWO_32
    requires frame.Some? ==>
      level <= 2 && frame.value % 0x1000 == 0 && frame.value + Unit(level) <= 0x10_0000_0000_0000
    ensures PageOk(Leaf(lin, level, frame))
  {
    DownBounds(lin, level);
    UnitOfPages(level, lin / Unit(level));
    if level <= 2 {
      RoomForUnit(Down(lin, level), level, lin / Unit(level));
    }
  }

  lemma UnitOfPages(level: nat, q: nat)
    requires level <= 3
    ensures Unit(level) % 0x1000 == 0 && q * Unit(level) % 0x1000 == 0
  {
    var pages := Unit(level) / 0x1000;
    assert Unit(level) == pages * 0x1000;
    assert q * Unit(level) == q * pages * 0x1000;
  }

  // ---------------------------------------------------------------- the walk

  /** `p` contains `lin` and lies inside its unit at `level`. */
  predicate Inside(p: Page, lin: nat, level: nat) {
    && p.start <= lin < p.start + p.size
    && Down(lin, level) <= p.start && p.start + p.size <= Down(lin, level) + Unit(level)
  }

  lemma InsideAbove(p: Page, lin: nat, level: nat)
    requires 1 <= level <= 3 && Inside(p, lin, level - 1)
    ensures Inside(p, lin, level)
  {
    Nested(lin, level);
  }

  /** The walk ends inside the unit it starts from, with a page that contains the address. */
  lemma {:induction false} FindWithin(m: Paging, table: nat, level: nat, lin: nat)
    requires level <= 3
    ensures Inside(Find(m, table, level, lin), lin, level)
    decreases level
  {
    var entry := EntryFor(m, table, level, lin);
    if LeadsOn(m, entry, level) {
      FindWithin(m, Frame(entry), level - 1, lin);
      InsideAbove(Find(m, Frame(entry), level - 1, lin), lin, level);
    } else {
      DownBounds(lin, level);
    }
  }

  lemma TargetOk(m: Paging, entry: nat, level: nat, lin: nat)
    requires level <= 3 && lin < TWO_32
    ensures PageOk(Leaf(lin, level, Target(m, entry, level)))
  {
    FrameBounds(entry);
    if level <= 2 && LargeFrame(entry) % Unit(level) == 0 {
      LargeFrameBounds(entry, level);
    }
    LeafOk(lin, level, Target(m, entry, level));
  }

  lemma {:induction false} FindOk(m: Paging, table: nat, level: nat, lin: nat)
    requires level <= 3 && lin < TWO_32
    ensures PageOk(Find(m, table, level, lin))
    decreases level
  {
    var entry := EntryFor(m, table, level, lin);
    if LeadsOn(m, entry, level) {
      FindOk(m, Frame(entry), level - 1, lin);
    } else {
      TargetOk(m, entry, level, lin);
    }
  }

  /** All addresses of a page find that page. */
  lemma {:induction false} FindAgrees(m: Paging, table: nat, level: nat, a: nat, b: nat, p: Page)
    requires level <= 3 && p == Find(m, table, level, a) && p.start <= b < p.start + p.size
    ensures Find(m, table, level, b) == p
    decreases level
  {
    FindWithin(m, table, level, a);
    SameUnit(a, b, level);
    var entry := EntryFor(m, table, level, a);
    if LeadsOn(m, entry, level) {
      FindAgrees(m, Frame(entry), level - 1, a, b, p);
    }
  }

  lemma WalkPaged(m: Paging, table: nat, level: nat, w: Walk)
    requires level <= 3 && forall lin: nat {:trigger w(lin)} :: w(lin) == Find(m, table, level, lin)
    ensures Paged(w) && PagesAgree(w)
  {
    forall lin: nat | lin < TWO_32
      ensures PageWith(w(lin), lin)
    {
      FindOk(m, table, level, lin);
      FindWithin(m, table, level, lin);
    }
    forall a: nat, b: nat | w(a).start <= b < w(a).start + w(a).size
      ensures w(b) == w(a)
    {
      FindAgrees(m, table, level, a, b, w(a));
    }
  }

  /** The four-level walk divides the 32-bit space into pages, whatever the tables hold. */
  lemma LongModeWalkPaged(m: Paging, cr3: nat)
    ensures var w := (lin: nat) => LongModePage(m, cr3, lin);
      Paged(w) && PagesAgree(w)
  {
    WalkPaged(m, Frame(cr3), LONG_LEVELS - 1, (lin: nat) => LongModePage(m, cr3, lin));
  }

  lemma LegacyPaePageOk(m: Paging, pointers: nat -> nat, lin: nat, level: nat, p: Page)
    requires lin < TWO_32 && level == LEGACY_LEVELS && p == LegacyPaePage(m, pointers, lin)
    ensures PageWith(p, lin) && Inside(p, lin, level)
  {
    var pointer := PointerFor(pointers, lin);
    DownBounds(lin, level);
    LeafOk(lin, level, None);
    if Present(pointer) {
      FindOk(m, Frame(pointer), level - 1, lin);
      FindWithin(m, Frame(pointer), level - 1, lin);
      InsideAbove(p, lin, level);
    }
  }

  lemma LegacyPaePagesAgree(m: Paging, pointers: nat -> nat, a: nat, b: nat, level: nat, p: Page)
    requires a < TWO_32 && b < TWO_32 && level == LEGACY_LEVELS
    requires p == LegacyPaePage(m, pointers, a) && p.start <= b < p.start + p.size
    ensures LegacyPaePage(m, pointers, b) == p
  {
    LegacyPaePageOk(m, pointers, a, level, p);
    SameUnit(a, b, level);
    var pointer := PointerFor(pointers, a);
    if Present(pointer) {
      FindAgrees(m, Frame(pointer), level - 1, a, b, p);
    }
  }

  /** The walk of legacy mode divides the 32-bit space into pages, whatever the tables hold. */
  lemma LegacyPaeWalkPaged(m: Paging, pointers: nat -> nat)
    ensures var w := (lin: nat) => LegacyPaePage(m, pointers, lin);
      Paged(w) && PagesAgree(w)
  {
    forall lin: nat | lin < TWO_32
      ensures PageWith(LegacyPaePage(m, pointers, lin), lin)
    {
      LegacyPaePageOk(m, pointers, lin, LEGACY_LEVELS, LegacyPaePage(m, pointers, lin));
    }
    forall a: nat, b: nat | a < TWO_32 && b < TWO_32
      && var p := LegacyPaePage(m, pointers, a); p.start <= b < p.start + p.size
      ensures LegacyPaePage(m, pointers, b) == LegacyPaePage(m, pointers, a)
    {
      LegacyPaePagesAgree(m, pointers, a, b, LEGACY_LEVELS, LegacyPaePage(m, pointers, a));
    }
  }
}
