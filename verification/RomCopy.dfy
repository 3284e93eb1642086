/** Copying PCI option ROMs into shadow RAM, through 16 KB windows whose access bits sit two to a
    register in the host bridge's configuration space. */
module RomCopy {

  const SHADOW: nat := 0xc_0000      // start of the shadow area
  const SHADOW_END: nat := 0xe_0000  // option ROMs end here
  const WINDOW: nat := 0x4000

  /** Two bits of a register: bit 1 lets writes through to RAM, bit 0 reads. */
  function Field(v: nat, high: bool): nat {
    if high then v / 16 % 4 else v % 4
  }

  /** A register value made of four two-bit fields, the highest first. */
  function Fields(a: nat, b: nat, c: nat, d: nat): nat { 64 * a + 16 * b + 4 * c + d }

  lemma FieldOf(a: nat, b: nat, c: nat, d: nat)
    requires a < 4 && b < 4 && c < 4 && d < 4
    ensures Fields(a, b, c, d) < 256
    ensures Field(Fields(a, b, c, d), true) == b && Field(Fields(a, b, c, d), false) == d
  {
    assert Fields(a, b, c, d) / 16 == 4 * a + b;
  }

  /** `(v & ~(3 << shift)) | (x << shift)` with a shift of 4 or 0. */
  function WithField(v: nat, high: bool, x: nat): (r: nat)
    requires v < 256 && x < 4
    ensures r < 256 && Field(r, high) == x && Field(r, !high) == Field(v, !high)
  {
    FieldOf(v / 64, if high then x else Field(v, true), v / 4 % 4, if high then Field(v, false) else x);
    Fields(v / 64, if high then x else Field(v, true), v / 4 % 4, if high then Field(v, false) else x)
  }

  /** The window an address lies in. */
  function Window(addr: nat): nat { addr / WINDOW }

  /** The register of the host bridge that controls the window at address `a`, and whether it is the upper half of
      that register: 0x5a to 0x5f control 32 KB each, of which the upper half controls the upper 16 KB, and the
      upper half of 0x59 controls what is at 0xf0000 and above. */
  function PamRegister(a: nat): (r: nat)
    ensures 0x59 <= r < 0x60
  {
    if a < 0xc_8000 then 0x5a else if a < 0xd_0000 then 0x5b else if a < 0xd_8000 then 0x5c
    else if a < 0xe_0000 then 0x5d else if a < 0xe_8000 then 0x5e else if a < 0xf_0000 then 0x5f else 0x59
  }

  predicate PamHigh(a: nat) { a % 0x8000 >= 0x4000 || a >= 0xf_0000 }

  /** The register and the half of it that the BIOS takes for window `w`. */
  function Register(w: nat): (r: nat)
    ensures 0x5a <= r < 0x62
  {
    0x5a + w / 2 % 8
  }

  predicate High(w: nat) { w % 2 == 1 }

  /** For the windows of the shadow area they are the right ones. */
  lemma RegisterIsPam(w: nat)
    requires InArea(w)
    ensures Register(w) == PamRegister(w * WINDOW) && (High(w) <==> PamHigh(w * WINDOW))
  {
    assert Window(SHADOW) == 0x30 && Window(SHADOW_END) == 0x38;
  }

  /** `readb(paddr + 2)` counts 512-byte units; the size is rounded up to a multiple of four of them. */
  function RomSize(units: nat): nat {
    (if units % 4 != 0 then units / 4 * 4 + 4 else units) * 512
  }

  /** A ROM that has been copied: from `paddr` to `start`. */
  datatype Rom = Rom(paddr: nat, start: nat, size: nat)

  class Shadow {
    const ram: array<nat>      // the RAM behind the shadow area
    const config: array<nat>   // configuration space of the host bridge
    const bus: nat -> nat      // what the ROM images on the PCI bus hold
    var romStart: nat          // pci_bios_rom_start

    ghost predicate Ok()
      reads this, config
    {
      && ram.Length == SHADOW_END - SHADOW && config.Length == 256
      && (forall r :: 0 <= r < 256 ==> config[r] < 256)
      && SHADOW <= romStart <= SHADOW_END && romStart % 2048 == 0
    }

    constructor (bus: nat -> nat)
      ensures Ok() && romStart == SHADOW && this.bus == bus && fresh(ram) && fresh(config)
    {
      this.bus := bus;
      ram := new nat[SHADOW_END - SHADOW](_ => 0);
      config := new nat[256](_ => 0);
      romStart := SHADOW;
    }

    /** The access bits of window `w`, as the bridge takes them. */
    function Access(w: nat): nat
      requires config.Length == 256
      reads config
    {
      Field(config[PamRegister(w * WINDOW)], PamHigh(w * WINDOW))
    }

    static function AccessIn(registers: seq<nat>, w: nat): nat
      requires |registers| == 256
    {
      Field(registers[PamRegister(w * WINDOW)], PamHigh(w * WINDOW))
    }

    /** A copied ROM reads as it does on the bus, and no window it touches can be written: access bits 1
        let reads through to RAM, and no writes. */
    ghost predicate Loaded(r: Rom)
      requires config.Length == 256 && ram.Length == SHADOW_END - SHADOW
      reads this, ram, config
    {
      && SHADOW <= r.start && r.start + r.size <= romStart <= SHADOW_END
      && forall a: nat {:trigger Window(a)} :: r.start <= a < r.start + r.size ==>
           Access(Window(a)) == 1 && ram[a - SHADOW] == bus(r.paddr + (a - r.start))
    }

    /** Sets the access bits of window `w`. */
    method SetAccess(w: nat, x: nat)
      requires Ok() && x < 4 && InArea(w)
      modifies config
      ensures Ok() && Access(w) == x
      ensures forall u: nat :: SameBits(u, w) || Access(u) == old(Access(u))
      ensures forall u: nat :: InArea(u) && u != w ==> Access(u) == old(Access(u))
    {
      forall u: nat | InArea(u) ensures SameBits(u, w) <==> u == w { OwnBits(u, w); }
      RegisterIsPam(w);
      config[Register(w)] := WithField(config[Register(w)], High(w), x);
    }

    /** A byte write to the area: it reaches RAM only if the window is open for writing. */
    method Store(addr: nat, value: nat)
      requires Ok() && SHADOW <= addr < SHADOW_END
      modifies ram
      ensures ram[..] == if Access(Window(addr)) >= 2 then old(ram[..])[addr - SHADOW := value] else old(ram[..])
    {
      if Access(Window(addr)) >= 2 {
        ram[addr - SHADOW] := value;
      }
    }

    /** `memcpy` of `n` bytes from the bus into the area. */
    method CopyBytes(dst: nat, src: nat, n: nat)
      requires Ok() && SHADOW <= dst && dst + n <= SHADOW_END
      requires n > 0 ==> Window(dst) == Window(dst + n - 1) && Access(Window(dst)) >= 2
      modifies ram
      ensures forall a :: 0 <= a < ram.Length ==>
        ram[a] == if dst <= SHADOW + a < dst + n then bus(src + (SHADOW + a - dst)) else old(ram[a])
    {
      var i := 0;
      while i < n
        invariant 0 <= i <= n
        invariant forall a :: 0 <= a < ram.Length ==>
          ram[a] == if dst <= SHADOW + a < dst + i then bus(src + (SHADOW + a - dst)) else old(ram[a])
      {
        Store(dst + i, bus(src + i));
        i := i + 1;
      }
    }

    /** The loop body: opens the window of `tmpaddr` for writing, copies what fits, and makes the window
        read-only. */
    method CopyChunk(paddr: nat, size: nat, tmpaddr: nat, copied: nat) returns (tmpsize: nat)
      requires Ok() && SHADOW <= tmpaddr && copied <= size && tmpaddr + (size - copied) <= SHADOW_END
      modifies ram, config
      ensures Ok() && tmpsize <= size - copied && (copied < size ==> tmpsize > 0)
      ensures forall a: nat :: tmpaddr <= a < tmpaddr + tmpsize ==> Window(a) == Window(tmpaddr)
      ensures Access(Window(tmpaddr)) == 1
      ensures forall u: nat :: InArea(u) && u != Window(tmpaddr) ==> Access(u) == old(Access(u))
      ensures forall u: nat :: old(Access(u)) == 1 ==> Access(u) == 1
      ensures forall u: nat :: SameBits(u, Window(tmpaddr)) || Access(u) == old(Access(u))
      ensures forall a :: 0 <= a < ram.Length ==>
        ram[a] == if tmpaddr <= SHADOW + a < tmpaddr + tmpsize then bus(paddr + copied + (SHADOW + a - tmpaddr))
                  else old(ram[a])
    {
      tmpsize := WINDOW - tmpaddr % WINDOW;
      if size - copied < tmpsize {
        tmpsize := size - copied;
      }
      WithinWindow(tmpaddr, tmpsize);
      SetAccess(Window(tmpaddr), 2);
      CopyBytes(tmpaddr, paddr + copied, tmpsize);
      SetAccess(Window(tmpaddr), 1);
    }

    /** The loop that copies a ROM chunk by chunk. */
    method CopyRom(paddr: nat, size: nat)
      requires Ok() && romStart + size <= SHADOW_END
      modifies ram, config
      ensures Ok()
      ensures forall a :: 0 <= a < ram.Length ==>
        ram[a] == if romStart <= SHADOW + a < romStart + size then bus(paddr + (SHADOW + a - romStart)) else old(ram[a])
      ensures forall a: nat :: romStart <= a < romStart + size ==> Access(Window(a)) == 1
      ensures forall u: nat :: old(Access(u)) == 1 ==> Access(u) == 1
      ensures forall u: nat :: InArea(u) && !Touched(u, romStart, size) ==> Access(u) == old(Access(u))
    {
      CopyChunks(paddr, size, ram[..], config[..]);
    }

    /** The same, stated as progress. */
    method CopyChunks(paddr: nat, size: nat, ghost before: seq<nat>, ghost registers: seq<nat>)
      requires Ok() && romStart + size <= SHADOW_END && before == ram[..] && registers == config[..]
      modifies ram, config
      ensures Ok() && Progress(before, registers, paddr, size)
    {
      var tmpaddr, copied := romStart, 0;
      var again := true;
      while again
        invariant again == (copied < size || (copied == size == 0 && again))
        invariant tmpaddr == romStart + copied && copied <= size
        invariant Ok() && Progress(before, registers, paddr, copied)
        decreases size - copied, again
      {
        var tmpsize := NextChunk(paddr, size, tmpaddr, copied, before, registers);
        tmpaddr := tmpaddr + tmpsize;
        copied := copied + tmpsize;
        again := copied < size;
      }
    }

    /** `copied` bytes of a ROM have been copied to `romStart`; what RAM and registers held before was
        `before` and `registers`. */
    ghost predicate Progress(before: seq<nat>, registers: seq<nat>, paddr: nat, copied: nat)
      reads this, ram, config
      requires |before| == ram.Length && |registers| == config.Length == 256
    {
      && (forall a :: 0 <= a < ram.Length ==>
            ram[a] == if romStart <= SHADOW + a < romStart + copied then bus(paddr + (SHADOW + a - romStart))
                      else before[a])
      && (forall a: nat {:trigger Window(a)} :: romStart <= a < romStart + copied ==> Access(Window(a)) == 1)
      && (forall u: nat {:trigger Access(u)} :: AccessIn(registers, u) == 1 ==> Access(u) == 1)
      && (forall u: nat {:trigger Access(u)} :: InArea(u) && !Touched(u, romStart, copied) ==>
            Access(u) == AccessIn(registers, u))
    }

    /** Copying a chunk makes progress. */
    method NextChunk(paddr: nat, size: nat, tmpaddr: nat, copied: nat,
                     ghost before: seq<nat>, ghost registers: seq<nat>)
      returns (tmpsize: nat)
      requires Ok() && tmpaddr == romStart + copied && copied <= size && romStart + size <= SHADOW_END
      requires |before| == ram.Length && |registers| == config.Length
      requires copied == 0 || copied < size
      requires Progress(before, registers, paddr, copied)
      modifies ram, config
      ensures Ok() && tmpsize <= size - copied && (copied < size ==> tmpsize > 0)
      ensures Progress(before, registers, paddr, copied + tmpsize)
    {
      tmpsize := CopyChunk(paddr, size, tmpaddr, copied);
      forall a: nat | romStart <= a < romStart + copied
        ensures Access(Window(a)) == 1
      {
        assert old(Access(Window(a))) == 1;
      }
      forall u: nat | InArea(u) && !Touched(u, romStart, copied + tmpsize)
        ensures Access(u) == AccessIn(registers, u)
      {
        TouchedGrows(romStart, copied, tmpsize, u);
      }
    }

    /** `pci_bios_init_pcirom`: `accepted` says whether the ROM was copied. */
    method InitPcirom(paddr: nat) returns (accepted: bool, size: nat)
      requires Ok()
      modifies this`romStart, ram, config
      ensures Ok()
      ensures paddr != 0 ==> size == RomSize(bus(paddr + 2) % 256)
      ensures accepted <==> paddr != 0 && old(romStart) + size <= SHADOW_END
      ensures !accepted ==> romStart == old(romStart) && ram[..] == old(ram[..]) && config[..] == old(config[..])
      ensures accepted ==> romStart == old(romStart) + size
      ensures accepted ==> forall a :: 0 <= a < ram.Length ==>
        ram[a] == if old(romStart) <= SHADOW + a < romStart then bus(paddr + (SHADOW + a - old(romStart)))
                  else old(ram[a])
      ensures accepted ==> forall a: nat :: old(romStart) <= a < romStart ==> Access(Window(a)) == 1
      ensures forall u: nat :: old(Access(u)) == 1 ==> Access(u) == 1
      ensures accepted ==>
        forall u: nat :: InArea(u) && !Touched(u, old(romStart), size) ==> Access(u) == old(Access(u))
    {
      if paddr == 0 {
        return false, 0;
      }
      size := RomSize(bus(paddr + 2) % 256);
      RomSizeAligned(bus(paddr + 2) % 256);
      if romStart + size > SHADOW_END {
        return false, size;
      }
      CopyRom(paddr, size);
      romStart := romStart + size;
      accepted := true;
    }

    /** Copying one more ROM leaves those copied before as they were. */
    method CopyNext(paddr: nat, ghost roms: seq<Rom>) returns (ghost roms': seq<Rom>)
      requires Ok() && romStart == End(roms) && forall k :: 0 <= k < |roms| ==> Loaded(roms[k])
      modifies this`romStart, ram, config
      ensures Ok() && romStart == End(roms') && forall k :: 0 <= k < |roms'| ==> Loaded(roms'[k])
      ensures roms' == Placed(bus, roms, paddr)
    {
      ghost var start := romStart;
      var accepted, size := InitPcirom(paddr);
      forall k | 0 <= k < |roms|
        ensures Loaded(roms[k])
      {
        var r := roms[k];
        assert old(Loaded(r));
        forall a: nat | r.start <= a < r.start + r.size
          ensures Access(Window(a)) == 1 && ram[a - SHADOW] == bus(r.paddr + (a - r.start))
        {
          assert old(Access(Window(a)) == 1 && ram[a - SHADOW] == bus(r.paddr + (a - r.start)));
          assert ram[a - SHADOW] == old(ram[a - SHADOW]) by {
            assert accepted || ram[..][a - SHADOW] == old(ram[..])[a - SHADOW];
          }
        }
      }
      roms' := roms;
      if accepted {
        roms' := roms + [Rom(paddr, start, size)];
        assert Loaded(Rom(paddr, start, size));
      }
    }

    /** The option ROMs of all devices: each one that fits is copied, whole and once, behind the ones
        before it, and all of them are still there in the end. */
    method InitOptroms(paddrs: seq<nat>) returns (ghost roms: seq<Rom>)
      requires Ok() && romStart == SHADOW
      modifies this`romStart, ram, config
      ensures Ok() && roms == AllPlaced(bus, paddrs)
      ensures forall k :: 0 <= k < |roms| ==> Loaded(roms[k])
      ensures romStart == End(roms)
    {
      roms := [];
      var i := 0;
      while i < |paddrs|
        invariant 0 <= i <= |paddrs| && Ok() && romStart == End(roms)
        invariant roms == AllPlaced(bus, paddrs[..i])
        invariant forall k :: 0 <= k < |roms| ==> Loaded(roms[k])
      {
        assert paddrs[..i + 1][..i] == paddrs[..i];
        roms := CopyNext(paddrs[i], roms);
        i := i + 1;
      }
      assert paddrs[..i] == paddrs;
    }
  }

  /** Where the ROMs copied so far end. */
  function End(roms: seq<Rom>): nat {
    if roms == [] then SHADOW else roms[|roms| - 1].start + roms[|roms| - 1].size
  }

  /** The ROM at `paddr` goes behind the others if there is one and it fits. */
  function Placed(bus: nat -> nat, roms: seq<Rom>, paddr: nat): seq<Rom> {
    var size := RomSize(bus(paddr + 2) % 256);
    if paddr != 0 && End(roms) + size <= SHADOW_END then roms + [Rom(paddr, End(roms), size)] else roms
  }

  function AllPlaced(bus: nat -> nat, paddrs: seq<nat>): seq<Rom> {
    if paddrs == [] then [] else Placed(bus, AllPlaced(bus, paddrs[..|paddrs| - 1]), paddrs[|paddrs| - 1])
  }

  ghost predicate Apart(roms: seq<Rom>) {
    && SHADOW <= End(roms) <= SHADOW_END && End(roms) % 2048 == 0
    && (forall k :: 0 <= k < |roms| ==>
          SHADOW <= roms[k].start && roms[k].start % 2048 == 0 && roms[k].start + roms[k].size <= End(roms))
    && (forall j, k :: 0 <= j < k < |roms| ==> roms[j].start + roms[j].size <= roms[k].start)
  }

  lemma OneMoreApart(roms: seq<Rom>, r: Rom)
    requires Apart(roms) && r.start == End(roms) && r.start + r.size <= SHADOW_END && r.size % 2048 == 0
    ensures Apart(roms + [r])
  {
  }

  /** The ranges of copied ROMs are disjoint, in order, inside the area and on 2 KB boundaries. */
  lemma {:induction false} PlacedApart(bus: nat -> nat, paddrs: seq<nat>)
    ensures Apart(AllPlaced(bus, paddrs))
  {
    if paddrs != [] {
      var paddr, before := paddrs[|paddrs| - 1], AllPlaced(bus, paddrs[..|paddrs| - 1]);
      PlacedApart(bus, paddrs[..|paddrs| - 1]);
      var size := RomSize(bus(paddr + 2) % 256);
      RomSizeAligned(bus(paddr + 2) % 256);
      if paddr != 0 && End(before) + size <= SHADOW_END {
        OneMoreApart(before, Rom(paddr, End(before), size));
      }
    }
  }

  lemma RomSizeAligned(units: nat)
    ensures RomSize(units) % 2048 == 0 && units * 512 <= RomSize(units) < units * 512 + 2048
  {
  }

  /** Windows `u` and `w` are controlled by the same bits. */
  predicate SameBits(u: nat, w: nat) {
    PamRegister(u * WINDOW) == PamRegister(w * WINDOW) && PamHigh(u * WINDOW) == PamHigh(w * WINDOW)
  }

  /** Window `w` is one of the shadow area, or the one just behind it. */
  predicate InArea(w: nat) { Window(SHADOW) <= w <= Window(SHADOW_END) }

  /** Each of these windows has bits of its own. */
  lemma OwnBits(u: nat, w: nat)
    requires InArea(u) && InArea(w)
    ensures SameBits(u, w) <==> u == w
  {
  }

  /** Window `u` is opened when `n` bytes are copied to `start`; even an empty ROM opens the window there. */
  predicate Touched(u: nat, start: nat, n: nat) {
    Window(start) <= u <= Window(if n == 0 then start else start + n - 1)
  }

  /** A chunk of `n` bytes touches the window it starts in, besides those touched before. */
  lemma TouchedGrows(start: nat, copied: nat, n: nat, u: nat)
    requires !Touched(u, start, copied + n) && (copied == 0 || n > 0)
    ensures !Touched(u, start, copied) && u != Window(start + copied)
  {
    Ascends(start, start + copied);
    if copied > 0 {
      Ascends(start + copied - 1, start + copied + n - 1);
    }
    if n > 0 {
      Ascends(start, start + copied + n - 1);
      Ascends(start + copied, start + copied + n - 1);
    }
  }

  lemma Ascends(a: nat, b: nat)
    requires a <= b
    ensures Window(a) <= Window(b)
  {
  }

  lemma WithinWindow(addr: nat, n: nat)
    requires n <= WINDOW - addr % WINDOW
    ensures forall a: nat :: addr <= a < addr + n ==> Window(a) == Window(addr)
  {
    forall a: nat | addr <= a < addr + n
      ensures Window(a) == Window(addr)
    {
      SameQuotient(addr, a - addr);
    }
  }

  lemma SameQuotient(addr: nat, i: nat)
    requires i < WINDOW - addr % WINDOW
    ensures (addr + i) / WINDOW == addr / WINDOW
  {
  }
}
