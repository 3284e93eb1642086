/** Assigning addresses to PCI base address registers, from bump-allocated pools. */
module PciBars {
  import opened Arithmetic
  import opened Bits
  import opened Machine

  // ---------------------------------------------------------------- bit masks

  /** `x & ~m` on 32-bit words. */
  function AndNot(a: seq<bool>, b: seq<bool>): (r: seq<bool>)
    requires |a| == |b|
    ensures |r| == |a| && forall i :: 0 <= i < |a| ==> r[i] == (a[i] && !b[i])
  {
    seq(|a|, i requires 0 <= i < |a| => a[i] && !b[i])
  }

  function AndNot32(x: nat, m: nat): nat {
    Value(AndNot(BitsOf(x, 32), BitsOf(m, 32)))
  }

  /** The bits of 2^k - 1: zeros, then k ones. */
  lemma {:induction false} MaskBits(k: nat, m: nat, width: nat, b: seq<bool>)
    requires k <= width && m == Power2(k) - 1 && b == BitsOf(m, width)
    ensures forall i :: 0 <= i < width ==> b[i] == (i >= width - k)
    decreases width
  {
    if width > 0 {
      MaskBits(if k > 0 then k - 1 else 0, m / 2, width - 1, BitsOf(m / 2, width - 1));
      assert BitsOf(m, width) == BitsOf(m / 2, width - 1) + [k > 0];
    }
  }

  lemma MaskedBits(bits: seq<bool>, mask: seq<bool>, k: nat)
    requires |bits| == |mask| == 32 && k <= 32
    requires forall i :: 0 <= i < 32 ==> mask[i] == (i >= 32 - k)
    ensures AndNot(bits, mask) == bits[..32 - k] + Zeros(k)
  {
  }

  lemma ValueSplit(bits: seq<bool>, k: nat, s: nat)
    requires |bits| == 32 && k <= 32 && s == Power2(k)
    ensures var q := Value(bits[..32 - k]);
      && Value(bits[..32 - k] + Zeros(k)) == q * s
      && q * s <= Value(bits) < q * s + s
  {
    var high, low := bits[..32 - k], bits[32 - k..];
    assert bits == high + low;
    ValueConcat(high, low);
    ValueConcat(high, Zeros(k));
    ZerosAreZero(k);
    BitsOfValue(low);
  }

  /** Clearing the low k bits is rounding down to a multiple of 2^k. */
  lemma ClearLow(x: nat, k: nat, s: nat) returns (q: nat)
    requires k <= 32 && x < Power2(32) && s == Power2(k)
    ensures AndNot32(x, s - 1) == q * s && q * s <= x < q * s + s
  {
    var bits, mask := BitsOf(x, 32), BitsOf(s - 1, 32);
    ValueOfBits(x, 32);
    MaskBits(k, s - 1, 32, mask);
    MaskedBits(bits, mask, k);
    ValueSplit(bits, k, s);
    q := Value(bits[..32 - k]);
  }

  /** `(x + s - 1) & ~(s - 1)`. */
  function AlignUp(x: nat, s: nat): nat {
    AndNot32((x + s - 1) % TWO_32, (s - 1) % TWO_32)
  }

  lemma AlignUpClearsLow(x: nat, k: nat, s: nat) returns (q: nat)
    requires k < 32 && s == Power2(k) && x + s - 1 < TWO_32
    ensures AlignUp(x, s) == q * s && q * s <= x + s - 1 < q * s + s
  {
    Power32();
    NoWrap(x + s - 1);
    NoWrap(s - 1);
    q := ClearLow(x + s - 1, k, s);
  }

  ghost predicate MultipleOf(m: nat, s: nat) { exists q: nat :: m == q * s }

  /** Without wrap-around, aligning gives the least multiple of s = 2^k at or above x. */
  lemma AlignUpLeast(x: nat, k: nat, s: nat)
    requires k < 32 && s == Power2(k) && x + s - 1 < TWO_32
    ensures MultipleOf(AlignUp(x, s), s) && x <= AlignUp(x, s) < x + s
    ensures forall m: nat :: MultipleOf(m, s) && x <= m ==> AlignUp(x, s) <= m
  {
    var q := AlignUpClearsLow(x, k, s);
    forall m: nat | MultipleOf(m, s) && x <= m
      ensures AlignUp(x, s) <= m
    {
      var p: nat :| m == p * s;
      MultiplesApart(q, p, s);
    }
  }

  lemma NoWrap(x: nat)
    requires x < TWO_32
    ensures x % TWO_32 == x
  {
  }

  // ---------------------------------------------------------------- the reference layout

  /** Ports and memory, on bus 0 and behind the AGP bridge. */
  datatype Pool = Io | AgpIo | Mem | AgpMem

  /** The next free address of each pool. */
  datatype Addresses = Addresses(io: nat, agpIo: nat, mem: nat, agpMem: nat) {
    function At(p: Pool): nat {
      match p
      case Io => io
      case AgpIo => agpIo
      case Mem => mem
      case AgpMem => agpMem
    }

    function With(p: Pool, v: nat): (r: Addresses)
      ensures forall q {:trigger r.At(q)} :: r.At(q) == if q == p then v else At(q)
    {
      match p
      case Io => this.(io := v)
      case AgpIo => this.(agpIo := v)
      case Mem => this.(mem := v)
      case AgpMem => this.(agpMem := v)
    }
  }

  datatype Bar = Bar(pool: Pool, base: nat, size: nat)

  /** A device: its bus, and what each of its regions reads back (0 for a region it does not have). */
  datatype Device = Device(bus: nat, regions: seq<nat>)

  /** What a region reads back after all ones have been written to it: its address bits are ones from
      bit k up, the low four bits are flags. */
  ghost predicate Implements(val: nat, k: nat) {
    val < TWO_32 && 4 <= k < 32 && val - val % 16 == TWO_32 - Power2(k)
  }

  ghost predicate RegionOk(val: nat) {
    val == 0 || exists k :: Implements(val, k)
  }

  ghost predicate RegionsOk(vals: seq<nat>) {
    forall i :: 0 <= i < |vals| ==> RegionOk(vals[i])
  }

  ghost predicate DevicesOk(devices: seq<Device>) {
    forall n :: 0 <= n < |devices| ==> RegionsOk(devices[n].regions)
  }

  /** `(~(val & ~0xf)) + 1` on 32 bits. */
  function SizeOf(val: nat): nat {
    (TWO_32 - (val - val % 16)) % TWO_32
  }

  function PoolOf(bus: nat, val: nat): Pool {
    if val % 2 == 1 then (if bus == 1 then AgpIo else Io) else (if bus == 1 then AgpMem else Mem)
  }

  /** How far the next free address moves on behind a region. */
  function Step(p: Pool, size: nat): nat {
    var least := if IsPort(p) then 0x10 else 0x1_0000;
    if size < least then least else size
  }

  function RoundUp(x: nat, s: nat): nat {
    if s == 0 then x else (x + s - 1) / s * s
  }

  /** What has been handed out, in unbounded numbers. */
  datatype Layout = Layout(free: Addresses, bars: seq<Bar>)

  function Assign(l: Layout, bus: nat, val: nat): Layout {
    if val == 0 then l else
    var p, size := PoolOf(bus, val), SizeOf(val);
    var base := RoundUp(l.free.At(p), size);
    Layout(l.free.With(p, base + Step(p, size)), l.bars + [Bar(p, base, size)])
  }

  function AssignRegions(l: Layout, bus: nat, vals: seq<nat>): Layout {
    if vals == [] then l else
    Assign(AssignRegions(l, bus, vals[..|vals| - 1]), bus, vals[|vals| - 1])
  }

  function AssignDevices(l: Layout, devices: seq<Device>): Layout {
    if devices == [] then l else
    var d := devices[|devices| - 1];
    AssignRegions(AssignDevices(l, devices[..|devices| - 1]), d.bus, d.regions)
  }

  /** Before any device has been looked at. */
  function Start(): Layout {
    Layout(Addresses(0xc000, 0xe000, 0xc000_0000, 0xd000_0000), [])
  }

  /** No pool has run past the end of the 32-bit address space; it may end there. */
  ghost predicate Fits(a: Addresses) {
    forall p {:trigger a.At(p)} :: a.At(p) <= TWO_32
  }

  /** The addresses as 32-bit variables hold them. */
  function Wrapped(a: Addresses): (r: Addresses)
    ensures forall p {:trigger r.At(p)} :: r.At(p) == a.At(p) % TWO_32
  {
    Addresses(a.io % TWO_32, a.agpIo % TWO_32, a.mem % TWO_32, a.agpMem % TWO_32)
  }

  lemma WrappedWith(a: Addresses, p: Pool, v: nat)
    ensures Wrapped(a).With(p, v % TWO_32) == Wrapped(a.With(p, v))
  {
  }

  /** Ranges of the same pool do not overlap. */
  ghost predicate Disjoint(bs: seq<Bar>) {
    forall i, j :: 0 <= i < j < |bs| && bs[i].pool == bs[j].pool ==> bs[i].base + bs[i].size <= bs[j].base
  }

  /** Ranges are disjoint within their pool, aligned to their size, and between the start of their pool and
      its next free address. */
  ghost predicate PoolsOk(l: Layout) {
    && Disjoint(l.bars)
    && (forall p {:trigger l.free.At(p)} :: Start().free.At(p) <= l.free.At(p))
    && forall i :: 0 <= i < |l.bars| ==>
         MultipleOf(l.bars[i].base, l.bars[i].size)
         && Start().free.At(l.bars[i].pool) <= l.bars[i].base
         && l.bars[i].base + l.bars[i].size <= l.free.At(l.bars[i].pool)
  }

  /** Ranges of the same address space, ports or memory, do not overlap. */
  ghost predicate SpacesDisjoint(bs: seq<Bar>) {
    forall i, j :: 0 <= i < |bs| && 0 <= j < |bs| && i != j && IsPort(bs[i].pool) == IsPort(bs[j].pool) ==>
      bs[i].base + bs[i].size <= bs[j].base || bs[j].base + bs[j].size <= bs[i].base
  }

  predicate IsPort(p: Pool) { p.Io? || p.AgpIo? }

  /** The pools of one address space do not meet either, as long as the pool of bus 0 has not run into that of
      the AGP bridge. */
  lemma SpacesApart(l: Layout)
    requires PoolsOk(l) && l.free.io <= Start().free.agpIo && l.free.mem <= Start().free.agpMem
    ensures SpacesDisjoint(l.bars)
  {
    forall i, j | 0 <= i < |l.bars| && 0 <= j < |l.bars| && i != j && IsPort(l.bars[i].pool) == IsPort(l.bars[j].pool)
      ensures l.bars[i].base + l.bars[i].size <= l.bars[j].base || l.bars[j].base + l.bars[j].size <= l.bars[i].base
    {
      var a, b := l.bars[i], l.bars[j];
      if a.pool != b.pool {
        assert l.free.At(a.pool) <= Start().free.At(b.pool) || l.free.At(b.pool) <= Start().free.At(a.pool);
      }
    }
  }

  lemma Allocate(l: Layout, b: Bar, next: nat)
    requires PoolsOk(l) && MultipleOf(b.base, b.size)
    requires l.free.At(b.pool) <= b.base && b.base + b.size <= next
    ensures PoolsOk(Layout(l.free.With(b.pool, next), l.bars + [b]))
  {
  }

  lemma RoundUpBounds(x: nat, s: nat)
    requires s >= 1
    ensures x <= RoundUp(x, s) < x + s && MultipleOf(RoundUp(x, s), s)
  {
    var n := x + s - 1;
    DivMod(n, s);
    assert RoundUp(x, s) == n / s * s;
  }

  lemma SizeIs(val: nat, k: nat)
    requires Implements(val, k)
    ensures SizeOf(val) == Power2(k)
  {
    Power2Less(k, 32);
    Power32();
  }

  ghost predicate SizeOfBits(size: nat, k: nat) { 4 <= k < 32 && size == Power2(k) }

  /** The size that is decoded is a power of two exactly if the address bits are contiguous. */
  lemma ContiguousIff(val: nat)
    requires 0 < val < TWO_32
    ensures RegionOk(val) <==> exists k :: SizeOfBits(SizeOf(val), k)
  {
    if RegionOk(val) {
      var k :| Implements(val, k);
      SizeIs(val, k);
      assert SizeOfBits(SizeOf(val), k);
    }
    if k :| SizeOfBits(SizeOf(val), k) {
      Power2Less(k, 32);
      Power32();
      assert Implements(val, k);
    }
  }

  /** An I/O region that decodes 16 address bits only, and implements 32 ports, is taken for one of nearly
      4 GB. */
  lemma SixteenBitDecoder()
    ensures !RegionOk(0xffe1) && SizeOf(0xffe1) == 0xffff_0020
  {
    forall k ensures !Implements(0xffe1, k) {
      if Implements(0xffe1, k) {
        Power32();
        if k < 31 {
          Power2Less(k, 31);
        }
      }
    }
  }

  /** A region goes behind those before it in its pool, and no pool shrinks. */
  lemma AssignOk(l: Layout, bus: nat, val: nat)
    requires PoolsOk(l) && RegionOk(val)
    ensures PoolsOk(Assign(l, bus, val))
    ensures Fits(Assign(l, bus, val).free) ==> Fits(l.free)
  {
    if val != 0 {
      var k :| Implements(val, k);
      SizeIs(val, k);
      var p, size := PoolOf(bus, val), SizeOf(val);
      var base := RoundUp(l.free.At(p), size);
      RoundUpBounds(l.free.At(p), size);
      Allocate(l, Bar(p, base, size), base + Step(p, size));
      var next := Assign(l, bus, val).free;
      assert forall q: Pool {:trigger l.free.At(q)} :: l.free.At(q) <= next.At(q);
    }
  }

  lemma {:induction false} AssignRegionsOk(l: Layout, bus: nat, vals: seq<nat>)
    requires PoolsOk(l) && RegionsOk(vals)
    ensures PoolsOk(AssignRegions(l, bus, vals))
  {
    if vals != [] {
      AssignRegionsOk(l, bus, vals[..|vals| - 1]);
      AssignOk(AssignRegions(l, bus, vals[..|vals| - 1]), bus, vals[|vals| - 1]);
    }
  }

  /** Over all devices and regions, the ranges taken from one pool are disjoint, and each is aligned to its
      size. */
  lemma {:induction false} AssignDevicesOk(devices: seq<Device>)
    requires DevicesOk(devices)
    ensures PoolsOk(AssignDevices(Start(), devices))
  {
    if devices != [] {
      var before, d := devices[..|devices| - 1], devices[|devices| - 1];
      AssignDevicesOk(before);
      AssignRegionsOk(AssignDevices(Start(), before), d.bus, d.regions);
    }
  }

  // ---------------------------------------------------------------- the code

  /** The masks compute the reference rounding as long as nothing wraps. */
  lemma AlignUpIsRoundUp(x: nat, k: nat, s: nat)
    requires k < 32 && s == Power2(k) && x + s - 1 < TWO_32
    ensures AlignUp(x, s) == RoundUp(x, s)
  {
    var q := AlignUpClearsLow(x, k, s);
    QuotientIs(x + s - 1, s, q);
  }

  /** A region whose range ends within 32 bits is placed as in the reference layout. */
  lemma RegionFits(bus: nat, val: nat, free: nat, base: nat)
    requires val != 0 && RegionOk(val) && base == AlignUp(free % TWO_32, SizeOf(val))
    requires RoundUp(free, SizeOf(val)) + Step(PoolOf(bus, val), SizeOf(val)) <= TWO_32
    ensures base == RoundUp(free, SizeOf(val))
  {
    var k :| Implements(val, k);
    SizeIs(val, k);
    var size := SizeOf(val);
    RoundUpBounds(free, size);
    NoWrap(free);
    AlignUpIsRoundUp(free, k, size);
  }

  lemma RegionFollows(l: Layout, addr: Addresses, bus: nat, val: nat, base: nat)
    requires val != 0 && RegionOk(val) && addr == Wrapped(l.free)
    requires base == AlignUp(addr.At(PoolOf(bus, val)), SizeOf(val))
    ensures var p, size, next := PoolOf(bus, val), SizeOf(val), Assign(l, bus, val);
      Fits(next.free) ==>
        && addr.With(p, (base + Step(p, size)) % TWO_32) == Wrapped(next.free)
        && l.bars + [Bar(p, base, size)] == next.bars
  {
    var p, size, next := PoolOf(bus, val), SizeOf(val), Assign(l, bus, val).free;
    assert next.At(p) == RoundUp(l.free.At(p), size) + Step(p, size);
    if Fits(next) {
      RegionFits(bus, val, l.free.At(p), base);
      WrappedWith(l.free, p, base + Step(p, size));
    }
  }

  class Allocator {
    var addr: Addresses
    var bars: seq<Bar>

    /** What the allocator would have handed out in unbounded numbers. */
    ghost var layout: Layout

    /** The allocator follows the reference layout until a pool runs past the end of the address space. */
    ghost predicate Valid()
      reads this
    {
      PoolsOk(layout) && (Fits(layout.free) ==> addr == Wrapped(layout.free) && bars == layout.bars)
    }

    constructor ()
      ensures Valid() && layout == Start()
    {
      addr := Addresses(0xc000, 0xe000, 0xc000_0000, 0xd000_0000);
      bars := [];
      layout := Start();
    }

    /** The next free address of pool `p`, aligned. */
    method AlignPool(p: Pool, size: nat) returns (base: nat)
      ensures base == AlignUp(addr.At(p), size)
    {
      base := AlignUp(addr.At(p), size);
    }

    /** One region. */
    method AssignRegion(bus: nat, val: nat)
      requires Valid() && RegionOk(val)
      modifies this
      ensures Valid() && layout == Assign(old(layout), bus, val)
    {
      AssignOk(layout, bus, val);
      ghost var next := Assign(layout, bus, val);
      if val != 0 {
        var p, size := PoolOf(bus, val), SizeOf(val);
        var base := AlignPool(p, size);
        if Fits(next.free) {
          RegionFollows(layout, addr, bus, val, base);
        }
        addr := addr.With(p, (base + Step(p, size)) % TWO_32);
        bars := bars + [Bar(p, base, size)];
      }
      layout := next;
    }

    /** The regions of one device. */
    method InitDevice(bus: nat, vals: seq<nat>)
      requires Valid() && RegionsOk(vals)
      modifies this
      ensures Valid() && layout == AssignRegions(old(layout), bus, vals)
    {
      var i := 0;
      while i < |vals|
        invariant 0 <= i <= |vals| && Valid() && layout == AssignRegions(old(layout), bus, vals[..i])
      {
        assert vals[..i + 1][..i] == vals[..i];
        AssignRegion(bus, vals[i]);
        i := i + 1;
      }
      assert vals[..i] == vals;
    }

    /** `pci_for_each_device(pci_bios_init_device)` for the devices that take the default mapping. */
    method InitDevices(devices: seq<Device>)
      requires Valid() && DevicesOk(devices)
      modifies this
      ensures Valid() && layout == AssignDevices(old(layout), devices)
    {
      var n := 0;
      while n < |devices|
        invariant 0 <= n <= |devices| && Valid() && layout == AssignDevices(old(layout), devices[..n])
      {
        assert devices[..n + 1][..n] == devices[..n];
        InitDevice(devices[n].bus, devices[n].regions);
        n := n + 1;
      }
      assert devices[..n] == devices;
    }
  }
}
