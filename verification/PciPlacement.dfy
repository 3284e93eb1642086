/** Where the base address registers end up, said of the devices alone: by bus, and by what a region reads back. */
module PciPlacement {
  import opened Arithmetic
  import opened Machine
  import opened PciBars

  /** A region that a device has: its bus, and what it reads back. */
  datatype Request = Request(bus: nat, val: nat)

  function RequestsOf(bus: nat, vals: seq<nat>): seq<Request> {
    if vals == [] then [] else
    var last := vals[|vals| - 1];
    RequestsOf(bus, vals[..|vals| - 1]) + if last == 0 then [] else [Request(bus, last)]
  }

  /** The regions of all devices, in order, without those that read back 0. */
  function Requests(devices: seq<Device>): seq<Request> {
    if devices == [] then [] else
    var d := devices[|devices| - 1];
    Requests(devices[..|devices| - 1]) + RequestsOf(d.bus, d.regions)
  }

  /** Bit 0 says ports or memory; what is on bus 1 is behind the AGP bridge. */
  predicate OfKind(r: Request, agp: bool, port: bool) {
    (r.bus == 1 <==> agp) && (r.val % 2 == 1 <==> port)
  }

  function FirstFree(agp: bool, port: bool): nat {
    if port then (if agp then 0xe000 else 0xc000) else (if agp then 0xd000_0000 else 0xc000_0000)
  }

  /** The first address behind the last range of a kind, which takes at least 16 ports or 64 KB. */
  function FreeFor(rs: seq<Request>, bs: seq<Bar>, agp: bool, port: bool): nat
    requires |rs| == |bs|
  {
    if rs == [] then FirstFree(agp, port) else
    var n := |rs| - 1;
    if OfKind(rs[n], agp, port) then bs[n].base + Max(bs[n].size, if port then 0x10 else 0x1_0000)
    else FreeFor(rs[..n], bs[..n], agp, port)
  }

  function Max(a: nat, b: nat): nat { if a < b then b else a }

  /** A range has the size that the region implements, and lies at the least multiple of it that is free. */
  ghost predicate PlacedFrom(r: Request, b: Bar, free: nat) {
    && b.size + (r.val - r.val % 16) == TWO_32
    && MultipleOf(b.base, b.size) && free <= b.base < free + b.size
  }

  /** The ranges correspond to the regions, one to one and in order. */
  ghost predicate WellPlaced(rs: seq<Request>, bs: seq<Bar>) {
    && |bs| == |rs|
    && forall i :: 0 <= i < |rs| ==>
         PlacedFrom(rs[i], bs[i], FreeFor(rs[..i], bs[..i], rs[i].bus == 1, rs[i].val % 2 == 1))
  }

  // ---------------------------------------------------------------- what follows

  lemma WellPlacedBefore(rs: seq<Request>, bs: seq<Bar>, n: nat)
    requires WellPlaced(rs, bs) && n <= |rs|
    ensures WellPlaced(rs[..n], bs[..n])
  {
    forall i | 0 <= i < n
      ensures PlacedFrom(rs[i], bs[i], FreeFor(rs[..n][..i], bs[..n][..i], rs[i].bus == 1, rs[i].val % 2 == 1))
    {
      assert rs[..n][..i] == rs[..i] && bs[..n][..i] == bs[..i];
    }
  }

  /** Nothing of a kind is free below its first address. */
  lemma {:induction false} FreeAbove(rs: seq<Request>, bs: seq<Bar>, agp: bool, port: bool)
    requires WellPlaced(rs, bs)
    ensures FirstFree(agp, port) <= FreeFor(rs, bs, agp, port)
  {
    if rs != [] {
      var n := |rs| - 1;
      WellPlacedBefore(rs, bs, n);
      FreeAbove(rs[..n], bs[..n], agp, port);
      LastPlaced(rs, bs, agp, port);
    }
  }

  /** The last range, if it is of the kind, lies behind what was free before. */
  lemma LastPlaced(rs: seq<Request>, bs: seq<Bar>, agp: bool, port: bool)
    requires WellPlaced(rs, bs) && rs != []
    ensures var n := |rs| - 1;
      var free, free' := FreeFor(rs[..n], bs[..n], agp, port), FreeFor(rs, bs, agp, port);
      && free <= free'
      && (OfKind(rs[n], agp, port) ==> free <= bs[n].base && bs[n].base + bs[n].size <= free')
  {
    var n := |rs| - 1;
    assert PlacedFrom(rs[n], bs[n], FreeFor(rs[..n], bs[..n], rs[n].bus == 1, rs[n].val % 2 == 1));
  }

  /** The ranges of a kind lie between its first address and where it is free again. */
  lemma {:induction false} InKind(rs: seq<Request>, bs: seq<Bar>, i: nat, agp: bool, port: bool)
    requires WellPlaced(rs, bs) && i < |rs| && OfKind(rs[i], agp, port)
    ensures FirstFree(agp, port) <= bs[i].base && bs[i].base + bs[i].size <= FreeFor(rs, bs, agp, port)
  {
    var n := |rs| - 1;
    WellPlacedBefore(rs, bs, n);
    LastPlaced(rs, bs, agp, port);
    if i < n {
      InKind(rs[..n], bs[..n], i, agp, port);
    } else {
      FreeAbove(rs[..n], bs[..n], agp, port);
    }
  }

  predicate Apart(a: Bar, b: Bar) {
    a.base + a.size <= b.base || b.base + b.size <= a.base
  }

  lemma LaterIsBehind(rs: seq<Request>, bs: seq<Bar>, i: nat, j: nat, agp: bool, port: bool)
    requires WellPlaced(rs, bs) && i < j < |rs|
    requires OfKind(rs[i], agp, port) && OfKind(rs[j], agp, port)
    ensures bs[i].base + bs[i].size <= bs[j].base
  {
    WellPlacedBefore(rs, bs, j);
    InKind(rs[..j], bs[..j], i, agp, port);
    assert PlacedFrom(rs[j], bs[j], FreeFor(rs[..j], bs[..j], agp, port));
  }

  /** Ports get port addresses, memory gets memory addresses, behind the AGP bridge the upper ones.  As long as
      bus 0 has not run into the addresses of the AGP bridge, no two ranges of one address space overlap; and
      if the ports of the AGP bridge do not run past the last port, no range of ports does. */
  lemma SpacesUsed(rs: seq<Request>, bs: seq<Bar>)
    requires WellPlaced(rs, bs)
    ensures forall i :: 0 <= i < |rs| ==>
      bs[i].base >= if rs[i].val % 2 == 1 then (if rs[i].bus == 1 then 0xe000 else 0xc000)
                    else if rs[i].bus == 1 then 0xd000_0000 else 0xc000_0000
    ensures FreeFor(rs, bs, false, true) <= 0xe000 && FreeFor(rs, bs, false, false) <= 0xd000_0000 ==>
      forall i, j :: 0 <= i < j < |rs| && rs[i].val % 2 == rs[j].val % 2 ==> Apart(bs[i], bs[j])
    ensures FreeFor(rs, bs, false, true) <= 0xe000 && FreeFor(rs, bs, true, true) <= 0x1_0000 ==>
      forall i :: 0 <= i < |rs| && rs[i].val % 2 == 1 ==> bs[i].base + bs[i].size <= 0x1_0000
  {
    forall i | 0 <= i < |rs|
      ensures var agp, port := rs[i].bus == 1, rs[i].val % 2 == 1;
        FirstFree(agp, port) <= bs[i].base && bs[i].base + bs[i].size <= FreeFor(rs, bs, agp, port)
    {
      InKind(rs, bs, i, rs[i].bus == 1, rs[i].val % 2 == 1);
    }
    forall i, j | 0 <= i < j < |rs| && rs[i].val % 2 == rs[j].val % 2 && (rs[i].bus == 1 <==> rs[j].bus == 1)
      ensures Apart(bs[i], bs[j])
    {
      LaterIsBehind(rs, bs, i, j, rs[i].bus == 1, rs[i].val % 2 == 1);
    }
  }

  // ---------------------------------------------------------------- the layout is placed so

  /** The next free addresses are those behind the ranges handed out. */
  ghost predicate FreeOk(free: Addresses, rs: seq<Request>, bs: seq<Bar>)
    requires |rs| == |bs|
  {
    && free.io == FreeFor(rs, bs, false, true) && free.agpIo == FreeFor(rs, bs, true, true)
    && free.mem == FreeFor(rs, bs, false, false) && free.agpMem == FreeFor(rs, bs, true, false)
  }

  ghost predicate Placed(l: Layout, rs: seq<Request>) {
    WellPlaced(rs, l.bars) && FreeOk(l.free, rs, l.bars)
  }

  lemma OneMorePlaced(rs: seq<Request>, bs: seq<Bar>, r: Request, b: Bar)
    requires WellPlaced(rs, bs)
    requires PlacedFrom(r, b, FreeFor(rs, bs, r.bus == 1, r.val % 2 == 1))
    ensures WellPlaced(rs + [r], bs + [b])
  {
    var rs', bs' := rs + [r], bs + [b];
    forall i | 0 <= i < |rs'|
      ensures PlacedFrom(rs'[i], bs'[i], FreeFor(rs'[..i], bs'[..i], rs'[i].bus == 1, rs'[i].val % 2 == 1))
    {
      assert i < |rs| ==> rs'[..i] == rs[..i] && bs'[..i] == bs[..i];
      assert i == |rs| ==> rs'[..i] == rs && bs'[..i] == bs;
    }
  }

  lemma FreeForOneMore(rs: seq<Request>, bs: seq<Bar>, r: Request, b: Bar, agp: bool, port: bool)
    requires |rs| == |bs|
    ensures FreeFor(rs + [r], bs + [b], agp, port)
         == if OfKind(r, agp, port) then b.base + Max(b.size, if port then 0x10 else 0x1_0000)
            else FreeFor(rs, bs, agp, port)
  {
    assert (rs + [r])[..|rs|] == rs && (bs + [b])[..|bs|] == bs;
  }

  lemma AssignPlaced(l: Layout, rs: seq<Request>, bus: nat, val: nat)
    requires Placed(l, rs) && RegionOk(val) && val != 0
    ensures Placed(Assign(l, bus, val), rs + [Request(bus, val)])
  {
    var k :| Implements(val, k);
    SizeIs(val, k);
    var r, p, size := Request(bus, val), PoolOf(bus, val), SizeOf(val);
    var b := Bar(p, RoundUp(l.free.At(p), size), size);
    RoundUpBounds(l.free.At(p), size);
    OneMorePlaced(rs, l.bars, r, b);
    FreeForOneMore(rs, l.bars, r, b, false, false);
    FreeForOneMore(rs, l.bars, r, b, false, true);
    FreeForOneMore(rs, l.bars, r, b, true, false);
    FreeForOneMore(rs, l.bars, r, b, true, true);
  }

  lemma {:induction false} RegionsPlaced(l: Layout, rs: seq<Request>, bus: nat, vals: seq<nat>)
    requires Placed(l, rs) && RegionsOk(vals)
    ensures Placed(AssignRegions(l, bus, vals), rs + RequestsOf(bus, vals))
  {
    if vals == [] {
      assert rs + RequestsOf(bus, vals) == rs;
    } else {
      var before, last := vals[..|vals| - 1], vals[|vals| - 1];
      var so := RequestsOf(bus, before);
      RegionsPlaced(l, rs, bus, before);
      if last == 0 {
        assert RequestsOf(bus, vals) == so;
      } else {
        assert rs + (so + [Request(bus, last)]) == (rs + so) + [Request(bus, last)];
        AssignPlaced(AssignRegions(l, bus, before), rs + so, bus, last);
      }
    }
  }

  lemma {:induction false} DevicesPlaced(devices: seq<Device>)
    requires DevicesOk(devices)
    ensures Placed(AssignDevices(Start(), devices), Requests(devices))
  {
    if devices != [] {
      var before, d := devices[..|devices| - 1], devices[|devices| - 1];
      DevicesPlaced(before);
      RegionsPlaced(AssignDevices(Start(), before), Requests(before), d.bus, d.regions);
    }
  }

  /** `pci_bios_init`, for the devices that take the default mapping: as long as no pool has run past the end of
      the address space, every region that exists gets its own range, of its size, at the least multiple of the
      size that is free for its kind. */
  method PciBiosInit(devices: seq<Device>) returns (a: Allocator)
    requires DevicesOk(devices)
    ensures fresh(a) && a.Valid() && Placed(a.layout, Requests(devices))
    ensures Fits(a.layout.free) ==> WellPlaced(Requests(devices), a.bars)
  {
    a := new Allocator();
    a.InitDevices(devices);
    DevicesPlaced(devices);
  }
}
