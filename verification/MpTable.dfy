/** The multiprocessor tables that the BIOS builds, and how sections 4.1 to 4.3 of the Intel
    MultiProcessor Specification 1.4 read them. */
module MpTable {
  import opened Machine

  // ---------------------------------------------------------------- reading a table

  datatype Entry =
    | Processor(apicId: byte, version: byte, flags: byte, signature: nat, features: nat)
    | Bus(busId: byte, name: seq<byte>)
    | IoApic(ioApicId: byte, ioVersion: byte, ioFlags: byte, address: nat)
    | IoInterrupt(kind: byte, polarity: nat, sourceBus: byte, sourceIrq: byte, destination: byte, input: byte)
    | LocalInterrupt(data: seq<byte>)

  function Word(b: seq<byte>): nat
    requires |b| == 2
  {
    b[0] as nat + 256 * b[1] as nat
  }

  function Dword(b: seq<byte>): nat
    requires |b| == 4
  {
    b[0] as nat + 0x100 * b[1] as nat + 0x1_0000 * b[2] as nat + 0x100_0000 * b[3] as nat
  }

  /** An entry is 20 bytes long for a processor, 8 for anything else. */
  function EntrySize(kind: byte): nat { if kind == 0 then 20 else 8 }

  function ReadEntry(b: seq<byte>): Option<Entry>
    requires b != [] && |b| == EntrySize(b[0])
  {
    if b[0] == 0 then Some(Processor(b[1], b[2], b[3], Dword(b[4..8]), Dword(b[8..12])))
    else if b[0] == 1 then Some(Bus(b[1], b[2..8]))
    else if b[0] == 2 then Some(IoApic(b[1], b[2], b[3], Dword(b[4..8])))
    else if b[0] == 3 then Some(IoInterrupt(b[1], Word(b[2..4]), b[4], b[5], b[6], b[7]))
    else if b[0] == 4 then Some(LocalInterrupt(b[1..8]))
    else None
  }

  /** Reads `count` entries, which must use up `b` exactly. */
  function ReadEntries(b: seq<byte>, count: nat): Option<seq<Entry>>
    decreases count
  {
    if count == 0 then (if b == [] then Some([]) else None)
    else if b == [] || |b| < EntrySize(b[0]) then None
    else
      var size := EntrySize(b[0]);
      match (ReadEntry(b[..size]), ReadEntries(b[size..], count - 1))
      case (Some(e), Some(es)) => Some([e] + es)
      case _ => None
  }

  /** The bytes sum to 0 modulo 256. */
  predicate ChecksumOk(b: seq<byte>) { Sum(b) % 256 == 0 }

  function Sum(b: seq<byte>): nat {
    if b == [] then 0 else Sum(b[..|b| - 1]) + b[|b| - 1] as nat
  }

  /** Reads a configuration table: signature, length, checksum, then the entries. */
  function ReadTable(b: seq<byte>): Option<seq<Entry>> {
    if |b| < 44 || b[..4] != Str("PCMP") || Word(b[4..6]) != |b| || !ChecksumOk(b) then None
    else ReadEntries(b[44..], Word(b[34..36]))
  }

  /** The header of a configuration table. */
  datatype Header = Header(
    revision: byte, oem: seq<byte>, product: seq<byte>, oemTable: nat, oemSize: nat, entries: nat, localApic: nat,
    extendedLength: nat, extendedChecksum: byte)

  function ReadHeader(b: seq<byte>): Option<Header> {
    if |b| < 44 then None
    else Some(Header(b[6], b[8..16], b[16..28], Dword(b[28..32]), Word(b[32..34]), Word(b[34..36]), Dword(b[36..40]),
                     Word(b[40..42]), b[42]))
  }

  /** Reads a floating pointer structure of version 1.4: the address of the table.  Its first feature byte is 0, as
      there is a table, and the second is 0, as there is no IMCR. */
  function ReadPointer(b: seq<byte>): Option<nat> {
    if |b| != 16 || b[..4] != Str("_MP_") || b[8] != 1 || b[9] != 4 || !ChecksumOk(b) || b[11] != 0 || b[12] != 0
    then None
    else Some(Dword(b[4..8]))
  }

  // ---------------------------------------------------------------- the bytes that are written

  function Str(s: string): (r: seq<byte>)
    ensures |r| == |s|
  {
    seq(|s|, i requires 0 <= i < |s| => (s[i] as int % 256) as byte)
  }

  function Le16(v: nat): (r: seq<byte>)
    ensures |r| == 2 && (v < 0x1_0000 ==> Word(r) == v)
  {
    [(v % 256) as byte, (v / 256 % 256) as byte]
  }

  function Le32(v: nat): (r: seq<byte>)
    ensures |r| == 4
  {
    [(v % 256) as byte, (v / 0x100 % 256) as byte, (v / 0x1_0000 % 256) as byte, (v / 0x100_0000 % 256) as byte]
  }

  lemma Le32Reads(v: nat)
    requires v < 0x1_0000_0000
    ensures Dword(Le32(v)) == v
  {
    assert v / 0x100 / 0x100 == v / 0x1_0000 && v / 0x1_0000 / 0x100 == v / 0x100_0000;
  }

  /** What the CPU reports about itself; a signature of 0 stands for no CPUID instruction. */
  datatype Cpuid = Cpuid(signature: nat, features: nat)

  predicate CpuidOk(c: Cpuid) { c.signature < 0x1_0000_0000 && c.features < 0x1_0000_0000 }

  function TableHeader(cpus: nat): (r: seq<byte>)
    ensures |r| == 44
  {
    HeaderStart() + HeaderEnd(cpus)
  }

  /** Signature, length (patched later), revision, checksum (patched later), OEM and product. */
  function HeaderStart(): (r: seq<byte>)
    ensures |r| == 28
  {
    Str("PCMP") + Le16(0) + [4, 0] + Str("BOCHSCPU") + Str("0.1         ")
  }

  /** OEM table, entry count, local APIC address, extended table. */
  function HeaderEnd(cpus: nat): (r: seq<byte>)
    ensures |r| == 16
  {
    Le32(0) + Le16(0) + Le16(cpus + 17) + Le32(0xfee0_0000) + Le16(0) + [0, 0]
  }

  function ProcessorBytes(i: nat, c: Cpuid): (r: seq<byte>)
    requires i < 256
    ensures |r| == 20
  {
    ProcessorStart(i) + CpuidBytes(c) + Reserved()
  }

  function ProcessorStart(i: nat): (r: seq<byte>)
    requires i < 256
    ensures |r| == 4
  {
    [0, i as byte, 0x11, if i == 0 then 3 else 1]
  }

  function Reserved(): (r: seq<byte>)
    ensures |r| == 8
  {
    [0, 0, 0, 0, 0, 0, 0, 0]
  }

  /** Signature and features: those of an early Pentium Pro if the CPU has no CPUID instruction. */
  function CpuidBytes(c: Cpuid): (r: seq<byte>)
    ensures |r| == 8
  {
    if c.signature != 0 then Le32(c.signature) + Le32(c.features) else [0, 6, 0, 0] + Le16(0x201) + Le16(0)
  }

  function BusBytes(): (r: seq<byte>)
    ensures |r| == 8
  {
    [1, 0] + Str("ISA   ")
  }

  function IoApicBytes(id: nat): (r: seq<byte>)
    requires id < 256
    ensures |r| == 8
  {
    [2, id as byte, 0x11, 1] + Le32(0xfec0_0000)
  }

  /** The input of the I/O APIC for `irq`: interrupt 0 goes to the one that interrupt 2 does not use. */
  function IrqInput(irq: nat): nat { if irq == 0 then 2 else irq }

  function IrqBytes(irq: nat, ioApic: nat): seq<byte>
    requires irq < 16 && ioApic < 256
  {
    [3, 0, 0, 0] + [0, irq as byte, ioApic as byte, IrqInput(irq) as byte]
  }

  /** The processor entries from `i` on. */
  function Processors(i: nat, cpus: nat, c: Cpuid): (r: seq<byte>)
    requires i <= cpus <= 255
    ensures |r| == 20 * (cpus - i)
    decreases cpus - i
  {
    if i == cpus then [] else ProcessorBytes(i, c) + Processors(i + 1, cpus, c)
  }

  /** The interrupt entries from `i` on; interrupt 2 has none. */
  function Irqs(i: nat, ioApic: nat): (r: seq<byte>)
    requires i <= 16 && ioApic < 256
    ensures |r| == 8 * (16 - i - if i <= 2 then 1 else 0)
    decreases 16 - i, ioApic
  {
    if i == 16 then [] else (if i == 2 then [] else IrqBytes(i, ioApic)) + Irqs(i + 1, ioApic)
  }

  // ---------------------------------------------------------------- what the entries are meant to say

  function ProcessorEntry(i: nat, c: Cpuid): Entry
    requires i < 256
  {
    Processor(i as byte, 0x11, if i == 0 then 3 else 1,
              if c.signature != 0 then c.signature else 0x600, if c.signature != 0 then c.features else 0x201)
  }

  function ProcessorEntries(i: nat, cpus: nat, c: Cpuid): (r: seq<Entry>)
    requires i <= cpus <= 255
    ensures |r| == cpus - i
    decreases cpus - i
  {
    if i == cpus then [] else [ProcessorEntry(i, c)] + ProcessorEntries(i + 1, cpus, c)
  }

  function IrqEntries(i: nat, ioApic: nat): (r: seq<Entry>)
    requires i <= 16 && ioApic < 256
    ensures |r| == 16 - i - if i <= 2 then 1 else 0
    decreases 16 - i, ioApic
  {
    if i == 16 then []
    else if i == 2 then IrqEntries(i + 1, ioApic)
    else [IoInterrupt(0, 0, 0, i as byte, ioApic as byte, if i == 0 then 2 else i as byte)] + IrqEntries(i + 1, ioApic)
  }

  /** One ISA bus, one I/O APIC and the 15 interrupts. */
  function FixtureEntries(cpus: nat): (r: seq<Entry>)
    requires cpus <= 255
    ensures |r| == 17
  {
    [Bus(0, Str("ISA   "))] + ([IoApic(cpus as byte, 0x11, 1, 0xfec0_0000)] + IrqEntries(0, cpus))
  }

  /** The processors and all that. */
  function Expected(cpus: nat, c: Cpuid): seq<Entry>
    requires cpus <= 255
  {
    ProcessorEntries(0, cpus, c) + FixtureEntries(cpus)
  }

  // ---------------------------------------------------------------- the entries read back

  lemma ReadFirst(b: seq<byte>, e: Entry, rest: seq<byte>, es: seq<Entry>, count: nat)
    requires b != [] && |b| == EntrySize(b[0]) && ReadEntry(b) == Some(e)
    requires ReadEntries(rest, count) == Some(es)
    ensures ReadEntries(b + rest, count + 1) == Some([e] + es)
  {
    assert (b + rest)[..|b|] == b && (b + rest)[|b|..] == rest;
  }

  lemma ProcessorReads(i: nat, c: Cpuid)
    requires i < 256 && CpuidOk(c)
    ensures ReadEntry(ProcessorBytes(i, c)) == Some(ProcessorEntry(i, c))
  {
    var b := ProcessorBytes(i, c);
    if c.signature != 0 {
      assert b[4..8] == Le32(c.signature) && b[8..12] == Le32(c.features);
      Le32Reads(c.signature);
      Le32Reads(c.features);
    } else {
      assert b[4..8] == [0, 6, 0, 0] && b[8..12] == Le16(0x201) + Le16(0);
    }
  }

  lemma Associative<T>(a: seq<T>, b: seq<T>, c: seq<T>)
    ensures a + b + c == a + (b + c)
  {
  }

  lemma EmptyPrefix<T>(a: seq<T>)
    ensures [] + a == a
  {
  }

  lemma {:induction false} ProcessorsRead(
    i: nat, cpus: nat, c: Cpuid, rest: seq<byte>, es: seq<Entry>, count: nat)
    requires i <= cpus <= 255 && CpuidOk(c) && ReadEntries(rest, count) == Some(es)
    ensures ReadEntries(Processors(i, cpus, c) + rest, cpus - i + count) == Some(ProcessorEntries(i, cpus, c) + es)
    decreases cpus - i
  {
    if i == cpus {
      EmptyPrefix(rest);
      EmptyPrefix(es);
    } else {
      ProcessorsRead(i + 1, cpus, c, rest, es, count);
      FirstProcessorRead(i, c, Processors(i + 1, cpus, c), rest, ProcessorEntries(i + 1, cpus, c), es,
                         cpus - i - 1 + count);
    }
  }

  lemma FirstProcessorRead(
    i: nat, c: Cpuid, more: seq<byte>, rest: seq<byte>, moreEntries: seq<Entry>, es: seq<Entry>, count: nat)
    requires i < 255 && CpuidOk(c) && ReadEntries(more + rest, count) == Some(moreEntries + es)
    ensures ReadEntries(ProcessorBytes(i, c) + more + rest, count + 1)
         == Some([ProcessorEntry(i, c)] + moreEntries + es)
  {
    ProcessorReads(i, c);
    ReadFirst(ProcessorBytes(i, c), ProcessorEntry(i, c), more + rest, moreEntries + es, count);
    Associative(ProcessorBytes(i, c), more, rest);
    Associative([ProcessorEntry(i, c)], moreEntries, es);
  }

  lemma {:induction false} IrqsRead(i: nat, ioApic: nat)
    requires i <= 16 && ioApic < 256
    ensures ReadEntries(Irqs(i, ioApic), |IrqEntries(i, ioApic)|) == Some(IrqEntries(i, ioApic))
    decreases 16 - i
  {
    if i < 16 {
      IrqsRead(i + 1, ioApic);
      if i == 2 {
        assert Irqs(i, ioApic) == Irqs(i + 1, ioApic);
      } else {
        var b := IrqBytes(i, ioApic);
        var es := IrqEntries(i + 1, ioApic);
        ReadFirst(b, IrqEntries(i, ioApic)[0], Irqs(i + 1, ioApic), es, |es|);
      }
    }
  }

  lemma IoApicReads(id: nat)
    requires id < 256
    ensures ReadEntry(IoApicBytes(id)) == Some(IoApic(id as byte, 0x11, 1, 0xfec0_0000))
  {
    assert IoApicBytes(id)[4..8] == Le32(0xfec0_0000);
    Le32Reads(0xfec0_0000);
  }

  lemma BusReads()
    ensures ReadEntry(BusBytes()) == Some(Bus(0, Str("ISA   ")))
  {
    assert BusBytes()[2..8] == Str("ISA   ");
  }

  /** The bus, the I/O APIC and what follows them. */
  lemma BusAndIoApicRead(id: nat, rest: seq<byte>, es: seq<Entry>, count: nat)
    requires id < 256 && ReadEntries(rest, count) == Some(es)
    ensures ReadEntries(BusBytes() + (IoApicBytes(id) + rest), count + 2)
         == Some([Bus(0, Str("ISA   "))] + ([IoApic(id as byte, 0x11, 1, 0xfec0_0000)] + es))
  {
    IoApicReads(id);
    BusReads();
    var e, ioApic, n := IoApic(id as byte, 0x11, 1, 0xfec0_0000), IoApicBytes(id), count + 1;
    ReadFirst(ioApic, e, rest, es, count);
    ReadFirst(BusBytes(), Bus(0, Str("ISA   ")), ioApic + rest, [e] + es, n);
  }

  /** What follows the processors. */
  function Fixtures(cpus: nat): (r: seq<byte>)
    requires cpus <= 255
    ensures |r| == 136
  {
    BusBytes() + (IoApicBytes(cpus) + Irqs(0, cpus))
  }

  lemma FixturesRead(cpus: nat) returns (bytes: seq<byte>, es: seq<Entry>, n: nat)
    requires cpus <= 255
    ensures bytes == Fixtures(cpus) && es == FixtureEntries(cpus) && n == |es|
    ensures ReadEntries(bytes, n) == Some(es)
  {
    bytes, es := Fixtures(cpus), FixtureEntries(cpus);
    n := |es|;
    IrqsRead(0, cpus);
    BusAndIoApicRead(cpus, Irqs(0, cpus), IrqEntries(0, cpus), |IrqEntries(0, cpus)|);
  }

  function Body(cpus: nat, c: Cpuid): (r: seq<byte>)
    requires cpus <= 255
    ensures |r| == 136 + 20 * cpus
  {
    Processors(0, cpus, c) + Fixtures(cpus)
  }

  lemma BodyReads(cpus: nat, c: Cpuid)
    requires cpus <= 255 && CpuidOk(c)
    ensures ReadEntries(Body(cpus, c), cpus + 17) == Some(Expected(cpus, c))
  {
    var bytes, es, n := FixturesRead(cpus);
    ProcessorsRead(0, cpus, c, bytes, es, n);
  }

  // ---------------------------------------------------------------- lengths and checksums

  lemma {:induction false} SumConcat(a: seq<byte>, b: seq<byte>)
    ensures Sum(a + b) == Sum(a) + Sum(b)
    decreases |b|
  {
    if b == [] {
      assert a + b == a;
    } else {
      assert (a + b)[..|a + b| - 1] == a + b[..|b| - 1];
      SumConcat(a, b[..|b| - 1]);
    }
  }

  lemma SumUpdate(b: seq<byte>, k: nat, v: byte)
    requires k < |b|
    ensures Sum(b[k := v]) + b[k] as nat == Sum(b) + v as nat
  {
    assert b == b[..k] + [b[k]] + b[k + 1..];
    assert b[k := v] == b[..k] + [v] + b[k + 1..];
    SumConcat(b[..k] + [b[k]], b[k + 1..]);
    SumConcat(b[..k], [b[k]]);
    SumConcat(b[..k] + [v], b[k + 1..]);
    SumConcat(b[..k], [v]);
    assert Sum([b[k]]) == b[k] as nat && Sum([v]) == v as nat;
  }

  /** Storing the negated sum in a byte that was 0 brings the sum to 0. */
  lemma ChecksumSet(b: seq<byte>, k: nat)
    requires k < |b| && b[k] == 0
    ensures ChecksumOk(b[k := Complement(Sum(b))])
  {
    SumUpdate(b, k, Complement(Sum(b)));
    ComplementCancels(Sum(b));
  }

  /** Header and entries with the length and then the checksum patched in. */
  function Patched(raw: seq<byte>): (r: seq<byte>)
    requires |raw| >= 44
    ensures |r| == |raw|
  {
    var sized := raw[4 := (|raw| % 256) as byte][5 := (|raw| / 256 % 256) as byte];
    sized[7 := Complement(Sum(sized))]
  }

  lemma PatchedParts(h: seq<byte>, body: seq<byte>)
    requires |h| == 44 && h[7] == 0 && |h + body| < 0x1_0000
    ensures var t := Patched(h + body);
      && t[..4] == h[..4] && Word(t[4..6]) == |t| && t[34..36] == h[34..36] && t[44..] == body
      && ChecksumOk(t)
  {
    var raw := h + body;
    var sized := raw[4 := (|raw| % 256) as byte][5 := (|raw| / 256 % 256) as byte];
    assert sized[7] == 0;
    ChecksumSet(sized, 7);
  }

  function Table(cpus: nat, c: Cpuid): (r: seq<byte>)
    requires cpus <= 255
    ensures |r| == 180 + 20 * cpus
  {
    Patched(TableHeader(cpus) + Body(cpus, c))
  }

  lemma HeaderParts(cpus: nat)
    ensures var h := TableHeader(cpus); h[..4] == Str("PCMP") && h[7] == 0 && h[34..36] == Le16(cpus + 17)
  {
    var h := TableHeader(cpus);
    assert h[..4] == Str("PCMP");
    assert h[34..36] == Le16(cpus + 17);
  }

  /** What the header is meant to say. */
  function ExpectedHeader(cpus: nat): Header {
    Header(4, Str("BOCHSCPU"), Str("0.1         "), 0, 0, cpus + 17, 0xfee0_0000, 0, 0)
  }

  lemma HeaderStartParts()
    ensures var h := HeaderStart(); h[6] == 4 && h[8..16] == Str("BOCHSCPU") && h[16..28] == Str("0.1         ")
  {
  }

  lemma HeaderEndParts(cpus: nat)
    ensures var e := HeaderEnd(cpus);
      && e[0..4] == Le32(0) && e[4..6] == Le16(0) && e[6..8] == Le16(cpus + 17) && e[8..12] == Le32(0xfee0_0000)
      && e[12..14] == Le16(0) && e[14] == 0
  {
    PartsOf(Le32(0), Le16(0), Le16(cpus + 17), Le32(0xfee0_0000), Le16(0), [0, 0]);
  }

  lemma PartsOf(a: seq<byte>, b: seq<byte>, c: seq<byte>, d: seq<byte>, e: seq<byte>, f: seq<byte>)
    requires |a| == |d| == 4 && |b| == |c| == |e| == |f| == 2
    ensures var s := a + b + c + d + e + f;
      s[0..4] == a && s[4..6] == b && s[6..8] == c && s[8..12] == d && s[12..14] == e && s[14] == f[0]
  {
  }

  lemma PatchedStart(h: seq<byte>, rest: seq<byte>)
    requires |h| == 28 && |rest| >= 16
    ensures var t := Patched(h + rest); t[6] == h[6] && t[8..16] == h[8..16] && t[16..28] == h[16..28]
  {
  }

  lemma PatchedEnd(h: seq<byte>, e: seq<byte>, body: seq<byte>)
    requires |h| == 28 && |e| == 16
    ensures var t := Patched(h + e + body);
      && t[28..32] == e[0..4] && t[32..34] == e[4..6] && t[34..36] == e[6..8]
      && t[36..40] == e[8..12] && t[40..42] == e[12..14] && t[42] == e[14]
  {
  }

  /** The bytes of a header that are not patched. */
  predicate HeaderBytes(t: seq<byte>, cpus: nat) {
    && |t| >= 44 && t[6] == 4 && t[8..16] == Str("BOCHSCPU") && t[16..28] == Str("0.1         ")
    && t[28..32] == Le32(0) && t[32..34] == Le16(0) && t[34..36] == Le16(cpus + 17)
    && t[36..40] == Le32(0xfee0_0000) && t[40..42] == Le16(0) && t[42] == 0
  }

  lemma TableHeaderBytes(cpus: nat, c: Cpuid)
    requires cpus <= 255
    ensures HeaderBytes(Table(cpus, c), cpus)
  {
    var h, e, body := HeaderStart(), HeaderEnd(cpus), Body(cpus, c);
    HeaderStartParts();
    HeaderEndParts(cpus);
    assert TableHeader(cpus) == h + e;
    assert Table(cpus, c) == Patched(h + e + body);
    Associative(h, e, body);
    PatchedStart(h, e + body);
    PatchedEnd(h, e, body);
  }

  /** The header reads back with revision 4, the names, the number of entries, and the address of the local APIC. */
  lemma HeaderReads(cpus: nat, c: Cpuid)
    requires cpus <= 255
    ensures ReadHeader(Table(cpus, c)) == Some(ExpectedHeader(cpus))
  {
    TableHeaderBytes(cpus, c);
    HeaderBytesRead(Table(cpus, c), cpus);
  }

  lemma HeaderBytesRead(t: seq<byte>, cpus: nat)
    requires HeaderBytes(t, cpus) && cpus <= 255
    ensures ReadHeader(t) == Some(ExpectedHeader(cpus))
  {
    Le32Reads(0);
    Le32Reads(0xfee0_0000);
  }

  /** The table reads back as exactly the processors, one bus, one I/O APIC and 15 interrupts. */
  lemma TableReads(cpus: nat, c: Cpuid)
    requires cpus <= 255 && CpuidOk(c)
    ensures ReadTable(Table(cpus, c)) == Some(Expected(cpus, c))
  {
    HeaderParts(cpus);
    PatchedParts(TableHeader(cpus), Body(cpus, c));
    BodyReads(cpus, c);
  }

  /** What the table is expected to list. */
  lemma ExpectedCounts(cpus: nat, c: Cpuid)
    requires cpus <= 255
    ensures var es := Expected(cpus, c);
      && |es| == cpus + 17
      && (forall i :: 0 <= i < |es| ==>
            && (es[i].Processor? <==> i < cpus)
            && (es[i].Bus? <==> i == cpus)
            && (es[i].IoApic? <==> i == cpus + 1)
            && (es[i].IoInterrupt? <==> i >= cpus + 2))
  {
    ProcessorKinds(0, cpus, c);
    IrqKinds(0, cpus);
    var es, irqs := Expected(cpus, c), IrqEntries(0, cpus);
    forall i | cpus + 2 <= i < |es|
      ensures es[i].IoInterrupt?
    {
      assert es[i] == irqs[i - cpus - 2] && irqs[i - cpus - 2] in irqs;
    }
  }

  lemma {:induction false} ProcessorKinds(i: nat, cpus: nat, c: Cpuid)
    requires i <= cpus <= 255
    ensures forall k :: 0 <= k < cpus - i ==> ProcessorEntries(i, cpus, c)[k] == ProcessorEntry(i + k, c)
    decreases cpus - i
  {
    if i < cpus {
      ProcessorKinds(i + 1, cpus, c);
    }
  }

  lemma {:induction false} IrqKinds(i: nat, ioApic: nat)
    requires i <= 16 && ioApic < 256
    ensures forall e :: e in IrqEntries(i, ioApic) ==> e.IoInterrupt?
    decreases 16 - i
  {
    if i < 16 {
      IrqKinds(i + 1, ioApic);
    }
  }

  /** The floating pointer structure for a table at `addr`. */
  function Pointer(addr: nat): (r: seq<byte>)
    ensures |r| == 16
  {
    var raw := Str("_MP_") + Le32(addr) + [1, 4, 0, 0, 0, 0, 0, 0];
    raw[10 := Complement(Sum(raw))]
  }

  lemma PointerReads(addr: nat)
    requires addr < 0x1_0000_0000
    ensures ReadPointer(Pointer(addr)) == Some(addr)
  {
    var raw := Str("_MP_") + Le32(addr) + [1, 4, 0, 0, 0, 0, 0, 0];
    var p := Pointer(addr);
    ChecksumSet(raw, 10);
    assert p[..4] == Str("_MP_") && p[4..8] == Le32(addr);
    Le32Reads(addr);
  }
}
