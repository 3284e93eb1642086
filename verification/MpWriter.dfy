/** Writing the multiprocessor tables into memory, byte by byte behind a cursor. */
module MpWriter {
  import opened Machine
  import opened MpTable

  lemma IrqsStep(q: seq<byte>, i: nat, ioApic: nat)
    requires i < 16 && ioApic < 256
    ensures q + Irqs(i, ioApic) == (if i == 2 then q else q + IrqBytes(i, ioApic)) + Irqs(i + 1, ioApic)
  {
    var bytes, rest := IrqBytes(i, ioApic), Irqs(i + 1, ioApic);
    if i == 2 {
      EmptyPrefix(rest);
    } else {
      Associative(q, bytes, rest);
    }
  }

  lemma ProcessorsStep(q: seq<byte>, i: nat, cpus: nat, c: Cpuid)
    requires i < cpus <= 255
    ensures q + Processors(i, cpus, c) == q + ProcessorBytes(i, c) + Processors(i + 1, cpus, c)
  {
    Associative(q, ProcessorBytes(i, c), Processors(i + 1, cpus, c));
  }

  lemma Reassociate(a: seq<byte>, b: seq<byte>, c: seq<byte>, d: seq<byte>, e: seq<byte>)
    ensures a + b + c + d + e == a + (b + (c + (d + e)))
  {
  }

  /** Appending four pieces one by one. */
  lemma FourPieces<T>(w: seq<T>, a: seq<T>, b: seq<T>, c: seq<T>, d: seq<T>)
    ensures w + a + b + c + d == w + (a + b + c + d)
  {
  }

  /** Appending four bytes one by one. */
  lemma FourBytes<T>(w: seq<T>, a: T, b: T, c: T, d: T)
    ensures w + [a] + [b] + [c] + [d] == w + [a, b, c, d]
  {
  }

  lemma SevenPieces<T>(w: seq<T>, a: seq<T>, b: seq<T>, c: seq<T>, d: seq<T>, e: seq<T>, f: seq<T>, g: seq<T>)
    ensures w + a + b + c + d + e + f + g == w + (a + b + c + d + e + (f + g))
  {
  }

  /** `m` with `bytes` written at `at`. */
  function Splice(m: seq<byte>, at: nat, bytes: seq<byte>): (r: seq<byte>)
    requires at + |bytes| <= |m|
    ensures |r| == |m|
  {
    m[..at] + bytes + m[at + |bytes|..]
  }

  lemma SpliceMore(m: seq<byte>, at: nat, bytes: seq<byte>, v: byte)
    requires at + |bytes| < |m|
    ensures Splice(m, at, bytes)[at + |bytes| := v] == Splice(m, at, bytes + [v])
  {
  }

  lemma SplicePatched(m: seq<byte>, at: nat, bytes: seq<byte>, k: nat, v: byte)
    requires at + |bytes| <= |m| && k < |bytes|
    ensures Splice(m, at, bytes)[at + k := v] == Splice(m, at, bytes[k := v])
  {
  }

  lemma SplicedBytes(m: seq<byte>, at: nat, bytes: seq<byte>)
    requires at + |bytes| <= |m|
    ensures Splice(m, at, bytes)[at..at + |bytes|] == bytes
    ensures forall i :: 0 <= i < |m| && !(at <= i < at + |bytes|) ==> Splice(m, at, bytes)[i] == m[i]
  {
  }

  /** Memory with the write cursor `q`. */
  class Writer {
    var mem: seq<byte>
    var q: nat

    /** Memory as it was before the structure being written, where that starts, and its bytes so far. */
    ghost var before: seq<byte>
    ghost var start: nat
    ghost var written: seq<byte>

    /** Memory has changed only where the cursor has passed. */
    ghost predicate Valid()
      reads this
    {
      && start + |written| == q <= |mem| == |before|
      && mem == Splice(before, start, written)
    }

    constructor (mem: seq<byte>)
      ensures this.mem == mem && Valid() && q == 0
    {
      this.mem := mem;
      q := 0;
      before, start, written := mem, 0, [];
    }

    method Begin(addr: nat)
      requires addr <= |mem|
      modifies `q, `before, `start, `written
      ensures Valid() && before == mem && start == addr && written == []
    {
      q := addr;
      before, start, written := mem, addr, [];
    }

    method PutB(v: nat)
      requires Valid() && q < |mem|
      modifies `q, `written, `mem
      ensures Valid() && written == old(written) + [(v % 256) as byte]
    {
      SpliceMore(before, start, written, (v % 256) as byte);
      mem := mem[q := (v % 256) as byte];
      q := q + 1;
      written := written + [(v % 256) as byte];
    }

    method PutStr(s: string)
      requires Valid() && q + |s| <= |mem|
      modifies `q, `written, `mem
      ensures Valid() && written == old(written) + Str(s)
    {
      var i := 0;
      while i < |s|
        invariant 0 <= i <= |s| && Valid() && written == old(written) + Str(s)[..i]
      {
        PutB(s[i] as nat);
        i := i + 1;
      }
      assert Str(s)[..i] == Str(s);
    }

    /** Four bytes in a row. */
    method PutFour(a: byte, b: byte, c: byte, d: byte)
      requires Valid() && q + 4 <= |mem|
      modifies `q, `written, `mem
      ensures Valid() && written == old(written) + [a, b, c, d]
    {
      PutB(a as nat);
      PutB(b as nat);
      PutB(c as nat);
      PutB(d as nat);
      FourBytes(old(written), a, b, c, d);
    }

    method PutLe16(v: nat)
      requires Valid() && q + 2 <= |mem|
      modifies `q, `written, `mem
      ensures Valid() && written == old(written) + Le16(v)
    {
      PutB(v);
      PutB(v / 256);
    }

    method PutLe32(v: nat)
      requires Valid() && q + 4 <= |mem|
      modifies `q, `written, `mem
      ensures Valid() && written == old(written) + Le32(v)
    {
      PutB(v);
      PutB(v / 0x100);
      PutB(v / 0x1_0000);
      PutB(v / 0x100_0000);
      FourBytes(old(written), Le32(v)[0], Le32(v)[1], Le32(v)[2], Le32(v)[3]);
    }

    /** `mpf_checksum`, before the mask. */
    method AddUp(addr: nat, len: nat) returns (sum: nat)
      requires addr + len <= |mem|
      ensures sum == Sum(mem[addr..addr + len])
    {
      sum := 0;
      var i := 0;
      ghost var data := mem[addr..addr + len];
      while i < len
        invariant 0 <= i <= len && sum == Sum(data[..i])
      {
        assert data[..i + 1][..i] == data[..i];
        sum := sum + mem[addr + i] as nat;
        i := i + 1;
      }
      assert data[..i] == data;
    }

    method WriteHeader(cpus: nat)
      requires Valid() && written == [] && q + 44 <= |mem|
      modifies `q, `written, `mem
      ensures Valid() && written == TableHeader(cpus)
    {
      WriteHeaderStart();
      WriteHeaderEnd(cpus);
    }

    method WriteHeaderStart()
      requires Valid() && written == [] && q + 28 <= |mem|
      modifies `q, `written, `mem
      ensures Valid() && written == HeaderStart()
    {
      PutStr("PCMP");
      PutLe16(0);
      PutB(4);
      PutB(0);
      PutStr("BOCHSCPU");
      PutStr("0.1         ");
    }

    method WriteHeaderEnd(cpus: nat)
      requires Valid() && q + 16 <= |mem|
      modifies `q, `written, `mem
      ensures Valid() && written == old(written) + HeaderEnd(cpus)
    {
      PutLe32(0);
      PutLe16(0);
      PutLe16(cpus + 17);
      PutLe32(0xfee0_0000);
      PutLe16(0);
      PutB(0);
      PutB(0);
      SevenPieces(old(written), Le32(0), Le16(0), Le16(cpus + 17), Le32(0xfee0_0000), Le16(0), [0], [0]);
    }

    method WriteCpuid(c: Cpuid)
      requires Valid() && q + 8 <= |mem|
      modifies `q, `written, `mem
      ensures Valid() && written == old(written) + CpuidBytes(c)
    {
      if c.signature != 0 {
        PutLe32(c.signature);
        PutLe32(c.features);
        Associative(old(written), Le32(c.signature), Le32(c.features));
      } else {
        PutB(0);
        PutB(6);
        PutB(0);
        PutB(0);
        PutLe16(0x201);
        PutLe16(0);
        FourBytes(old(written), 0, 6, 0, 0);
        FourPieces(old(written), [0, 6, 0, 0], Le16(0x201), Le16(0), []);
      }
    }

    method WriteProcessorStart(i: nat)
      requires Valid() && i < 256 && q + 4 <= |mem|
      modifies `q, `written, `mem
      ensures Valid() && written == old(written) + ProcessorStart(i)
    {
      PutB(0);
      PutB(i);
      PutB(0x11);
      if i == 0 {
        PutB(3);
      } else {
        PutB(1);
      }
      FourBytes(old(written), 0, i as byte, 0x11, if i == 0 then 3 else 1);
    }

    method WriteReserved()
      requires Valid() && q + 8 <= |mem|
      modifies `q, `written, `mem
      ensures Valid() && written == old(written) + Reserved()
    {
      PutLe16(0);
      PutLe16(0);
      PutLe16(0);
      PutLe16(0);
      FourPieces(old(written), Le16(0), Le16(0), Le16(0), Le16(0));
      assert Le16(0) + Le16(0) + Le16(0) + Le16(0) == Reserved();
    }

    method WriteProcessor(i: nat, c: Cpuid)
      requires Valid() && i < 256 && q + 20 <= |mem|
      modifies `q, `written, `mem
      ensures Valid() && written == old(written) + ProcessorBytes(i, c)
    {
      WriteProcessorStart(i);
      WriteCpuid(c);
      WriteReserved();
      FourPieces(old(written), ProcessorStart(i), CpuidBytes(c), Reserved(), []);
    }

    method WriteBus()
      requires Valid() && q + 8 <= |mem|
      modifies `q, `written, `mem
      ensures Valid() && written == old(written) + BusBytes()
    {
      PutB(1);
      PutB(0);
      PutStr("ISA   ");
      FourPieces(old(written), [1], [0], Str("ISA   "), []);
    }

    method WriteIoApic(id: nat)
      requires Valid() && id < 256 && q + 8 <= |mem|
      modifies `q, `written, `mem
      ensures Valid() && written == old(written) + IoApicBytes(id)
    {
      PutB(2);
      PutB(id);
      PutB(0x11);
      PutB(1);
      PutLe32(0xfec0_0000);
      FourBytes(old(written), 2, id as byte, 0x11, 1);
      Associative(old(written), [2, id as byte, 0x11, 1], Le32(0xfec0_0000));
    }

    /** Entry type, interrupt type and flags. */
    method WriteIrqStart()
      requires Valid() && q + 4 <= |mem|
      modifies `q, `written, `mem
      ensures Valid() && written == old(written) + [3, 0, 0, 0]
    {
      PutB(3);
      PutB(0);
      PutB(0);
      PutB(0);
      FourBytes(old(written), 3, 0, 0, 0);
    }

    method WriteIrq(irq: nat, ioApic: nat)
      requires Valid() && irq < 16 && ioApic < 256 && q + 8 <= |mem|
      modifies `q, `written, `mem
      ensures Valid() && written == old(written) + IrqBytes(irq, ioApic)
    {
      WriteIrqStart();
      ghost var w := written;
      PutB(0);
      PutB(irq);
      PutB(ioApic);
      PutB(IrqInput(irq));
      FourBytes(w, 0, irq as byte, ioApic as byte, IrqInput(irq) as byte);
      Associative(old(written), [3, 0, 0, 0], [0, irq as byte, ioApic as byte, IrqInput(irq) as byte]);
    }

    method WriteProcessors(cpus: nat, c: Cpuid)
      requires Valid() && cpus <= 255 && q + 20 * cpus <= |mem|
      modifies `q, `written, `mem
      ensures Valid() && written == old(written) + Processors(0, cpus, c)
    {
      var i := 0;
      while i < cpus
        invariant 0 <= i <= cpus && Valid() && q == old(q) + 20 * i
        invariant written + Processors(i, cpus, c) == old(written) + Processors(0, cpus, c)
      {
        ProcessorsStep(written, i, cpus, c);
        WriteProcessor(i, c);
        i := i + 1;
      }
    }

    method WriteIrqs(ioApic: nat)
      requires Valid() && ioApic < 256 && q + 120 <= |mem|
      modifies `q, `written, `mem
      ensures Valid() && written == old(written) + Irqs(0, ioApic)
    {
      var i := 0;
      while i < 16
        invariant 0 <= i <= 16 && Valid() && q + |Irqs(i, ioApic)| <= |mem|
        invariant written + Irqs(i, ioApic) == old(written) + Irqs(0, ioApic)
      {
        IrqsStep(written, i, ioApic);
        if i == 2 {
          i := i + 1;
          continue;
        }
        WriteIrq(i, ioApic);
        i := i + 1;
      }
    }

    /** Header and entries. */
    method WriteEntries(cpus: nat, c: Cpuid)
      requires Valid() && written == [] && cpus <= 255 && q + 180 + 20 * cpus <= |mem|
      modifies `q, `written, `mem
      ensures Valid() && written == TableHeader(cpus) + Body(cpus, c)
    {
      WriteHeader(cpus);
      WriteProcessors(cpus, c);
      WriteBus();
      WriteIoApic(cpus);
      WriteIrqs(cpus);
      Reassociate(TableHeader(cpus), Processors(0, cpus, c), BusBytes(), IoApicBytes(cpus), Irqs(0, cpus));
    }

    /** Patches byte `k` of the structure just written. */
    method Patch(addr: nat, k: nat, v: nat)
      requires Valid() && addr == start && k < |written|
      modifies `written, `mem
      ensures Valid() && written == old(written)[k := (v % 256) as byte]
    {
      SplicePatched(before, start, written, k, (v % 256) as byte);
      mem := mem[addr + k := (v % 256) as byte];
      written := written[k := (v % 256) as byte];
    }

    /** `-mpf_checksum(..)` stored in byte `k` of the structure just written. */
    method PatchChecksum(addr: nat, k: nat)
      requires Valid() && addr == start && k < |written|
      modifies `written, `mem
      ensures Valid() && written == old(written)[k := Complement(Sum(old(written)))]
    {
      SplicedBytes(before, start, written);
      var sum := AddUp(addr, q - addr);
      Patch(addr, k, Complement(sum) as nat);
    }

    /** The table at the cursor. */
    method WriteTable(cpus: nat, c: Cpuid) returns (len: nat)
      requires cpus <= 255 && CpuidOk(c) && q + 180 + 20 * cpus <= |mem|
      modifies this
      ensures Valid() && start == old(q) && before == old(mem) && len == |written|
      ensures written == Table(cpus, c) && ReadTable(written) == Some(Expected(cpus, c))
    {
      var addr := q;
      Begin(addr);
      WriteEntries(cpus, c);
      len := q - addr;
      Patch(addr, 4, len);
      Patch(addr, 5, len / 256);
      PatchChecksum(addr, 7);
      TableReads(cpus, c);
    }

    /** The floating pointer structure at the cursor. */
    method WritePointer(tableAddr: nat)
      requires tableAddr < 0x1_0000_0000 && q + 16 <= |mem|
      modifies this
      ensures Valid() && start == old(q) && before == old(mem)
      ensures written == Pointer(tableAddr) && ReadPointer(written) == Some(tableAddr)
    {
      var addr := q;
      Begin(addr);
      WritePointerBytes(tableAddr);
      PatchChecksum(addr, 10);
      PointerReads(tableAddr);
    }

    method WritePointerBytes(tableAddr: nat)
      requires Valid() && written == [] && q + 16 <= |mem|
      modifies `q, `written, `mem
      ensures Valid() && written == Str("_MP_") + Le32(tableAddr) + [1, 4, 0, 0, 0, 0, 0, 0]
    {
      PutStr("_MP_");
      PutLe32(tableAddr);
      ghost var w := written;
      PutFour(1, 4, 0, 0);
      PutFour(0, 0, 0, 0);
      Associative(w, [1, 4, 0, 0], [0, 0, 0, 0]);
    }

    /** `mptable_init`: the table goes to the next multiple of 16 from `cur` on, and the structure pointing
        to it to the next one behind the table.  `cur` is where the BIOS tables end so far. */
    method MptableInit(cpus: nat, c: Cpuid, cur: nat) returns (tableAddr: nat, pointerAddr: nat, end: nat)
      requires cpus <= 255 && CpuidOk(c) && cur + 226 + 20 * cpus <= |mem| <= 0x1_0000_0000
      modifies this
      ensures tableAddr % 16 == 0 && cur <= tableAddr < cur + 16
      ensures pointerAddr % 16 == 0 && tableAddr + |Table(cpus, c)| <= pointerAddr < tableAddr + |Table(cpus, c)| + 16
      ensures end == pointerAddr + 16 <= |mem| == |old(mem)|
      ensures mem == Splice(Splice(old(mem), tableAddr, Table(cpus, c)), pointerAddr, Pointer(tableAddr))
    {
      tableAddr := Align(cur);
      q := tableAddr;
      var len := WriteTable(cpus, c);
      pointerAddr := Align(tableAddr + len);
      q := pointerAddr;
      WritePointer(tableAddr);
      end := q;
    }
  }

  /** `align(addr, 16)`. */
  method Align(addr: nat) returns (r: nat)
    ensures r % 16 == 0 && addr <= r < addr + 16
  {
    r := (addr + 15) / 16 * 16;
  }

  lemma SplicedTwice(m: seq<byte>, at: nat, x: seq<byte>, at': nat, y: seq<byte>)
    requires at + |x| <= at' && at' + |y| <= |m|
    ensures var r := Splice(Splice(m, at, x), at', y);
      && r[at..at + |x|] == x && r[at'..at' + |y|] == y
      && forall i :: 0 <= i < at || at + |x| <= i < at' || at' + |y| <= i < |m| ==> r[i] == m[i]
  {
    var r := Splice(m, at, x);
    SplicedBytes(m, at, x);
    SplicedBytes(r, at', y);
    assert Splice(r, at', y)[at..at + |x|] == r[at..at + |x|];
  }

  /** What memory holds in the end: the floating pointer structure leads to the table, the table reads back as
      intended, and all other bytes are as before. */
  lemma TablesFound(m: seq<byte>, cpus: nat, c: Cpuid, at: nat, table: seq<byte>, at': nat, r: seq<byte>)
    requires cpus <= 255 && CpuidOk(c) && table == Table(cpus, c)
    requires at + |table| <= at' && at' + 16 <= |m| <= 0x1_0000_0000
    requires r == Splice(Splice(m, at, table), at', Pointer(at))
    ensures |r| == |m| && ReadPointer(r[at'..at' + 16]) == Some(at)
    ensures ReadTable(r[at..at + |table|]) == Some(Expected(cpus, c))
    ensures forall i :: 0 <= i < at || at + |table| <= i < at' || at' + 16 <= i < |m| ==> r[i] == m[i]
  {
    SplicedTwice(m, at, table, at', Pointer(at));
    TableReads(cpus, c);
    PointerReads(at);
  }
}
