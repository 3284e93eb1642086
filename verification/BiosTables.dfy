/** The formats that the checksum fixer knows, and the multiprocessor tables seen by it: to the fixer the tables that
    the BIOS writes are in order as they are. */
module BiosTables {
  import opened BiosSums
  import opened Machine
  import MpTable

  function Name(k: Kind): string {
    match k
    case Pci32 => "_32_"
    case Mp => "_MP_"
    case Pcmp => "PCMP"
    case Pir => "$PIR"
    case Pnp => "$PnP"
  }

  lemma SignaturesSpell(k: Kind)
    ensures Signature(k) == MpTable.Str(Name(k))
  {
  }

  /** The header at `off` says that its block has `n` bytes: in units of 16 bytes, in two bytes with the low one
      first, or in one byte. */
  ghost predicate SaysLength(d: Image, k: Kind, off: nat, n: nat)
    requires off + MinHeader(k) <= MAX_OFFSET
  {
    match k
    case Pci32 => 16 * d[off + 9] as nat == n
    case Mp => 16 * d[off + 8] as nat == n
    case Pcmp => n < 0x1_0000 && d[off + 4..off + 6] == MpTable.Le16(n)
    case Pir => n < 0x1_0000 && d[off + 6..off + 8] == MpTable.Le16(n)
    case Pnp => d[off + 5] as nat == n
  }

  lemma LengthsRead(d: Image, k: Kind, off: nat, n: nat)
    requires off + MinHeader(k) <= MAX_OFFSET && SaysLength(d, k, off, n)
    ensures BlockLen(d, k, off) == n
  {
    if k == Pcmp {
      assert d[off + 4..off + 6][0] == d[off + 4] && d[off + 4..off + 6][1] == d[off + 5];
    } else if k == Pir {
      assert d[off + 6..off + 8][0] == d[off + 6] && d[off + 6..off + 8][1] == d[off + 7];
    }
  }

  lemma {:induction false} SumIs(d: Image, off: nat, n: nat, skip: nat)
    requires off + n <= LEN_BIOS_DATA
    ensures MpTable.Sum(d[off..off + n]) == SumExcept(d, off, n, skip) + if skip < n then d[off + skip] as nat else 0
    decreases n
  {
    if n > 0 {
      var b := d[off..off + n];
      assert b[..n - 1] == d[off..off + n - 1] && b[n - 1] == d[off + n - 1];
      SumIs(d, off, n - 1, skip);
    }
  }

  lemma ComplementIs(sum: nat, v: byte)
    requires (sum + v as nat) % 256 == 0
    ensures Complement(sum) == v
  {
  }

  /** A block whose bytes sum to 0 modulo 256 has the checksum that the fixer computes. */
  lemma AlreadyFixed(d: Image, k: Kind, off: nat, n: nat)
    requires ChecksPass(d, k, off) && BlockLen(d, k, off) == n && Chksum(k) < n && off + n <= LEN_BIOS_DATA
    requires MpTable.ChecksumOk(d[off..off + n])
    ensures CalcValue(d, k, off) == d[off + Chksum(k)]
  {
    SumIs(d, off, n, Chksum(k));
    ComplementIs(SumExcept(d, off, n, Chksum(k)), d[off + Chksum(k)]);
  }

  /** Block `t` is in the image at `off`. */
  predicate Holds(d: Image, off: nat, t: seq<byte>) {
    off + |t| <= MAX_OFFSET && d[off..off + |t|] == t
  }

  lemma HoldsAt(d: Image, off: nat, t: seq<byte>, i: nat, j: nat)
    requires Holds(d, off, t) && i <= j <= |t|
    ensures d[off + i..off + j] == t[i..j] && (i < |t| ==> d[off + i] == t[i])
  {
    var s := d[off..off + |t|];
    assert forall k :: 0 <= k < |t| ==> s[k] == d[off + k];
  }

  /** In order as it is: the fixer finds the signature, its checks pass, and it would store what is there. */
  ghost predicate InOrder(d: Image, k: Kind, off: nat, n: nat) {
    && off + n <= MAX_OFFSET && off + 4 <= LEN_BIOS_DATA && SignatureAt(d, k, off) && ChecksPass(d, k, off)
    && BlockLen(d, k, off) == n && Chksum(k) < n && CalcValue(d, k, off) == d[off + Chksum(k)]
  }

  lemma SignatureHeld(d: Image, k: Kind, off: nat, t: seq<byte>)
    requires Holds(d, off, t) && |t| >= 4 && t[..4] == MpTable.Str(Name(k))
    ensures SignatureAt(d, k, off)
  {
    SignaturesSpell(k);
    HoldsAt(d, off, t, 0, 4);
    var s := d[off + 0..off + 4];
    assert s == Signature(k);
    assert s[0] == d[off] && s[1] == d[off + 1] && s[2] == d[off + 2] && s[3] == d[off + 3];
  }

  /** A table that a reader accepts, and that has no extension, is in order. */
  lemma TableInOrder(d: Image, off: nat, t: seq<byte>)
    requires Holds(d, off, t) && MpTable.ReadTable(t).Some?
    requires var h := MpTable.ReadHeader(t).value; h.extendedLength == 0 && h.extendedChecksum == 0
    ensures InOrder(d, Pcmp, off, |t|)
  {
    SignatureHeld(d, Pcmp, off, t);
    HoldsAt(d, off, t, 4, 6);
    HoldsAt(d, off, t, 5, 6);
    HoldsAt(d, off, t, 40, 42);
    HoldsAt(d, off, t, 41, 42);
    HoldsAt(d, off, t, 42, 43);
    assert t[4..6][0] == t[4] && t[4..6][1] == t[5];
    assert t[40..42][0] == t[40] && t[40..42][1] == t[41];
    AlreadyFixed(d, Pcmp, off, |t|);
  }

  /** A floating pointer structure that a reader accepts is in order. */
  lemma PointerInOrder(d: Image, off: nat, b: seq<byte>)
    requires Holds(d, off, b) && MpTable.ReadPointer(b).Some?
    ensures InOrder(d, Mp, off, |b|)
  {
    SignatureHeld(d, Mp, off, b);
    HoldsAt(d, off, b, 8, 9);
    AlreadyFixed(d, Mp, off, |b|);
  }

  /** The tables that the BIOS writes are in order for the fixer. */
  lemma WrittenInOrder(d: Image, off: nat, cpus: nat, c: MpTable.Cpuid, at: nat, addr: nat)
    requires cpus <= 255 && MpTable.CpuidOk(c) && addr < TWO_32
    requires Holds(d, off, MpTable.Table(cpus, c)) && Holds(d, at, MpTable.Pointer(addr))
    ensures InOrder(d, Pcmp, off, 180 + 20 * cpus) && InOrder(d, Mp, at, 16)
  {
    MpTable.TableReads(cpus, c);
    MpTable.HeaderReads(cpus, c);
    TableInOrder(d, off, MpTable.Table(cpus, c));
    MpTable.PointerReads(addr);
    PointerInOrder(d, at, MpTable.Pointer(addr));
  }

  /** The position of the checksum in a block. */
  function ChecksumField(k: Kind): nat {
    match k
    case Pci32 => 10
    case Mp => 10
    case Pcmp => 7
    case Pir => 31
    case Pnp => 8
  }

  lemma {:induction false} SkippedDoesNotCount(d: Image, e: Image, off: nat, n: nat, skip: nat, x: byte)
    requires off + n <= LEN_BIOS_DATA && off + skip < LEN_BIOS_DATA && e == d[off + skip := x]
    ensures SumExcept(e, off, n, skip) == SumExcept(d, off, n, skip)
    decreases n
  {
    if n > 0 {
      SkippedDoesNotCount(d, e, off, n - 1, skip, x);
    }
  }

  /** Whatever has become of the checksum of a block that was in order, the fixer restores it. */
  lemma FixRestores(d: Image, k: Kind, off: nat, n: nat, x: byte, e: Image)
    requires InOrder(d, k, off, n) && e == d[off + ChecksumField(k) := x]
    ensures SignatureAt(e, k, off) && ChecksPass(e, k, off)
    ensures e[off + Chksum(k) := CalcValue(e, k, off)] == d
  {
    assert BlockLen(e, k, off) == n;
    SkippedDoesNotCount(d, e, off, n, Chksum(k), x);
  }
}
