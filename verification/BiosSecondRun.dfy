/** What the checksum fixer does to an image that it has fixed already. */
module BiosSecondRun {
  import opened Machine
  import opened BiosSums

  lemma {:induction false} HeadersSame(d: Image, f: Image, k: Kind, p: nat)
    requires SameSignatures(d, f) && p % 16 == 0
    ensures NextHeader(f, k, p) == NextHeader(d, k, p)
    decreases MAX_OFFSET - p
  {
    if p + 16 < MAX_OFFSET {
      assert SignatureAt(f, k, p + 16) == SignatureAt(d, k, p + 16);
      HeadersSame(d, f, k, p + 16);
    }
  }

  /** The last byte is no part of a header. */
  lemma SealKeepsBlocks(e: Image)
    ensures SameBlocks(e, Sealed(e))
  {
    var f := Sealed(e);
    assert DifferAt(e, f, MAX_OFFSET);
    forall k ensures Block(f, k) == Block(e, k) {
      HeadersKept(e, f, MAX_OFFSET, k, 0);
    }
  }

  /** The image after a first run. */
  ghost predicate Done(d: Image, f: Image) {
    && WellFormed(d) && SameSignatures(d, f) && SameBlocks(d, f)
    && (forall k {:trigger BlockSums(d, f, k)} :: BlockSums(d, f, k))
    && SumRange(f, 0, LEN_BIOS_DATA) % 256 == 0
    && forall i: nat {:trigger f[i]} :: i < MAX_OFFSET && f[i] != d[i] ==> IsChksum(d, i)
  }

  lemma FirstRun(d: Image)
    requires WellFormed(d)
    ensures Accepted(d) && Done(d, Final(d))
  {
    FixUpSums(d);
    var e := FixFive(d);
    SealKeepsBlocks(e);
    forall k ensures Block(Final(d), k) == Block(d, k) {
      assert Block(Sealed(e), k) == Block(e, k) && Block(e, k) == Block(d, k);
    }
  }

  lemma SumParts(d: Image, off: nat, n: nat, skip: nat)
    requires off + n <= LEN_BIOS_DATA && skip < n
    ensures SumRange(d, off, off + n) == SumExcept(d, off, n, skip) + d[off + skip] as nat
  {
    assert d[off + skip := d[off + skip]] == d;
    SumCompleted(d, off, n, skip, d[off + skip]);
  }

  lemma {:induction false} SumExceptSame(d: Image, f: Image, off: nat, n: nat, skip: nat)
    requires off + n <= LEN_BIOS_DATA
    requires forall i :: off <= i < off + n && i != off + skip ==> f[i] == d[i]
    ensures SumExcept(f, off, n, skip) == SumExcept(d, off, n, skip)
    decreases n
  {
    if n > 0 {
      SumExceptSame(d, f, off, n - 1, skip);
    }
  }

  lemma OnlyComplement(sum: nat, b: byte)
    requires (sum + b as nat) % 256 == 0
    ensures b == Complement(sum)
  {
  }

  lemma CompletesBlock(f: Image, h: nat, len: nat, skip: nat)
    requires h + len <= LEN_BIOS_DATA && skip < len && SumRange(f, h, h + len) % 256 == 0
    ensures f[h + skip] == Complement(SumExcept(f, h, len, skip))
  {
    SumParts(f, h, len, skip);
    OnlyComplement(SumExcept(f, h, len, skip), f[h + skip]);
  }

  /** The checksum that a header ends up with is the one computed from the image as it was. */
  lemma NewValue(d: Image, f: Image, k: Kind, h: nat)
    requires Done(d, f) && h == Header(d, k)
    ensures ChecksPass(d, k, h) && f[h + Chksum(k)] == CalcValue(d, k, h)
  {
    assert KindOk(d, k) && BlockSums(d, f, k);
    var len := BlockLen(d, k, h);
    forall i | h <= i < h + len && i != h + Chksum(k)
      ensures f[i] == d[i]
    {
      if f[i] != d[i] {
        var j :| Header(d, j) != -1 && i == Header(d, j) + Chksum(j);
        ChksumOutside(d, j, k);
      }
    }
    SumExceptSame(d, f, h, len, Chksum(k));
    CompletesBlock(f, h, len, Chksum(k));
  }

  // ---------------------------------------------------------------- kinds that go through again

  lemma ChecksAgain(d: Image, f: Image, k: Kind, h: nat)
    requires ChecksPass(d, k, h) && BlockLen(f, k, h) == BlockLen(d, k, h)
    requires k == Pcmp ==> h + 42 < LEN_BIOS_DATA && f[h + 40] == 0 && f[h + 41] == 0 && f[h + 42] == 0
    ensures ChecksPass(f, k, h)
  {
  }

  lemma SameHeader(d: Image, f: Image, k: Kind)
    requires KindOk(d, k) && SameSignatures(d, f) && SameBlocks(d, f)
    ensures Header(f, k) == Header(d, k)
    ensures Header(d, k) != -1 ==>
      NextHeader(f, k, Header(d, k)) == -1 && BlockLen(f, k, Header(d, k)) == BlockLen(d, k, Header(d, k))
  {
    assert Block(f, k) == Block(d, k);
    HeadersSame(d, f, k, 0);
    if Header(d, k) != -1 {
      HeadersSame(d, f, k, Header(d, k));
    }
  }

  lemma KindAgain(d: Image, f: Image, k: Kind)
    requires Done(d, f)
    requires k == Pcmp && Header(d, k) != -1 ==>
      Header(d, k) + 42 < LEN_BIOS_DATA
      && f[Header(d, k) + 40] == 0 && f[Header(d, k) + 41] == 0 && f[Header(d, k) + 42] == 0
    ensures KindOk(f, k) && Header(f, k) == Header(d, k) && BlockSums(f, f, k)
  {
    assert KindOk(d, k) && Block(f, k) == Block(d, k) && BlockSums(d, f, k);
    SameHeader(d, f, k);
    var h := Header(d, k);
    if h != -1 {
      ChecksAgain(d, f, k, h);
    }
    SumsAgain(d, f, k);
  }

  lemma SumsAgain(d: Image, f: Image, k: Kind)
    requires Block(f, k) == Block(d, k) && BlockSums(d, f, k)
    ensures BlockSums(f, f, k)
  {
  }

  /** A kind whose block sums to 0 already is left alone. */
  lemma FixedAgain(f: Image, k: Kind)
    requires KindOk(f, k) && BlockSums(f, f, k)
    ensures AllPass(f, k, 0) && Fixed(f, k) == f
  {
    OnlyHeaderPasses(f, k);
    var h := Header(f, k);
    if h != -1 {
      CompletesBlock(f, h, BlockLen(f, k, h), Chksum(k));
      assert CalcValue(f, k, h) == f[h + Chksum(k)];
    }
  }

  lemma SealedAgain(f: Image)
    requires SumRange(f, 0, LEN_BIOS_DATA) % 256 == 0
    ensures Sealed(f) == f
  {
    assert SumRange(f, 0, LEN_BIOS_DATA) == SumRange(f, 0, MAX_OFFSET) + f[MAX_OFFSET] as nat;
    OnlyComplement(SumRange(f, 0, MAX_OFFSET), f[MAX_OFFSET]);
  }

  // ---------------------------------------------------------------- the one that may not

  /** A $PnP header 32 bytes behind the PCMP header puts its checksum where an extended table is announced. */
  predicate Clash(d: Image) {
    var p, h := Header(d, Pcmp), Header(d, Pnp);
    p != -1 && h == p + 32 && ChecksPass(d, Pnp, h) && CalcValue(d, Pnp, h) != 0
  }

  lemma ExtensionWriter(d: Image, p: nat, k: Kind, h: nat)
    requires p % 16 == 0 && h % 16 == 0 && p + 40 <= h + Chksum(k) <= p + 42
    requires ChecksPass(d, Pcmp, p) && ChecksPass(d, k, h) && Chksum(k) < BlockLen(d, k, h)
    ensures k == Pnp && h == p + 32
  {
    if k != Pnp {
      ExtensionMissed(d, p, k, h);
    }
  }

  lemma ExtensionByte(d: Image, p: nat, i: nat)
    requires WellFormed(d) && p == Header(d, Pcmp) && p + 40 <= i <= p + 42 && IsChksum(d, i)
    ensures i == p + 40 && Header(d, Pnp) == p + 32
  {
    assert KindOk(d, Pcmp);
    var k :| Header(d, k) != -1 && i == Header(d, k) + Chksum(k);
    assert KindOk(d, k);
    ExtensionWriter(d, p, k, Header(d, k));
  }

  lemma ExtensionBefore(d: Image, p: nat)
    requires KindOk(d, Pcmp) && p == Header(d, Pcmp)
    ensures p + 42 < MAX_OFFSET && d[p + 40] == 0 && d[p + 41] == 0 && d[p + 42] == 0
  {
  }

  /** Of the bytes that announce an extended table, only the first can have changed, and only by a clash. */
  lemma ExtensionAfter(d: Image, f: Image, p: nat)
    requires Done(d, f) && p == Header(d, Pcmp)
    ensures p + 42 < MAX_OFFSET && f[p + 41] == 0 && f[p + 42] == 0
    ensures f[p + 40] != 0 <==> Clash(d)
  {
    assert KindOk(d, Pcmp);
    ExtensionBefore(d, p);
    forall i | p + 40 <= i <= p + 42 && f[i] != 0
      ensures i == p + 40 && Header(d, Pnp) == p + 32
    {
      assert IsChksum(d, i);
      ExtensionByte(d, p, i);
    }
    if Header(d, Pnp) == p + 32 {
      NewValue(d, f, Pnp, p + 32);
    }
  }

  lemma PcmpAgain(d: Image, f: Image)
    requires Done(d, f)
    ensures AllPass(f, Pcmp, 0) <==> !Clash(d)
    ensures !Clash(d) ==> Fixed(f, Pcmp) == f
  {
    var p := Header(d, Pcmp);
    HeadersSame(d, f, Pcmp, 0);
    if p != -1 {
      ExtensionAfter(d, f, p);
    }
    if Clash(d) {
      assert !ChecksPass(f, Pcmp, p);
    } else {
      KindAgain(d, f, Pcmp);
      FixedAgain(f, Pcmp);
    }
  }

  lemma OthersAgain(d: Image, f: Image, k: Kind)
    requires Done(d, f) && k != Pcmp
    ensures AllPass(f, k, 0) && Fixed(f, k) == f
  {
    KindAgain(d, f, k);
    FixedAgain(f, k);
  }

  /** With the other kinds left alone, PCMP decides. */
  lemma PcmpDecides(f: Image)
    requires forall k {:trigger AllPass(f, k, 0)} :: k != Pcmp ==> AllPass(f, k, 0) && Fixed(f, k) == f
    requires AllPass(f, Pcmp, 0) ==> Fixed(f, Pcmp) == f
    ensures Accepted(f) <==> AllPass(f, Pcmp, 0)
    ensures Accepted(f) ==> Final(f) == Sealed(f)
  {
    assert AllPass(f, Pci32, 0) && AllPass(f, Mp, 0) && AllPass(f, Pir, 0) && AllPass(f, Pnp, 0);
  }

  /** A second run goes through, and changes nothing, if and only if there is no such clash. */
  lemma SecondRun(d: Image)
    requires WellFormed(d)
    ensures Accepted(d) && (Accepted(Final(d)) <==> !Clash(d))
    ensures !Clash(d) ==> Final(Final(d)) == Final(d)
  {
    FirstRun(d);
    DoneAgain(d, Final(d));
  }

  lemma DoneAgain(d: Image, f: Image)
    requires Done(d, f)
    ensures Accepted(f) <==> !Clash(d)
    ensures Accepted(f) ==> Final(f) == f
  {
    forall k | k != Pcmp
      ensures AllPass(f, k, 0) && Fixed(f, k) == f
    {
      OthersAgain(d, f, k);
    }
    PcmpAgain(d, f);
    PcmpDecides(f);
    SealedAgain(f);
  }

  // ---------------------------------------------------------------- an image with a clash

  const PCMP_AT: nat := 0x100

  /** A PCMP header of 32 bytes with a $PnP header of 32 bytes right behind it, in an image of zeros. */
  function ClashByte(i: nat): byte {
    if PCMP_AT <= i < PCMP_AT + 4 then Signature(Pcmp)[i - PCMP_AT]
    else if i == PCMP_AT + 4 then 32
    else if PCMP_AT + 32 <= i < PCMP_AT + 36 then Signature(Pnp)[i - PCMP_AT - 32]
    else if i == PCMP_AT + 37 then 32
    else 0
  }

  function ClashImage(): (d: Image)
    ensures forall i :: 0 <= i < LEN_BIOS_DATA ==> d[i] == ClashByte(i)
  {
    seq(LEN_BIOS_DATA, i requires 0 <= i < LEN_BIOS_DATA => ClashByte(i))
  }

  lemma {:induction false} NoHeader(d: Image, k: Kind, from: nat)
    requires from % 16 == 0
    requires forall p: nat :: from < p && p % 16 == 0 && p + 4 <= LEN_BIOS_DATA ==> !SignatureAt(d, k, p)
    ensures NextHeader(d, k, from) == -1
    decreases MAX_OFFSET - from
  {
    if from + 16 < MAX_OFFSET {
      NoHeader(d, k, from + 16);
    }
  }

  lemma {:induction false} FirstHeader(d: Image, k: Kind, from: nat, h: nat)
    requires from % 16 == 0 && h % 16 == 0 && from < h < 0xfff0 && SignatureAt(d, k, h)
    requires forall p: nat :: from < p < h && p % 16 == 0 ==> !SignatureAt(d, k, p)
    ensures NextHeader(d, k, from) == h
    decreases h - from
  {
    if from + 16 < h {
      FirstHeader(d, k, from + 16, h);
    }
  }

  lemma ClashHeaders(d: Image, k: Kind)
    requires d == ClashImage()
    ensures Header(d, k) == if k == Pcmp then PCMP_AT else if k == Pnp then PCMP_AT + 32 else -1
    ensures Header(d, k) != -1 ==> NextHeader(d, k, Header(d, k)) == -1
  {
    forall p: nat | 0 < p && p % 16 == 0 && p + 4 <= LEN_BIOS_DATA && SignatureAt(d, k, p)
      ensures (k == Pcmp && p == PCMP_AT) || (k == Pnp && p == PCMP_AT + 32)
    {
      assert d[p] == ClashByte(p) && d[p] != 0;
    }
    var start := 0;
    if k == Pcmp || k == Pnp {
      var h := if k == Pcmp then PCMP_AT else PCMP_AT + 32;
      assert SignatureAt(d, k, h);
      FirstHeader(d, k, start, h);
      NoHeader(d, k, h);
    } else {
      NoHeader(d, k, start);
    }
  }

  lemma {:induction false} ZerosAddNothing(d: Image, off: nat, m: nat, n: nat, skip: nat)
    requires off + n <= LEN_BIOS_DATA && m <= n && forall i :: off + m <= i < off + n ==> d[i] == 0
    ensures SumExcept(d, off, n, skip) == SumExcept(d, off, m, skip)
    decreases n
  {
    if m < n {
      ZerosAddNothing(d, off, m, n - 1, skip);
    }
  }

  lemma ClashSum(d: Image, off: nat)
    requires d == ClashImage() && off == PCMP_AT + 32
    ensures SumExcept(d, off, 32, Chksum(Pnp)) == 0x24 + 0x50 + 0x6e + 0x50 + 32
  {
    ZerosAddNothing(d, off, 6, 32, 8);
    assert SumExcept(d, off, 1, 8) == 0x24;
    assert SumExcept(d, off, 2, 8) == 0x24 + 0x50;
    assert SumExcept(d, off, 3, 8) == 0x24 + 0x50 + 0x6e;
    assert SumExcept(d, off, 4, 8) == 0x24 + 0x50 + 0x6e + 0x50;
    assert SumExcept(d, off, 5, 8) == 0x24 + 0x50 + 0x6e + 0x50;
  }

  lemma ClashBlock(d: Image, k: Kind, h: nat)
    requires d == ClashImage() && ((k == Pcmp && h == PCMP_AT) || (k == Pnp && h == PCMP_AT + 32))
    ensures ChecksPass(d, k, h) && BlockLen(d, k, h) == 32
  {
  }

  lemma ClashKind(d: Image, k: Kind)
    requires d == ClashImage()
    ensures KindOk(d, k)
    ensures Header(d, k) != -1 ==> BlockLen(d, k, Header(d, k)) == 32
  {
    ClashHeaders(d, k);
    if Header(d, k) != -1 {
      ClashBlock(d, k, Header(d, k));
    }
  }

  lemma ClashApart(d: Image, j: Kind, k: Kind)
    requires d == ClashImage() && j != k
    ensures KindOk(d, j) && KindOk(d, k) && Apart(d, j, k)
  {
    ClashKind(d, j);
    ClashKind(d, k);
    ClashHeaders(d, j);
    ClashHeaders(d, k);
  }

  lemma ClashWellFormed(d: Image)
    requires d == ClashImage()
    ensures WellFormed(d)
  {
    forall k ensures KindOk(d, k) { ClashKind(d, k); }
    forall j, k | j != k ensures KindOk(d, j) && KindOk(d, k) && Apart(d, j, k) { ClashApart(d, j, k); }
  }

  lemma ClashClashes(d: Image)
    requires d == ClashImage()
    ensures Clash(d)
  {
    ClashHeaders(d, Pcmp);
    ClashHeaders(d, Pnp);
    ClashBlock(d, Pnp, PCMP_AT + 32);
    ClashSum(d, PCMP_AT + 32);
  }

  /** Such an image is well formed, and is fixed once, but not twice. */
  lemma ClashHappens()
    ensures var d := ClashImage(); WellFormed(d) && Accepted(d) && !Accepted(Final(d))
  {
    var d := ClashImage();
    ClashWellFormed(d);
    ClashClashes(d);
    SecondRun(d);
  }
}
