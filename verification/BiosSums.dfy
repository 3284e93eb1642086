/** The checksum fixer for a 64 KB BIOS image. */
module BiosSums {
  import opened Machine

  const LEN_BIOS_DATA: nat := 0x1_0000
  const MAX_OFFSET: nat := 0xffff

  type Image = d: seq<byte> | |d| == LEN_BIOS_DATA witness seq(LEN_BIOS_DATA, _ => 0)

  /** The kinds of header that carry a checksum. */
  datatype Kind = Pci32 | Mp | Pcmp | Pir | Pnp

  function Signature(k: Kind): (r: seq<byte>)
    ensures |r| == 4
  {
    match k
    case Pci32 => [0x5f, 0x33, 0x32, 0x5f]  // "_32_"
    case Mp => [0x5f, 0x4d, 0x50, 0x5f]     // "_MP_"
    case Pcmp => [0x50, 0x43, 0x4d, 0x50]   // "PCMP"
    case Pir => [0x24, 0x50, 0x49, 0x52]    // "$PIR"
    case Pnp => [0x24, 0x50, 0x6e, 0x50]    // "$PnP"
  }

  /** Where in the block the checksum is. */
  function Chksum(k: Kind): nat {
    match k
    case Pci32 => 10
    case Mp => 10
    case Pcmp => 7
    case Pir => 31
    case Pnp => 8
  }

  function MinHeader(k: Kind): nat {
    match k
    case Pci32 => 16
    case Mp => 16
    case Pcmp => 42
    case Pir => 32
    case Pnp => 32
  }

  /** The length of the block at `off`, as its header gives it. */
  function BlockLen(d: Image, k: Kind, off: nat): nat
    requires off + MinHeader(k) <= MAX_OFFSET
  {
    match k
    case Pci32 => d[off + 9] as nat * 16
    case Mp => d[off + 8] as nat * 16
    case Pcmp => d[off + 4] as nat + d[off + 5] as nat * 256
    case Pir => d[off + 6] as nat + d[off + 7] as nat * 256
    case Pnp => d[off + 5] as nat
  }

  predicate SignatureAt(d: Image, k: Kind, off: nat)
    requires off + 4 <= LEN_BIOS_DATA
  {
    d[off] == Signature(k)[0] && d[off + 1] == Signature(k)[1]
    && d[off + 2] == Signature(k)[2] && d[off + 3] == Signature(k)[3]
  }

  /** The checks that end the program when they fail. */
  predicate ChecksPass(d: Image, k: Kind, off: nat) {
    && off + MinHeader(k) <= MAX_OFFSET
    && off + BlockLen(d, k, off) <= MAX_OFFSET
    && (k == Pcmp ==> d[off + 40] == 0 && d[off + 41] == 0 && d[off + 42] == 0)
  }

  function SumRange(d: Image, lo: nat, hi: nat): nat
    requires hi <= LEN_BIOS_DATA
  {
    if hi <= lo then 0 else SumRange(d, lo, hi - 1) + d[hi - 1] as nat
  }

  /** The sum of `n` bytes from `off` on, without the one at `off + skip`. */
  function SumExcept(d: Image, off: nat, n: nat, skip: nat): nat
    requires off + n <= LEN_BIOS_DATA
  {
    if n == 0 then 0 else
    SumExcept(d, off, n - 1, skip) + if n - 1 == skip then 0 else d[off + n - 1] as nat
  }

  function CalcValue(d: Image, k: Kind, off: nat): byte
    requires ChecksPass(d, k, off)
  {
    Complement(SumExcept(d, off, BlockLen(d, k, off), Chksum(k)))
  }

  /** The next 16-aligned position after `off` with the signature, or -1.  Offset 0 is never looked at. */
  function NextHeader(d: Image, k: Kind, off: nat): (r: int)
    requires off % 16 == 0
    ensures r == -1 || (off < r <= 0xfff0 && r % 16 == 0 && SignatureAt(d, k, r))
    decreases MAX_OFFSET - off
  {
    if off + 16 >= MAX_OFFSET then -1
    else if SignatureAt(d, k, off + 16) then off + 16
    else NextHeader(d, k, off + 16)
  }

  /** The checks pass for every header after `off`. */
  predicate AllPass(d: Image, k: Kind, off: nat)
    requires off % 16 == 0
    decreases MAX_OFFSET - off
  {
    var h := NextHeader(d, k, off);
    h == -1 || (ChecksPass(d, k, h) && AllPass(d, k, h))
  }

  /** The one header of kind `k`, if there is exactly one. */
  function Single(d: Image, k: Kind): (r: int)
    ensures r == -1 || (0 < r <= 0xfff0 && r % 16 == 0 && SignatureAt(d, k, r))
  {
    var h := NextHeader(d, k, 0);
    if h != -1 && NextHeader(d, k, h) == -1 then h else -1
  }

  /** The image after fixing headers of kind `k`: a single header gets its checksum. */
  function Fixed(d: Image, k: Kind): Image
    requires AllPass(d, k, 0)
  {
    var h := Single(d, k);
    if h == -1 then d else d[h + Chksum(k) := CalcValue(d, k, h)]
  }

  /** The image after the checksum of the whole image has been set. */
  function Sealed(d: Image): Image {
    d[MAX_OFFSET := Complement(SumRange(d, 0, MAX_OFFSET))]
  }

  /** The checks pass in every one of the five steps. */
  predicate Accepted(d: Image) {
    && AllPass(d, Pci32, 0)
    && (var d1 := Fixed(d, Pci32);
        && AllPass(d1, Mp, 0)
        && (var d2 := Fixed(d1, Mp);
            && AllPass(d2, Pcmp, 0)
            && (var d3 := Fixed(d2, Pcmp);
                && AllPass(d3, Pir, 0)
                && AllPass(Fixed(d3, Pir), Pnp, 0))))
  }

  function Final(d: Image): Image
    requires Accepted(d)
  {
    Sealed(Fixed(Fixed(Fixed(Fixed(Fixed(d, Pci32), Mp), Pcmp), Pir), Pnp))
  }

  // ---------------------------------------------------------------- what the fix-up achieves

  /** The first header of kind `k`, or -1. */
  function Header(d: Image, k: Kind): int { NextHeader(d, k, 0) }

  /** There is no header of kind `k`, or just one, for which the checks pass and whose checksum byte
      lies inside its block. */
  predicate KindOk(d: Image, k: Kind) {
    var h := Header(d, k);
    h == -1 || (NextHeader(d, k, h) == -1 && ChecksPass(d, k, h) && Chksum(k) < BlockLen(d, k, h))
  }

  predicate Apart(d: Image, j: Kind, k: Kind)
    requires KindOk(d, j) && KindOk(d, k)
  {
    var a, b := Header(d, j), Header(d, k);
    a == -1 || b == -1 || a + BlockLen(d, j, a) <= b || b + BlockLen(d, k, b) <= a
  }

  /** Each kind of header occurs at most once and is in order, and the blocks are disjoint. */
  ghost predicate WellFormed(d: Image) {
    && (forall k {:trigger KindOk(d, k)} :: KindOk(d, k))
    && (forall j, k {:trigger Apart(d, j, k)} :: j != k ==> KindOk(d, j) && KindOk(d, k) && Apart(d, j, k))
  }

  /** `d` and `e` differ at most at position `q`. */
  ghost predicate DifferAt(d: Image, e: Image, q: nat) {
    forall i :: 0 <= i < LEN_BIOS_DATA && i != q ==> e[i] == d[i]
  }

  /** No write at a checksum position, or at the end of the image, makes or breaks a signature. */
  lemma SignatureKept(d: Image, e: Image, q: nat, k: Kind, p: nat)
    requires DifferAt(d, e, q) && q % 16 >= 4 && p % 16 == 0 && p + 4 <= LEN_BIOS_DATA
    ensures SignatureAt(e, k, p) == SignatureAt(d, k, p)
  {
  }

  lemma {:induction false} HeadersKept(d: Image, e: Image, q: nat, k: Kind, p: nat)
    requires DifferAt(d, e, q) && q % 16 >= 4 && p % 16 == 0
    ensures NextHeader(e, k, p) == NextHeader(d, k, p)
    decreases MAX_OFFSET - p
  {
    if p + 16 < MAX_OFFSET {
      SignatureKept(d, e, q, k, p + 16);
      HeadersKept(d, e, q, k, p + 16);
    }
  }

  lemma {:induction false} SumKept(d: Image, e: Image, q: nat, lo: nat, hi: nat)
    requires DifferAt(d, e, q) && hi <= LEN_BIOS_DATA && !(lo <= q < hi)
    ensures SumRange(e, lo, hi) == SumRange(d, lo, hi)
  {
    if lo < hi {
      SumKept(d, e, q, lo, hi - 1);
    }
  }

  /** Setting the byte left out completes the sum. */
  lemma {:induction false} SumCompleted(d: Image, off: nat, n: nat, skip: nat, v: byte)
    requires off + n <= LEN_BIOS_DATA && skip < n
    ensures SumRange(d[off + skip := v], off, off + n) == SumExcept(d, off, n, skip) + v as nat
    decreases n
  {
    var e := d[off + skip := v];
    if skip == n - 1 {
      SumKept(d, e, off + skip, off, off + n - 1);
      SumExceptAll(d, off, n - 1, skip);
    } else {
      SumCompleted(d, off, n - 1, skip, v);
    }
  }

  lemma {:induction false} SumExceptAll(d: Image, off: nat, n: nat, skip: nat)
    requires off + n <= LEN_BIOS_DATA && n <= skip
    ensures SumExcept(d, off, n, skip) == SumRange(d, off, off + n)
    decreases n
  {
    if n > 0 {
      SumExceptAll(d, off, n - 1, skip);
    }
  }

  /** The bytes that would announce an extended table lie behind a short PCMP block, but of the checksums
      only that of a $PnP header can be there: a `_32_` or `_MP_` header in the way would have length 0. */
  lemma ExtensionMissed(d: Image, p: nat, k: Kind, h: nat)
    requires p % 16 == 0 && h % 16 == 0 && k != Pnp
    requires ChecksPass(d, Pcmp, p) && ChecksPass(d, k, h) && Chksum(k) < BlockLen(d, k, h)
    ensures !(p + 40 <= h + Chksum(k) <= p + 42)
  {
    if k == Pci32 || k == Mp {
      assert d[p + 40] == 0 && d[p + 41] == 0;
      assert h + 10 < p + 40 || h + 10 > p + 42 || h == p + 32;
    }
  }

  lemma OnlyHeaderPasses(d: Image, k: Kind)
    requires KindOk(d, k)
    ensures AllPass(d, k, 0) && Single(d, k) == Header(d, k)
  {
  }

  lemma ChksumOffBoundary(k: Kind, h: nat)
    requires h % 16 == 0
    ensures (h + Chksum(k)) % 16 >= 4
  {
  }

  /** The checksum byte of kind `k` lies outside the block of kind `j`. */
  lemma ChksumOutside(d: Image, k: Kind, j: Kind)
    requires WellFormed(d) && Header(d, k) != -1 && Header(d, j) != -1 && j != k
    ensures KindOk(d, j)
    ensures !(Header(d, j) <= Header(d, k) + Chksum(k) < Header(d, j) + BlockLen(d, j, Header(d, j)))
  {
    assert KindOk(d, k) && KindOk(d, j) && Apart(d, j, k);
  }

  /** The length is read from bytes of the block in front of its checksum. */
  lemma LengthKept(d: Image, e: Image, q: nat, j: Kind, h: nat)
    requires DifferAt(d, e, q) && h + MinHeader(j) <= MAX_OFFSET && Chksum(j) < BlockLen(d, j, h)
    requires q == h + Chksum(j) || !(h <= q < h + BlockLen(d, j, h))
    ensures BlockLen(e, j, h) == BlockLen(d, j, h)
  {
  }

  /** A write to the checksum byte of the header of kind `k` leaves every header where it is, with the
      same length. */
  lemma HeaderKept(d: Image, e: Image, k: Kind, j: Kind)
    requires WellFormed(d) && Header(d, k) != -1
    requires DifferAt(d, e, Header(d, k) + Chksum(k))
    ensures KindOk(d, j) && Header(e, j) == Header(d, j)
    ensures Header(d, j) != -1 ==>
      NextHeader(e, j, Header(d, j)) == -1 && BlockLen(e, j, Header(d, j)) == BlockLen(d, j, Header(d, j))
  {
    var q, h := Header(d, k) + Chksum(k), Header(d, j);
    assert KindOk(d, j);
    ChksumOffBoundary(k, Header(d, k));
    HeadersKept(d, e, q, j, 0);
    if h != -1 {
      HeadersKept(d, e, q, j, h);
      if j != k {
        ChksumOutside(d, k, j);
      }
      LengthKept(d, e, q, j, h);
    }
  }

  /** Unless it is that of $PnP, it leaves every header in order. */
  lemma KindKept(d: Image, e: Image, k: Kind, j: Kind)
    requires WellFormed(d) && Header(d, k) != -1 && k != Pnp
    requires DifferAt(d, e, Header(d, k) + Chksum(k))
    ensures KindOk(e, j)
  {
    assert KindOk(d, j) && KindOk(d, k);
    HeaderKept(d, e, k, j);
    if j == Pcmp && Header(d, j) != -1 {
      ExtensionMissed(d, Header(d, j), k, Header(d, k));
    }
  }

  lemma WellFormedKept(d: Image, e: Image, k: Kind)
    requires WellFormed(d) && Header(d, k) != -1 && k != Pnp
    requires DifferAt(d, e, Header(d, k) + Chksum(k))
    ensures WellFormed(e)
  {
    forall j ensures KindOk(e, j) { KindKept(d, e, k, j); }
    forall i, j | i != j
      ensures KindOk(e, i) && KindOk(e, j) && Apart(e, i, j)
    {
      KindKept(d, e, k, i);
      KindKept(d, e, k, j);
      HeaderKept(d, e, k, i);
      HeaderKept(d, e, k, j);
      assert Apart(d, i, j);
    }
  }

  lemma BlockCompleted(d: Image, h: nat, len: nat, skip: nat, v: byte, e: Image)
    requires h + len <= LEN_BIOS_DATA && skip < len
    requires v == Complement(SumExcept(d, h, len, skip)) && e == d[h + skip := v]
    ensures SumRange(e, h, h + len) % 256 == 0
  {
    SumCompleted(d, h, len, skip, v);
    ComplementCancels(SumExcept(d, h, len, skip));
  }

  datatype Extent = Absent | Extent(start: nat, len: nat) | OutOfBounds(start: nat)

  /** Position and length of the block of kind `k`. */
  function Block(d: Image, k: Kind): Extent {
    var h := Header(d, k);
    if h == -1 then Absent
    else if h + MinHeader(k) <= MAX_OFFSET then Extent(h, BlockLen(d, k, h))
    else OutOfBounds(h)
  }

  /** The block of kind `k` in `d`, if there is one, sums to 0 modulo 256 in `e`. */
  predicate BlockSums(d: Image, e: Image, k: Kind) {
    match Block(d, k)
    case Absent => true
    case Extent(h, len) => h + len <= MAX_OFFSET && SumRange(e, h, h + len) % 256 == 0
    case OutOfBounds(_) => false
  }

  ghost predicate SameBlocks(d: Image, e: Image) {
    forall k {:trigger Block(e, k)} :: Block(e, k) == Block(d, k)
  }

  ghost predicate SameSignatures(d: Image, e: Image) {
    forall j: Kind, p: nat {:trigger SignatureAt(e, j, p)} :: p % 16 == 0 && p + 4 <= LEN_BIOS_DATA ==>
      SignatureAt(e, j, p) == SignatureAt(d, j, p)
  }

  lemma SignaturesKept(d: Image, e: Image, q: nat)
    requires DifferAt(d, e, q) && q % 16 >= 4
    ensures SameSignatures(d, e)
  {
    forall j: Kind, p: nat | p % 16 == 0 && p + 4 <= LEN_BIOS_DATA
      ensures SignatureAt(e, j, p) == SignatureAt(d, j, p)
    {
      SignatureKept(d, e, q, j, p);
    }
  }

  lemma BlocksKept(d: Image, e: Image, k: Kind)
    requires WellFormed(d) && Header(d, k) != -1
    requires DifferAt(d, e, Header(d, k) + Chksum(k))
    ensures SameBlocks(d, e)
  {
    forall j ensures Block(e, j) == Block(d, j) { HeaderKept(d, e, k, j); }
  }

  /** Position `i` holds the checksum of a header of `d`. */
  ghost predicate IsChksum(d: Image, i: nat) {
    exists k {:trigger Header(d, k)} :: Header(d, k) != -1 && i == Header(d, k) + Chksum(k)
  }

  /** Nothing but checksums has changed. */
  ghost predicate OnlyChksums(d: Image, e: Image) {
    forall i: nat {:trigger e[i]} :: i < LEN_BIOS_DATA && e[i] != d[i] ==> IsChksum(d, i)
  }

  /** What has become of `d`: blocks and signatures are where they were, the blocks of the kinds `fixed` sum
      to 0, and nothing but checksums has changed. */
  ghost predicate Kept(d: Image, e: Image, fixed: set<Kind>) {
    && SameSignatures(d, e) && SameBlocks(d, e) && OnlyChksums(d, e)
    && forall j {:trigger j in fixed} :: j in fixed ==> BlockSums(d, e, j)
  }

  lemma SameAgain(d: Image, e: Image, f: Image)
    requires SameBlocks(d, e) && SameBlocks(e, f) && SameSignatures(d, e) && SameSignatures(e, f)
    ensures SameBlocks(d, f) && SameSignatures(d, f)
  {
    forall j ensures Block(f, j) == Block(d, j) { assert Block(f, j) == Block(e, j); }
    forall j: Kind, p: nat | p % 16 == 0 && p + 4 <= LEN_BIOS_DATA
      ensures SignatureAt(f, j, p) == SignatureAt(d, j, p)
    {
      assert SignatureAt(f, j, p) == SignatureAt(e, j, p);
    }
  }

  /** Setting the checksum of a header keeps blocks and signatures where they are. */
  lemma ChksumWritten(e: Image, f: Image, k: Kind)
    requires WellFormed(e) && Header(e, k) != -1 && DifferAt(e, f, Header(e, k) + Chksum(k))
    ensures SameBlocks(e, f) && SameSignatures(e, f)
  {
    BlocksKept(e, f, k);
    ChksumOffBoundary(k, Header(e, k));
    SignaturesKept(e, f, Header(e, k) + Chksum(k));
  }

  /** The block that is fixed sums to 0. */
  lemma FixedSums(e: Image, k: Kind, h: nat, f: Image)
    requires KindOk(e, k) && h == Header(e, k)
    requires ChecksPass(e, k, h) && f == e[h + Chksum(k) := CalcValue(e, k, h)]
    ensures BlockSums(e, f, k)
  {
    BlockCompleted(e, h, BlockLen(e, k, h), Chksum(k), CalcValue(e, k, h), f);
  }

  /** A write to the checksum byte of kind `k` leaves the sums of the other blocks alone. */
  lemma SumsKept(d: Image, e: Image, f: Image, k: Kind, j: Kind)
    requires WellFormed(e) && Header(e, k) != -1 && j != k && Block(d, j) == Block(e, j)
    requires DifferAt(e, f, Header(e, k) + Chksum(k)) && BlockSums(d, e, j)
    ensures BlockSums(d, f, j)
  {
    if Header(e, j) != -1 {
      BlockSumKept(e, f, k, j, Header(e, j), BlockLen(e, j, Header(e, j)));
    }
  }

  lemma BlockSumKept(e: Image, f: Image, k: Kind, j: Kind, h: nat, len: nat)
    requires WellFormed(e) && Header(e, k) != -1 && j != k && h == Header(e, j)
    requires h + MinHeader(j) <= MAX_OFFSET && len == BlockLen(e, j, h) && h + len <= MAX_OFFSET
    requires DifferAt(e, f, Header(e, k) + Chksum(k))
    ensures SumRange(f, h, h + len) == SumRange(e, h, h + len)
  {
    ChksumOutside(e, k, j);
    SumKept(e, f, Header(e, k) + Chksum(k), h, h + len);
  }

  lemma OthersKept(d: Image, e: Image, fixed: set<Kind>, k: Kind, f: Image)
    requires WellFormed(e) && Kept(d, e, fixed) && Header(e, k) != -1
    requires DifferAt(e, f, Header(e, k) + Chksum(k))
    ensures forall j {:trigger j in fixed} :: j in fixed && j != k ==> BlockSums(d, f, j)
  {
    forall j | j in fixed && j != k
      ensures BlockSums(d, f, j)
    {
      assert Block(e, j) == Block(d, j) && BlockSums(d, e, j);
      SumsKept(d, e, f, k, j);
    }
  }

  lemma BlockSumsOf(d: Image, e: Image, f: Image, k: Kind)
    requires Block(e, k) == Block(d, k) && BlockSums(e, f, k)
    ensures BlockSums(d, f, k)
  {
  }

  /** Fixing the one header of kind `k` keeps what has been reached, and adds its own block. */
  lemma FixHeader(d: Image, e: Image, fixed: set<Kind>, k: Kind, h: nat, f: Image)
    requires WellFormed(e) && Kept(d, e, fixed) && h == Header(e, k)
    requires ChecksPass(e, k, h) && f == e[h + Chksum(k) := CalcValue(e, k, h)]
    ensures Kept(d, f, fixed + {k})
  {
    WrittenAt(e, k, h, f);
    OthersKept(d, e, fixed, k, f);
    ChksumWritten(e, f, k);
    SameAgain(d, e, f);
    FixedHere(d, e, k, h, f);
    ChksumOnly(d, e, f, k);
  }

  lemma ChksumOnly(d: Image, e: Image, f: Image, k: Kind)
    requires OnlyChksums(d, e) && SameBlocks(d, e) && Header(e, k) != -1
    requires DifferAt(e, f, Header(e, k) + Chksum(k))
    ensures OnlyChksums(d, f)
  {
    assert Block(e, k) == Block(d, k);
    forall i: nat | i < LEN_BIOS_DATA && f[i] != d[i]
      ensures IsChksum(d, i)
    {
      if i == Header(e, k) + Chksum(k) {
        assert i == Header(d, k) + Chksum(k);
      } else {
        assert e[i] != d[i];
      }
    }
  }

  lemma WrittenAt(e: Image, k: Kind, h: nat, f: Image)
    requires ChecksPass(e, k, h) && f == e[h + Chksum(k) := CalcValue(e, k, h)]
    ensures DifferAt(e, f, h + Chksum(k))
  {
  }

  lemma FixedHere(d: Image, e: Image, k: Kind, h: nat, f: Image)
    requires WellFormed(e) && SameBlocks(d, e) && h == Header(e, k)
    requires ChecksPass(e, k, h) && f == e[h + Chksum(k) := CalcValue(e, k, h)]
    ensures BlockSums(d, f, k)
  {
    assert KindOk(e, k) && Block(e, k) == Block(d, k);
    FixedSums(e, k, h, f);
    BlockSumsOf(d, e, f, k);
  }

  /** Fixing one kind makes its block sum to 0, keeps the sums of the other blocks, and keeps blocks and
      signatures where they are; up to the last kind, the image also stays well formed. */
  lemma FixOne(d: Image, e: Image, fixed: set<Kind>, k: Kind)
    requires WellFormed(e) && Kept(d, e, fixed)
    ensures AllPass(e, k, 0) && Kept(d, Fixed(e, k), fixed + {k})
    ensures k != Pnp ==> WellFormed(Fixed(e, k))
  {
    assert KindOk(e, k);
    OnlyHeaderPasses(e, k);
    var f, h := Fixed(e, k), Header(e, k);
    assert Block(e, k) == Block(d, k);
    if h != -1 {
      FixHeader(d, e, fixed, k, h, f);
      if k != Pnp {
        WellFormedKept(e, f, k);
      }
    }
  }

  /** The checks pass in all five steps, which fix every block. */
  lemma FixFive(d: Image) returns (e: Image)
    requires WellFormed(d)
    ensures Accepted(d) && Final(d) == Sealed(e) && Kept(d, e, {Pci32, Mp, Pcmp, Pir, Pnp})
  {
    FixOne(d, d, {}, Pci32);
    var d1 := Fixed(d, Pci32);
    FixOne(d, d1, {Pci32}, Mp);
    var d2 := Fixed(d1, Mp);
    FixOne(d, d2, {Pci32, Mp}, Pcmp);
    var d3 := Fixed(d2, Pcmp);
    FixOne(d, d3, {Pci32, Mp, Pcmp}, Pir);
    var d4 := Fixed(d3, Pir);
    FixOne(d, d4, {Pci32, Mp, Pcmp, Pir}, Pnp);
    e := Fixed(d4, Pnp);
  }

  /** The last write lies outside every block, and completes the sum of the whole image. */
  lemma SealKeeps(d: Image, e: Image, k: Kind)
    requires BlockSums(d, e, k)
    ensures BlockSums(d, Sealed(e), k)
  {
    match Block(d, k)
    case Absent =>
    case Extent(h, len) =>
      SumKept(e, Sealed(e), MAX_OFFSET, h, h + len);
  }

  lemma SealCompletes(e: Image)
    ensures SumRange(Sealed(e), 0, LEN_BIOS_DATA) % 256 == 0 && SameSignatures(e, Sealed(e))
  {
    var f := Sealed(e);
    assert DifferAt(e, f, MAX_OFFSET);
    SignaturesKept(e, f, MAX_OFFSET);
    SumKept(e, f, MAX_OFFSET, 0, MAX_OFFSET);
    ComplementCancels(SumRange(e, 0, MAX_OFFSET));
  }

  /** On an image with at most one header of each kind, all in order and with disjoint blocks, the fix-up
      goes through; then every block and the whole image sum to 0 modulo 256, every signature is where it
      was, and nothing has changed but checksums and the last byte. */
  lemma FixUpSums(d: Image)
    requires WellFormed(d)
    ensures Accepted(d) && SumRange(Final(d), 0, LEN_BIOS_DATA) % 256 == 0
    ensures SameSignatures(d, Final(d))
    ensures forall k :: BlockSums(d, Final(d), k)
    ensures forall i: nat :: i < MAX_OFFSET && Final(d)[i] != d[i] ==> IsChksum(d, i)
  {
    var e := FixFive(d);
    var f := Final(d);
    SealCompletes(e);
    forall k ensures BlockSums(d, f, k) {
      EveryKind(k);
      SealKeeps(d, e, k);
    }
    forall j: Kind, p: nat | p % 16 == 0 && p + 4 <= LEN_BIOS_DATA
      ensures SignatureAt(f, j, p) == SignatureAt(d, j, p)
    {
      assert SignatureAt(f, j, p) == SignatureAt(e, j, p);
    }
    forall i: nat | i < MAX_OFFSET && f[i] != d[i]
      ensures IsChksum(d, i)
    {
      assert f[i] == e[i];
    }
  }

  lemma EveryKind(k: Kind)
    ensures k in {Pci32, Mp, Pcmp, Pir, Pnp}
  {
    match k
    case Pci32 => case Mp => case Pcmp => case Pir => case Pnp =>
  }

  // ---------------------------------------------------------------- the code

  lemma SumStep(d: Image, i: nat, sum: nat)
    requires i < LEN_BIOS_DATA && sum == SumRange(d, 0, i) % 256
    ensures SumRange(d, 0, i + 1) % 256 == (sum + d[i] as nat) % 256
  {
  }

  lemma SumExceptStep(d: Image, off: nat, i: nat, skip: nat, sum: nat)
    requires off + i < LEN_BIOS_DATA && sum == SumExcept(d, off, i, skip) % 256
    ensures SumExcept(d, off, i + 1, skip) % 256 == if i == skip then sum else (sum + d[off + i] as nat) % 256
  {
  }

  lemma ComplementOfRest(sum: nat)
    ensures Complement(sum % 256) == Complement(sum)
  {
  }

  class Fixer {
    const data: array<byte>

    constructor (image: Image)
      ensures data.Length == LEN_BIOS_DATA && data[..] == image && fresh(data)
    {
      data := new byte[LEN_BIOS_DATA](i requires 0 <= i < |image| => image[i]);
    }

    method GetOffset(k: Kind, from: nat) returns (result: int)
      requires data.Length == LEN_BIOS_DATA && from % 16 == 0
      ensures result == NextHeader(data[..], k, from)
    {
      var offset := from;
      ghost var d := data[..];
      while offset + 16 < MAX_OFFSET
        invariant offset % 16 == 0 && NextHeader(d, k, from) == NextHeader(d, k, offset)
      {
        offset := offset + 16;
        if data[offset] == Signature(k)[0] && data[offset + 1] == Signature(k)[1]
           && data[offset + 2] == Signature(k)[2] && data[offset + 3] == Signature(k)[3] {
          return offset;
        }
      }
      return -1;
    }

    /** `ok` is false when a check fails and the program ends. */
    method Calc(k: Kind, offset: nat) returns (ok: bool, value: byte)
      requires data.Length == LEN_BIOS_DATA
      ensures ok == ChecksPass(data[..], k, offset)
      ensures ok ==> value == CalcValue(data[..], k, offset)
    {
      value := 0;
      if offset + MinHeader(k) > MAX_OFFSET {
        return false, value;
      }
      ghost var d := data[..];
      var len := match k
        case Pci32 => data[offset + 9] as nat * 16
        case Mp => data[offset + 8] as nat * 16
        case Pcmp => data[offset + 4] as nat + data[offset + 5] as nat * 256
        case Pir => data[offset + 6] as nat + data[offset + 7] as nat * 256
        case Pnp => data[offset + 5] as nat;
      if offset + len > MAX_OFFSET {
        return false, value;
      }
      if k == Pcmp && (data[offset + 40] != 0 || data[offset + 41] != 0 || data[offset + 42] != 0) {
        return false, value;
      }
      ok := true;
      value := SumBlock(offset, len, Chksum(k));
    }

    /** The loop that adds up a block, in a byte, and negates the sum. */
    method SumBlock(offset: nat, len: nat, skip: nat) returns (value: byte)
      requires data.Length == LEN_BIOS_DATA && offset + len <= LEN_BIOS_DATA
      ensures value == Complement(SumExcept(data[..], offset, len, skip))
    {
      ghost var d := data[..];
      var sum: nat := 0;
      var i := 0;
      while i < len
        invariant 0 <= i <= len && sum == SumExcept(d, offset, i, skip) % 256
      {
        SumExceptStep(d, offset, i, skip, sum);
        if i != skip {
          sum := (sum + data[offset + i] as nat) % 256;
        }
        i := i + 1;
      }
      ComplementOfRest(SumExcept(d, offset, len, skip));
      value := Complement(sum);
    }

    /** The loop that adds up the first `n` bytes, in a byte. */
    method AddUp(n: nat) returns (sum: nat)
      requires data.Length == LEN_BIOS_DATA && n <= LEN_BIOS_DATA
      ensures sum == SumRange(data[..], 0, n) % 256
    {
      ghost var d := data[..];
      sum := 0;
      var i := 0;
      while i < n
        invariant 0 <= i <= n && sum == SumRange(d, 0, i) % 256
      {
        SumStep(d, i, sum);
        sum := (sum + data[i] as nat) % 256;
        i := i + 1;
      }
    }

    /** `chksum_bios_calc_value`: the sum of all bytes but the last, negated. */
    method CalcWhole() returns (value: byte)
      requires data.Length == LEN_BIOS_DATA
      ensures value == Complement(SumRange(data[..], 0, MAX_OFFSET))
    {
      var sum := AddUp(MAX_OFFSET);
      value := Complement(sum);
    }

    /** The last step: sets the byte at the end of the image unless it is right already. */
    method Seal()
      requires data.Length == LEN_BIOS_DATA
      modifies data
      ensures data[..] == Sealed(old(data[..]))
    {
      var value := CalcWhole();
      if data[MAX_OFFSET] != value {
        data[MAX_OFFSET] := value;
      }
    }

    /** The whole fix-up; `ok` is false when a check fails and the program ends without writing. */
    method FixAll() returns (ok: bool)
      requires data.Length == LEN_BIOS_DATA
      modifies data
      ensures ok == Accepted(old(data[..]))
      ensures ok ==> data[..] == Final(old(data[..]))
    {
      ok := Fix(Pci32);
      if ok {
        ok := Fix(Mp);
      }
      if ok {
        ok := Fix(Pcmp);
      }
      if ok {
        ok := Fix(Pir);
      }
      if ok {
        ok := Fix(Pnp);
      }
      if ok {
        Seal();
      }
    }

    /** The search for all headers of kind `k`, each of which is checked. */
    method FindAll(k: Kind) returns (ok: bool, hits: nat, offset: nat, curVal: byte, newVal: byte)
      requires data.Length == LEN_BIOS_DATA
      ensures ok == AllPass(data[..], k, 0)
      ensures ok ==> (hits == 1 <==> Single(data[..], k) != -1)
      ensures ok && hits == 1 ==>
        && offset == Single(data[..], k) && ChecksPass(data[..], k, offset)
        && newVal == CalcValue(data[..], k, offset) && curVal == data[offset + Chksum(k)]
    {
      ghost var d := data[..];
      hits, offset, curVal, newVal := 0, 0, 0, 0;
      var tmp := GetOffset(k, offset);
      while tmp != -1
        invariant offset % 16 == 0 && tmp == NextHeader(d, k, offset)
        invariant AllPass(d, k, 0) == AllPass(d, k, offset)
        invariant hits == 0 ==> offset == 0
        invariant hits == 1 ==> offset == NextHeader(d, k, 0)
        invariant hits >= 1 ==> ChecksPass(d, k, offset) && newVal == CalcValue(d, k, offset)
        invariant hits >= 1 ==> curVal == d[offset + Chksum(k)] && NextHeader(d, k, 0) != -1
        invariant hits >= 2 ==> NextHeader(d, k, NextHeader(d, k, 0)) != -1
        decreases MAX_OFFSET - offset
      {
        if hits == 1 {
          assert NextHeader(d, k, NextHeader(d, k, 0)) == tmp;
        }
        offset := tmp;
        ok, newVal := Calc(k, offset);
        if !ok {
          return;
        }
        curVal := data[offset + Chksum(k)];
        hits := hits + 1;
        tmp := GetOffset(k, offset);
      }
      ok := true;
    }

    /** Looks for all headers of kind `k` and sets the checksum if there is just one. */
    method Fix(k: Kind) returns (ok: bool)
      requires data.Length == LEN_BIOS_DATA
      modifies data
      ensures ok == AllPass(old(data[..]), k, 0)
      ensures data[..] == if ok then Fixed(old(data[..]), k) else old(data[..])
    {
      var hits, offset, curVal, newVal;
      ok, hits, offset, curVal, newVal := FindAll(k);
      if ok && hits == 1 && curVal != newVal {
        data[offset + Chksum(k)] := newVal;
      }
    }
  }
}
