/** The table-driven CRC-32 of `crc.cc`, with the polynomial of the frame check sequence in section
    3.2.9 of IEEE 802.3.

    A `Bit32u` is the sequence of its 32 bits and a `Bit8u` that of its 8 bits, most significant bit
    first: a left shift drops bits at the front and appends zeros. */
module Crc {
  import opened Bits

  type Word = w: seq<bool> | |w| == 32 witness Zeros(32)
  type Byte = b: seq<bool> | |b| == 8 witness Zeros(8)

  function Xor(a: seq<bool>, b: seq<bool>): (r: seq<bool>)
    requires |a| == |b|
    ensures |r| == |a| && forall i :: 0 <= i < |a| ==> r[i] == (a[i] != b[i])
  {
    seq(|a|, i requires 0 <= i < |a| => a[i] != b[i])
  }

  function Not(a: seq<bool>): (r: seq<bool>)
    ensures |r| == |a| && forall i :: 0 <= i < |a| ==> r[i] == !a[i]
  {
    seq(|a|, i requires 0 <= i < |a| => !a[i])
  }

  /** A left shift by `n`. */
  function Shl(w: Word, n: nat): Word
    requires n <= 32
  {
    w[n..] + Zeros(n)
  }

  /** The polynomial 0x04c11db7, one hexadecimal digit per line. */
  function Poly(): Word {
    [false, false, false, false,
     false, true, false, false,
     true, true, false, false,
     false, false, false, true,
     false, false, false, true,
     true, true, false, true,
     true, false, true, true,
     false, true, true, true]
  }

  /** The exponents of the polynomial in section 3.2.9 of IEEE 802.3, other than 32. */
  const EXPONENTS: set<nat> := {26, 23, 22, 16, 12, 11, 10, 8, 7, 5, 4, 2, 1, 0}

  /** The four bytes of the polynomial: 0x04, 0xc1, 0x1d, 0xb7. */
  predicate FirstByte(p: Word) { !p[0] && !p[1] && !p[2] && !p[3] && !p[4] && p[5] && !p[6] && !p[7] }

  predicate SecondByte(p: Word) { p[8] && p[9] && !p[10] && !p[11] && !p[12] && !p[13] && !p[14] && p[15] }

  predicate ThirdByte(p: Word) { !p[16] && !p[17] && !p[18] && p[19] && p[20] && p[21] && !p[22] && p[23] }

  predicate FourthByte(p: Word) { p[24] && !p[25] && p[26] && p[27] && !p[28] && p[29] && p[30] && p[31] }

  lemma PolyFirst()
    ensures FirstByte(Poly())
  {
  }

  lemma PolySecond()
    ensures SecondByte(Poly())
  {
  }

  lemma PolyThird()
    ensures ThirdByte(Poly())
  {
  }

  lemma PolyFourth()
    ensures FourthByte(Poly())
  {
  }

  function Bit(b: bool): nat { if b then 1 else 0 }

  lemma ValueOfByte(b: seq<bool>, k: nat)
    requires k + 8 <= |b|
    ensures Value(b[k..k + 8])
         == 128 * Bit(b[k]) + 64 * Bit(b[k + 1]) + 32 * Bit(b[k + 2]) + 16 * Bit(b[k + 3])
          + 8 * Bit(b[k + 4]) + 4 * Bit(b[k + 5]) + 2 * Bit(b[k + 6]) + Bit(b[k + 7])
  {
    ValueOfDigit(b, k);
    ValueOfDigit(b, k + 4);
    assert b[k..k + 8] == b[k..k + 4] + b[k + 4..k + 8];
    ValueConcat(b[k..k + 4], b[k + 4..k + 8]);
    assert Power2(4) == 2 * 2 * Power2(2);
  }

  lemma ValueOfDigit(b: seq<bool>, k: nat)
    requires k + 4 <= |b|
    ensures Value(b[k..k + 4]) == 8 * Bit(b[k]) + 4 * Bit(b[k + 1]) + 2 * Bit(b[k + 2]) + Bit(b[k + 3])
  {
    ValueOfPair(b, k);
    ValueOfPair(b, k + 2);
    assert b[k..k + 4] == b[k..k + 2] + b[k + 2..k + 4];
    ValueConcat(b[k..k + 2], b[k + 2..k + 4]);
    assert Power2(2) == 4;
  }

  lemma ValueOfPair(b: seq<bool>, k: nat)
    requires k + 2 <= |b|
    ensures Value(b[k..k + 2]) == 2 * Bit(b[k]) + Bit(b[k + 1])
  {
    assert b[k..k + 2] == [] + [b[k]] + [b[k + 1]];
    ValueAppend([], b[k]);
    ValueAppend([] + [b[k]], b[k + 1]);
  }

  lemma ValueOfTwo(p: seq<bool>, i: nat, a: nat, b: nat)
    requires i + 16 <= |p| && Value(p[i..i + 8]) == a && Value(p[i + 8..i + 16]) == b
    ensures Value(p[i..i + 16]) == 0x100 * a + b
  {
    assert p[i..i + 16] == p[i..i + 8] + p[i + 8..i + 16];
    Power8();
    ValueConcat(p[i..i + 8], p[i + 8..i + 16]);
  }

  lemma ValueOfBytes(p: seq<bool>, a: nat, b: nat, c: nat, d: nat)
    requires |p| == 32 && Value(p[0..8]) == a && Value(p[8..16]) == b && Value(p[16..24]) == c && Value(p[24..32]) == d
    ensures Value(p) == 0x100_0000 * a + 0x1_0000 * b + 0x100 * c + d
  {
    ValueOfTwo(p, 0, a, b);
    ValueOfTwo(p, 16, c, d);
    ValueOfHalves(p, 0x100 * a + b, 0x100 * c + d);
  }

  lemma ValueOfHalves(p: seq<bool>, high: nat, low: nat)
    requires |p| == 32 && Value(p[0..16]) == high && Value(p[16..32]) == low
    ensures Value(p) == 0x1_0000 * high + low
  {
    var h, l := p[0..16], p[16..32];
    assert p == h + l;
    Power16();
    ValueConcat(h, l);
  }

  lemma Power16()
    ensures Power2(16) == 0x1_0000
  {
    var n := 8;
    Power8();
    Power2Sum(n, n);
  }

  lemma Power8()
    ensures Power2(8) == 0x100
  {
    assert Power2(4) == 2 * 2 * Power2(2);
    assert Power2(8) == 2 * 2 * Power2(6) && Power2(6) == 2 * 2 * Power2(4);
  }

  lemma LowExponents(p: Word, e: nat)
    requires e < 16 && ThirdByte(p) && FourthByte(p)
    ensures p[31 - e] <==> e in EXPONENTS
  {
    if e < 8 {
      assert e == 0 || e == 1 || e == 2 || e == 3 || e == 4 || e == 5 || e == 6 || e == 7;
    } else {
      assert e == 8 || e == 9 || e == 10 || e == 11 || e == 12 || e == 13 || e == 14 || e == 15;
    }
  }

  lemma HighExponents(p: Word, e: nat)
    requires 16 <= e < 32 && FirstByte(p) && SecondByte(p)
    ensures p[31 - e] <==> e in EXPONENTS
  {
    if e < 24 {
      assert e == 16 || e == 17 || e == 18 || e == 19 || e == 20 || e == 21 || e == 22 || e == 23;
    } else {
      assert e == 24 || e == 25 || e == 26 || e == 27 || e == 28 || e == 29 || e == 30 || e == 31;
    }
  }

  lemma FirstHalf(p: Word)
    requires FirstByte(p) && SecondByte(p)
    ensures Value(p[0..8]) == 0x04 && Value(p[8..16]) == 0xc1
  {
    var byte := 8;
    ValueOfByte(p, 0);
    ValueOfByte(p, byte);
  }

  lemma SecondHalf(p: Word)
    requires ThirdByte(p) && FourthByte(p)
    ensures Value(p[16..24]) == 0x1d && Value(p[24..32]) == 0xb7
  {
    var byte := 8;
    ValueOfByte(p, 2 * byte);
    ValueOfByte(p, 3 * byte);
  }

  /** The polynomial is the number in the code, and that of the standard. */
  lemma PolyIsIeee()
    ensures Value(Poly()) == 0x04c1_1db7
    ensures forall e: nat :: e < 32 ==> (Poly()[31 - e] <==> e in EXPONENTS)
  {
    PolyFirst();
    PolySecond();
    PolyThird();
    PolyFourth();
    Exponents(Poly());
    FirstHalf(Poly());
    SecondHalf(Poly());
    ValueOfBytes(Poly(), 0x04, 0xc1, 0x1d, 0xb7);
  }

  lemma Exponents(p: Word)
    requires FirstByte(p) && SecondByte(p) && ThirdByte(p) && FourthByte(p)
    ensures forall e: nat :: e < 32 ==> (p[31 - e] <==> e in EXPONENTS)
  {
    forall e: nat | e < 32
      ensures p[31 - e] <==> e in EXPONENTS
    {
      if e < 16 {
        LowExponents(p, e);
      } else {
        HighExponents(p, e);
      }
    }
  }

  // ---------------------------------------------------------------- the bit-serial code

  /** One shift of the register. */
  function Step(c: Word): Word {
    if c[0] then Xor(Shl(c, 1), Poly()) else Shl(c, 1)
  }

  function Steps(c: Word, n: nat): Word
    decreases n
  {
    if n == 0 then c else Steps(Step(c), n - 1)
  }

  /** `bits` as the leading bits of a word. */
  function Lead(bits: seq<bool>): Word
    requires |bits| <= 32
  {
    bits + Zeros(32 - |bits|)
  }

  /** The register after absorbing `bits` one at a time. */
  function Serial(r: Word, bits: seq<bool>): Word
    decreases |bits|
  {
    if bits == [] then r else Serial(Step(Xor(r, Lead([bits[0]]))), bits[1..])
  }

  /** The bits of a message in the order they are sent. */
  function Flatten(message: seq<Byte>): (r: seq<bool>)
    ensures |r| == 8 * |message|
  {
    if message == [] then [] else message[0] + Flatten(message[1..])
  }

  /** The reference: preload all ones, absorb bit by bit, complement. */
  function SerialCrc(bits: seq<bool>): Word { Not(Serial(Not(Zeros(32)), bits)) }

  // ---------------------------------------------------------------- the step is linear and injective

  lemma StepLinear(a: Word, b: Word)
    ensures Step(Xor(a, b)) == Xor(Step(a), Step(b))
  {
  }

  lemma {:induction false} StepsLinear(a: Word, b: Word, n: nat)
    ensures Steps(Xor(a, b), n) == Xor(Steps(a, n), Steps(b, n))
    decreases n
  {
    if n > 0 {
      StepLinear(a, b);
      StepsLinear(Step(a), Step(b), n - 1);
    }
  }

  lemma PolyIsOdd()
    ensures Poly()[31]
  {
  }

  /** The last bit of the result tells whether the polynomial was added. */
  lemma StepInjective(a: Word, b: Word)
    requires Step(a) == Step(b)
    ensures a == b
  {
    PolyIsOdd();
    assert Step(a)[31] == a[0] && Step(b)[31] == b[0];
    forall i | 1 <= i < 32
      ensures a[i] == b[i]
    {
      assert Step(a)[i - 1] == Step(b)[i - 1];
    }
  }

  lemma {:induction false} StepsInjective(a: Word, b: Word, n: nat)
    requires Steps(a, n) == Steps(b, n)
    ensures a == b
    decreases n
  {
    if n > 0 {
      StepsInjective(Step(a), Step(b), n - 1);
      StepInjective(a, b);
    }
  }

  lemma XorCancels(r: Word, a: Word, b: Word)
    requires Xor(r, a) == Xor(r, b)
    ensures a == b
  {
    forall i | 0 <= i < 32
      ensures a[i] == b[i]
    {
      assert Xor(r, a)[i] == Xor(r, b)[i];
    }
  }

  // ---------------------------------------------------------------- absorbing many bits at once

  lemma AbsorbFirst(r: Word, bits: seq<bool>)
    requires 1 <= |bits| <= 32
    ensures Step(Xor(r, Lead(bits))) == Xor(Step(Xor(r, Lead([bits[0]]))), Lead(bits[1..]))
  {
    var rest := Lead([false] + bits[1..]);
    assert Xor(r, Lead(bits)) == Xor(Xor(r, Lead([bits[0]])), rest);
    StepLinear(Xor(r, Lead([bits[0]])), rest);
    assert Step(rest) == Lead(bits[1..]);
  }

  /** Absorbing up to 32 bits is adding them all at once and then shifting. */
  lemma {:induction false} AbsorbBits(r: Word, bits: seq<bool>)
    requires |bits| <= 32
    ensures Serial(r, bits) == Steps(Xor(r, Lead(bits)), |bits|)
    decreases |bits|
  {
    if bits == [] {
      assert Xor(r, Lead(bits)) == r;
    } else {
      AbsorbFirst(r, bits);
      AbsorbBits(Step(Xor(r, Lead([bits[0]]))), bits[1..]);
    }
  }

  lemma {:induction false} SerialConcat(r: Word, a: seq<bool>, b: seq<bool>)
    ensures Serial(r, a + b) == Serial(Serial(r, a), b)
    decreases |a|
  {
    if a == [] {
      assert a + b == b;
    } else {
      assert (a + b)[1..] == a[1..] + b;
      SerialConcat(Step(Xor(r, Lead([a[0]]))), a[1..], b);
    }
  }

  lemma {:induction false} SerialInjective(a: Word, b: Word, bits: seq<bool>)
    requires Serial(a, bits) == Serial(b, bits)
    ensures a == b
    decreases |bits|
  {
    if bits != [] {
      var t := Lead([bits[0]]);
      SerialInjective(Step(Xor(a, t)), Step(Xor(b, t)), bits[1..]);
      StepInjective(Xor(a, t), Xor(b, t));
      assert Xor(t, a) == Xor(a, t) && Xor(t, b) == Xor(b, t);
      XorCancels(t, a, b);
    }
  }

  // ---------------------------------------------------------------- burst errors

  lemma WindowInjective(r: Word, u: seq<bool>, v: seq<bool>)
    requires |u| == |v| <= 32 && Serial(r, u) == Serial(r, v)
    ensures u == v
  {
    AbsorbBits(r, u);
    AbsorbBits(r, v);
    StepsInjective(Xor(r, Lead(u)), Xor(r, Lead(v)), |u|);
    XorCancels(r, Lead(u), Lead(v));
    assert u == Lead(u)[..|u|] && v == Lead(v)[..|v|];
  }

  /** Every burst error of at most 32 bits is detected: two messages that agree except within some
      32 consecutive bits have different codes. */
  lemma BurstDetected(before: seq<bool>, u: seq<bool>, v: seq<bool>, after: seq<bool>)
    requires |u| == |v| <= 32 && u != v
    ensures SerialCrc(before + u + after) != SerialCrc(before + v + after)
  {
    var ones := Not(Zeros(32));
    var r := Serial(ones, before);
    SerialConcat(ones, before + u, after);
    SerialConcat(ones, before, u);
    SerialConcat(ones, before + v, after);
    SerialConcat(ones, before, v);
    var x, y := Serial(Serial(r, u), after), Serial(Serial(r, v), after);
    if Not(x) == Not(y) {
      assert x == Not(Not(x)) == Not(Not(y)) == y;
      SerialInjective(Serial(r, u), Serial(r, v), after);
      WindowInjective(r, u, v);
    }
  }

  // ---------------------------------------------------------------- the receiver's check

  /** What the register holds after a message and its own code have come in, the same for every message. */
  function Residue(): Word { Steps(Not(Zeros(32)), 32) }

  lemma NotIsXor(r: Word, code: Word, ones: Word)
    requires ones == Not(Zeros(32))
    ensures Xor(r, code) == ones <==> code == Not(r)
  {
    if Xor(r, code) == ones {
      forall i | 0 <= i < 32
        ensures code[i] == Not(r)[i]
      {
        assert Xor(r, code)[i] == ones[i];
      }
    }
  }

  /** A receiver that sends a message and the code behind it through the register finds the residue exactly if
      the code is that of the message. */
  lemma ResidueTells(bits: seq<bool>, code: Word)
    ensures Serial(Not(Zeros(32)), bits + code) == Residue() <==> code == SerialCrc(bits)
  {
    var ones := Not(Zeros(32));
    var r := Serial(ones, bits);
    SerialConcat(ones, bits, code);
    AbsorbBits(r, code);
    assert Lead(code) == code;
    NotIsXor(r, code, ones);
    if Steps(Xor(r, code), 32) == Residue() {
      StepsInjective(Xor(r, code), ones, 32);
    }
  }

  /** The code of no bytes at all is 0; the code of four bytes 0xff is 0xffffffff. */
  lemma KnownCodes()
    ensures SerialCrc([]) == Zeros(32)
    ensures SerialCrc(Not(Zeros(32))) == Not(Zeros(32))
  {
    var ones, zeros, n := Not(Zeros(32)), Zeros(32), 32;
    assert Not(ones) == zeros;
    AllAbsorbed(ones, zeros, n);
  }

  lemma AllAbsorbed(ones: Word, zeros: Word, n: nat)
    requires zeros == Zeros(n) && ones == Not(zeros) && n == 32
    ensures Serial(ones, ones) == zeros
  {
    AbsorbBits(ones, ones);
    assert Lead(ones) == ones && Xor(ones, ones) == zeros;
    StepsShift(zeros, n);
    assert Shl(zeros, n) == zeros;
  }

  // ---------------------------------------------------------------- one byte at a time

  /** The table entry for `i`: eight shifts of `i << 24`. */
  function Entry(i: nat): Word {
    Steps(Lead(BitsOf(i, 8)), 8)
  }

  /** The loop body of `crc32`: a table lookup per byte. */
  function ByteStep(crc: Word, p: Byte): Word {
    Xor(Shl(crc, 8), Entry(Value(Xor(crc[..8], p))))
  }

  /** As long as only zeros come out, shifting is all that a step does. */
  lemma {:induction false} StepsShift(c: Word, n: nat)
    requires n <= 32 && forall i :: 0 <= i < n ==> !c[i]
    ensures Steps(c, n) == Shl(c, n)
    decreases n
  {
    if n > 0 {
      StepsShift(Shl(c, 1), n - 1);
      assert Shl(Shl(c, 1), n - 1) == Shl(c, n);
    } else {
      assert Shl(c, 0) == c;
    }
  }

  /** A table lookup absorbs the eight bits of a byte. */
  lemma ByteStepIsSerial(crc: Word, p: Byte)
    ensures ByteStep(crc, p) == Serial(crc, p)
  {
    var index := Xor(crc[..8], p);
    var low := Zeros(8) + crc[8..];
    AbsorbBits(crc, p);
    assert Xor(crc, Lead(p)) == Xor(low, Lead(index));
    StepsLinear(low, Lead(index), 8);
    StepsShift(low, 8);
    assert Shl(low, 8) == Shl(crc, 8);
    BitsOfValue(index);
  }

  lemma {:induction false} FlattenExtend(message: seq<Byte>, p: Byte)
    ensures Flatten(message + [p]) == Flatten(message) + p
  {
    if message != [] {
      assert (message + [p])[1..] == message[1..] + [p];
      FlattenExtend(message[1..], p);
    }
  }

  lemma LeadOfOne(one: Word, bits: Byte)
    requires bits == Zeros(7) + [true] && one == Lead(bits)
    ensures forall i :: 0 <= i < 32 ==> one[i] == (i == 7)
    ensures var top := Shl(one, 7); forall i :: 0 <= i < 32 ==> top[i] == (i == 0)
  {
  }

  /** The entry for 1 is the polynomial itself, so it is not zero. */
  lemma EntryOneIsPoly()
    ensures Entry(1) == Poly() && Poly() != Zeros(32)
  {
    var one := Lead(BitsOf(1, 8));
    var top := Shl(one, 7);
    assert BitsOf(1, 8) == Zeros(7) + [true] by { BitsOfZero(7); }
    LeadOfOne(one, BitsOf(1, 8));
    StepsShift(one, 7);
    StepsSplit(one, 7, 1);
    assert Steps(top, 1) == Step(top) by { assert Steps(Step(top), 0) == Step(top); }
    TopAlone(top, Poly());
    PolyIsOdd();
  }

  lemma TopAlone(top: Word, poly: Word)
    requires poly == Poly() && top[0] && forall i :: 1 <= i < 32 ==> !top[i]
    ensures Step(top) == poly
  {
  }

  lemma {:induction false} BitsOfZero(n: nat)
    ensures BitsOf(0, n) == Zeros(n)
    decreases n
  {
    if n > 0 {
      BitsOfZero(n - 1);
    }
  }

  lemma {:induction false} StepsSplit(c: Word, a: nat, b: nat)
    ensures Steps(c, a + b) == Steps(Steps(c, a), b)
    decreases a
  {
    if a > 0 {
      StepsSplit(Step(c), a - 1, b);
    }
  }

  /** Two messages of equal length that differ only within some four consecutive bytes have different
      codes. */
  lemma FourBytesDetected(before: seq<Byte>, u: seq<Byte>, v: seq<Byte>, after: seq<Byte>)
    requires |u| == |v| <= 4 && u != v
    ensures SerialCrc(Flatten(before + u + after)) != SerialCrc(Flatten(before + v + after))
  {
    FlattenConcat(before + u, after);
    FlattenConcat(before, u);
    FlattenConcat(before + v, after);
    FlattenConcat(before, v);
    if Flatten(u) == Flatten(v) {
      FlattenInjective(u, v);
    }
    BurstDetected(Flatten(before), Flatten(u), Flatten(v), Flatten(after));
  }

  lemma {:induction false} FlattenConcat(a: seq<Byte>, b: seq<Byte>)
    ensures Flatten(a + b) == Flatten(a) + Flatten(b)
  {
    if a == [] {
      assert a + b == b;
    } else {
      assert (a + b)[1..] == a[1..] + b;
      FlattenConcat(a[1..], b);
    }
  }

  lemma {:induction false} FlattenInjective(a: seq<Byte>, b: seq<Byte>)
    requires |a| == |b| && Flatten(a) == Flatten(b)
    ensures a == b
  {
    if a != [] {
      assert a[0] == Flatten(a)[..8] && b[0] == Flatten(b)[..8];
      assert Flatten(a[1..]) == Flatten(a)[8..] && Flatten(b[1..]) == Flatten(b)[8..];
      FlattenInjective(a[1..], b[1..]);
    }
  }

  // ---------------------------------------------------------------- the code

  class Crc32 {
    /** `crc32_table`; all zero until the first call. */
    const table: array<Word>

    ghost predicate Built()
      reads this, table
    {
      table.Length == 256 && forall i :: 0 <= i < 256 ==> table[i] == Entry(i)
    }

    ghost predicate Valid()
      reads this, table
    {
      Built() || (table.Length == 256 && forall i :: 0 <= i < 256 ==> table[i] == Zeros(32))
    }

    constructor ()
      ensures Valid() && fresh(table)
    {
      table := new Word[256](_ => Zeros(32));
    }

    /** `crc32_table[1]` tells whether the table has been built. */
    lemma SecondEntryTells()
      requires Valid()
      ensures table[1] != Zeros(32) <==> Built()
    {
      EntryOneIsPoly();
    }

    method Init()
      requires table.Length == 256
      modifies table
      ensures Built()
    {
      var i := 0;
      while i < 256
        invariant i <= 256
        invariant forall k :: 0 <= k < i ==> table[k] == Entry(k)
      {
        var c := EightShifts(Lead(BitsOf(i, 8)));
        table[i] := c;
        i := i + 1;
      }
    }

    /** The inner loop of the table construction. */
    static method EightShifts(start: Word) returns (c: Word)
      ensures c == Steps(start, 8)
    {
      c := start;
      var j := 8;
      while j > 0
        invariant 0 <= j <= 8 && Steps(c, j) == Steps(start, 8)
      {
        c := if c[0] then Xor(Shl(c, 1), Poly()) else Shl(c, 1);
        j := j - 1;
      }
    }

    /** The loop body of `crc32`. */
    method Lookup(crc: Word, p: Byte) returns (next: Word)
      requires Built()
      ensures next == ByteStep(crc, p)
    {
      var index := Xor(crc[..8], p);
      IndexInTable(index);
      next := Xor(Shl(crc, 8), table[Value(index)]);
    }

    /** The table-driven code computes the bit-serial code of every message. */
    method Compute(buf: seq<Byte>) returns (crc: Word)
      requires Valid()
      modifies table
      ensures Built() && crc == SerialCrc(Flatten(buf))
    {
      SecondEntryTells();
      if table[1] == Zeros(32) {
        Init();
      }
      crc := Not(Zeros(32));
      var p, len := 0, |buf|;
      while len > 0
        invariant 0 <= len && p + len == |buf| && Built()
        invariant crc == After(buf, p)
      {
        OneMoreByte(crc, buf, p);
        crc := Lookup(crc, buf[p]);
        p, len := p + 1, len - 1;
      }
      assert buf[..p] == buf;
      crc := Not(crc);
    }
  }

  /** The bit-serial register after the first `p` bytes. */
  ghost function After(buf: seq<Byte>, p: nat): Word
    requires p <= |buf|
  {
    Serial(Not(Zeros(32)), Flatten(buf[..p]))
  }

  lemma OneMoreByte(crc: Word, buf: seq<Byte>, p: nat)
    requires p < |buf| && crc == After(buf, p)
    ensures ByteStep(crc, buf[p]) == After(buf, p + 1)
  {
    assert buf[..p + 1] == buf[..p] + [buf[p]];
    FlattenExtend(buf[..p], buf[p]);
    SerialConcat(Not(Zeros(32)), Flatten(buf[..p]), buf[p]);
    assert Serial(crc, buf[p]) == After(buf, p + 1);
    ByteStepIsSerial(crc, buf[p]);
  }

  lemma IndexInTable(index: Byte)
    ensures Value(index) < 256
  {
    BitsOfValue(index);
    Power8();
  }
}
