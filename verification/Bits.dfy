/** Words as sequences of bits, most significant bit first, and the numbers they stand for. */
module Bits {
  import opened Machine

  function Zeros(n: nat): (r: seq<bool>)
    ensures |r| == n && forall i :: 0 <= i < n ==> !r[i]
  {
    seq(n, _ => false)
  }

  function Power2(n: nat): (r: nat)
    ensures r >= 1
  {
    if n == 0 then 1 else 2 * Power2(n - 1)
  }

  function Value(bits: seq<bool>): nat {
    if bits == [] then 0 else 2 * Value(bits[..|bits| - 1]) + if bits[|bits| - 1] then 1 else 0
  }

  function BitsOf(n: nat, width: nat): (r: seq<bool>)
    ensures |r| == width
    decreases width, n
  {
    if width == 0 then [] else BitsOf(n / 2, width - 1) + [n % 2 == 1]
  }

  lemma {:induction false} BitsOfValue(bits: seq<bool>)
    ensures BitsOf(Value(bits), |bits|) == bits
    ensures Value(bits) < Power2(|bits|)
  {
    if bits != [] {
      BitsOfValue(bits[..|bits| - 1]);
    }
  }

  lemma {:induction false} ValueOfBits(n: nat, width: nat)
    requires n < Power2(width)
    ensures Value(BitsOf(n, width)) == n
    decreases width
  {
    if width > 0 {
      ValueOfBits(n / 2, width - 1);
      var b := BitsOf(n, width);
      assert b[..width - 1] == BitsOf(n / 2, width - 1);
    }
  }

  lemma ValueAppend(bits: seq<bool>, x: bool)
    ensures Value(bits + [x]) == 2 * Value(bits) + if x then 1 else 0
  {
    assert (bits + [x])[..|bits|] == bits;
  }

  lemma {:induction false} ValueConcat(a: seq<bool>, b: seq<bool>)
    ensures Value(a + b) == Value(a) * Power2(|b|) + Value(b)
    decreases |b|
  {
    if b == [] {
      assert a + b == a;
    } else {
      var b', x := b[..|b| - 1], b[|b| - 1];
      assert b == b' + [x] && a + b == a + b' + [x];
      ValueAppend(a + b', x);
      ValueAppend(b', x);
      ValueConcat(a, b');
      DoublesSum(Value(a), Power2(|b'|), Value(b'), Value(a + b'), Power2(|b|));
    }
  }

  lemma DoublesSum(v: nat, p: nat, w: nat, sum: nat, p2: nat)
    requires sum == v * p + w && p2 == 2 * p
    ensures 2 * sum == v * p2 + 2 * w
  {
    Doubles(v, p);
  }

  lemma Doubles(v: nat, p: nat)
    ensures 2 * (v * p) == v * (2 * p)
  {
  }

  lemma {:induction false} ZerosAreZero(n: nat)
    ensures Value(Zeros(n)) == 0
    decreases n
  {
    if n > 0 {
      assert Zeros(n)[..n - 1] == Zeros(n - 1);
      ZerosAreZero(n - 1);
    }
  }

  lemma Power32()
    ensures Power2(32) == TWO_32
  {
    assert Power2(8) == 0x100;
    assert Power2(16) == 0x1_0000 by { Power2Sum(8, 8); }
    assert Power2(32) == TWO_32 by { Power2Sum(16, 16); }
  }

  lemma {:induction false} Power2Sum(a: nat, b: nat)
    ensures Power2(a + b) == Power2(a) * Power2(b)
    decreases a
  {
    if a > 0 {
      Power2Sum(a - 1, b);
      Doubles(Power2(b), Power2(a - 1));
    }
  }

  lemma {:induction false} Power2Less(a: nat, b: nat)
    requires a < b
    ensures Power2(a) < Power2(b)
    decreases b
  {
    if a < b - 1 {
      Power2Less(a, b - 1);
    }
  }
}
