/**
 Bytes and bit strings. A bit string is a sequence of booleans; whether the most or the least
 significant bit of a word comes first is the choice of the module that uses it.
 */
module Bits {
  type byte = x: int | 0 <= x < 256

  datatype Option<+T> = None | Some(value: T)

  function Pow2(n: nat): (p: nat)
    ensures p > 0
  {
    if n == 0 then 1 else 2 * Pow2(n - 1)
  }

  lemma Pow2Values()
    ensures Pow2(8) == 0x100 && Pow2(16) == 0x1_0000 && Pow2(24) == 0x100_0000
    ensures Pow2(32) == 0x1_0000_0000
  {
    assert Pow2(8) == 0x100;
    Pow2Add(8, 8);
    Pow2Add(16, 8);
    Pow2Add(16, 16);
  }

  lemma {:induction false} Pow2Add(a: nat, b: nat)
    ensures Pow2(a + b) == Pow2(a) * Pow2(b)
  {
    if b > 0 {
      Pow2Add(a, b - 1);
    }
  }

  /** The number a bit string denotes, most significant bit first. */
  function ValueOf(bits: seq<bool>): (v: nat)
    ensures v < Pow2(|bits|)
  {
    if bits == [] then 0
    else 2 * ValueOf(bits[..|bits| - 1]) + (if bits[|bits| - 1] then 1 else 0)
  }

  /** The lowest `width` bits of a number, most significant first. */
  function BitsOf(n: nat, width: nat): (bits: seq<bool>)
    ensures |bits| == width
  {
    if width == 0 then [] else BitsOf(n / 2, width - 1) + [n % 2 == 1]
  }

  lemma {:induction false} BitsOfValueOf(bits: seq<bool>)
    ensures BitsOf(ValueOf(bits), |bits|) == bits
  {
    if bits != [] {
      BitsOfValueOf(bits[..|bits| - 1]);
    }
  }

  lemma {:induction false} ValueOfBitsOf(n: nat, width: nat)
    requires n < Pow2(width)
    ensures ValueOf(BitsOf(n, width)) == n
  {
    if width > 0 {
      ValueOfBitsOf(n / 2, width - 1);
    }
  }

  lemma DoubleProduct(x: nat, p: nat, q: nat)
    requires q == 2 * p
    ensures x * q == 2 * (x * p)
  {
  }

  /** Writing two bit strings side by side shifts the first one up by the length of the second. */
  lemma {:induction false} ValueOfConcat(a: seq<bool>, b: seq<bool>)
    ensures ValueOf(a + b) == ValueOf(a) * Pow2(|b|) + ValueOf(b)
  {
    if b == [] {
      assert a + b == a;
    } else {
      var n := |b| - 1;
      assert (a + b)[..|a| + n] == a + b[..n];
      ValueOfConcat(a, b[..n]);
      assert ValueOf(a + b) == 2 * ValueOf(a + b[..n]) + (if b[n] then 1 else 0);
      DoubleProduct(ValueOf(a), Pow2(n), Pow2(|b|));
    }
  }

  function Zeros(n: nat): (z: seq<bool>)
    ensures |z| == n && forall i :: 0 <= i < n ==> !z[i]
  {
    seq(n, i => false)
  }

  predicate AllZero(bits: seq<bool>) {
    forall i :: 0 <= i < |bits| ==> !bits[i]
  }

  lemma AllZeroUnique(a: seq<bool>, b: seq<bool>)
    requires |a| == |b| && AllZero(a) && AllZero(b)
    ensures a == b
  {
  }

  function Xor(a: seq<bool>, b: seq<bool>): (x: seq<bool>)
    requires |a| == |b|
    ensures |x| == |a| && forall i :: 0 <= i < |a| ==> x[i] == (a[i] != b[i])
  {
    seq(|a|, i requires 0 <= i < |a| => a[i] != b[i])
  }

  lemma XorOfZeros(a: seq<bool>, b: seq<bool>)
    requires |a| == |b| && AllZero(a) && AllZero(b)
    ensures AllZero(Xor(a, b))
  {
  }

  /** True when an odd number of bits is set. */
  predicate Odd(bits: seq<bool>) {
    bits != [] && (bits[0] != Odd(bits[1..]))
  }

  lemma {:induction false} OddConcat(a: seq<bool>, b: seq<bool>)
    ensures Odd(a + b) == (Odd(a) != Odd(b))
  {
    if a == [] {
      assert a + b == b;
    } else {
      assert (a + b)[1..] == a[1..] + b;
      OddConcat(a[1..], b);
    }
  }

  lemma OddOne(bit: bool)
    ensures Odd([bit]) == bit
  {
    assert [bit][1..] == [];
  }

  predicate OddNumber(n: nat, width: nat) {
    width > 0 && (OddNumber(n / 2, width - 1) != (n % 2 == 1))
  }

  lemma {:induction false} OddBitsOf(n: nat, width: nat)
    ensures Odd(BitsOf(n, width)) == OddNumber(n, width)
  {
    if width > 0 {
      OddBitsOf(n / 2, width - 1);
      OddConcat(BitsOf(n / 2, width - 1), [n % 2 == 1]);
      OddOne(n % 2 == 1);
    }
  }

  lemma {:induction false} OddXor(a: seq<bool>, b: seq<bool>)
    requires |a| == |b|
    ensures Odd(Xor(a, b)) == (Odd(a) != Odd(b))
  {
    if a != [] {
      assert Xor(a, b)[1..] == Xor(a[1..], b[1..]);
      OddXor(a[1..], b[1..]);
    }
  }

  /** The bits of a byte, most significant first. */
  function BitsMsb(b: byte): (bits: seq<bool>)
    ensures |bits| == 8
  {
    BitsOf(b, 8)
  }

  lemma ValueOfByte(b: byte)
    ensures ValueOf(BitsMsb(b)) == b
  {
    Pow2Values();
    ValueOfBitsOf(b, 8);
  }

  function Reverse<T>(s: seq<T>): (r: seq<T>)
    ensures |r| == |s| && forall i :: 0 <= i < |s| ==> r[i] == s[|s| - 1 - i]
  {
    seq(|s|, i requires 0 <= i < |s| => s[|s| - 1 - i])
  }

  /** The bits of a byte, least significant first. */
  function BitsLsb(b: byte): (bits: seq<bool>)
    ensures |bits| == 8
  {
    Reverse(BitsOf(b, 8))
  }

  /** A byte string as one bit string, each byte expanded by `bitsOf`. */
  function Expand(bitsOf: byte -> seq<bool>, data: seq<byte>): (bits: seq<bool>)
    requires forall b :: |bitsOf(b)| == 8
    ensures |bits| == 8 * |data|
  {
    if data == [] then [] else Expand(bitsOf, data[..|data| - 1]) + bitsOf(data[|data| - 1])
  }

  lemma {:induction false} ExpandConcat(bitsOf: byte -> seq<bool>, a: seq<byte>, b: seq<byte>)
    requires forall x :: |bitsOf(x)| == 8
    ensures Expand(bitsOf, a + b) == Expand(bitsOf, a) + Expand(bitsOf, b)
  {
    if b == [] {
      assert a + b == a;
    } else {
      var n := |b| - 1;
      assert (a + b)[..|a| + n] == a + b[..n];
      ExpandConcat(bitsOf, a, b[..n]);
    }
  }

  lemma ExpandOne(bitsOf: byte -> seq<bool>, b: byte)
    requires forall x :: |bitsOf(x)| == 8
    ensures Expand(bitsOf, [b]) == bitsOf(b)
  {
    assert [b][..0] == [];
  }

  /** A byte expansion that tells bytes apart tells byte strings apart. */
  lemma {:induction false} ExpandInjective(bitsOf: byte -> seq<bool>, a: seq<byte>, b: seq<byte>)
    requires forall x :: |bitsOf(x)| == 8
    requires forall x, y :: bitsOf(x) == bitsOf(y) ==> x == y
    requires |a| == |b| && Expand(bitsOf, a) == Expand(bitsOf, b)
    ensures a == b
  {
    if a != [] {
      var n := |a| - 1;
      var e, f := Expand(bitsOf, a), Expand(bitsOf, b);
      assert e[..8 * n] == Expand(bitsOf, a[..n]) && f[..8 * n] == Expand(bitsOf, b[..n]);
      assert e[8 * n..] == bitsOf(a[n]) && f[8 * n..] == bitsOf(b[n]);
      ExpandInjective(bitsOf, a[..n], b[..n]);
      assert a == a[..n] + [a[n]] && b == b[..n] + [b[n]];
    }
  }

  lemma BitsMsbInjective()
    ensures forall x, y :: BitsMsb(x) == BitsMsb(y) ==> x == y
  {
    forall x: byte ensures ValueOf(BitsMsb(x)) == x {
      ValueOfByte(x);
    }
  }

  lemma BitsLsbInjective()
    ensures forall x, y :: BitsLsb(x) == BitsLsb(y) ==> x == y
  {
    BitsMsbInjective();
    forall x, y | BitsLsb(x) == BitsLsb(y) ensures x == y {
      assert forall i :: 0 <= i < 8 ==> BitsMsb(x)[i] == BitsLsb(x)[7 - i];
      assert BitsMsb(x) == BitsMsb(y);
    }
  }

  lemma ValueOfTwo(a: seq<bool>, b: seq<bool>)
    requires |b| == 8
    ensures ValueOf(a + b) == 0x100 * ValueOf(a) + ValueOf(b)
  {
    Pow2Values();
    hide *;
    assert Pow2(|b|) == 0x100;
    ValueOfConcat(a, b);
  }

  /** Exclusive or of two bytes. */
  function XorByte(a: byte, b: byte): byte {
    assert Pow2(8) == 0x100;
    ValueOf(Xor(BitsMsb(a), BitsMsb(b)))
  }

  function XorBytes(a: seq<byte>, b: seq<byte>): (x: seq<byte>)
    requires |a| == |b|
    ensures |x| == |a| && forall i :: 0 <= i < |a| ==> x[i] == XorByte(a[i], b[i])
  {
    seq(|a|, i requires 0 <= i < |a| => XorByte(a[i], b[i]))
  }

  lemma BitsOfXor(a: byte, b: byte)
    ensures BitsMsb(XorByte(a, b)) == Xor(BitsMsb(a), BitsMsb(b))
  {
    BitsOfValueOf(Xor(BitsMsb(a), BitsMsb(b)));
  }

  lemma {:induction false} ExpandXor(bitsOf: byte -> seq<bool>, a: seq<byte>, b: seq<byte>)
    requires |a| == |b| && forall x :: |bitsOf(x)| == 8
    requires forall x, y :: bitsOf(XorByte(x, y)) == Xor(bitsOf(x), bitsOf(y))
    ensures Expand(bitsOf, XorBytes(a, b)) == Xor(Expand(bitsOf, a), Expand(bitsOf, b))
  {
    if a != [] {
      var n := |a| - 1;
      assert XorBytes(a, b)[..n] == XorBytes(a[..n], b[..n]);
      ExpandXor(bitsOf, a[..n], b[..n]);
      XorConcat(Expand(bitsOf, a[..n]), bitsOf(a[n]), Expand(bitsOf, b[..n]), bitsOf(b[n]));
    }
  }

  lemma XorConcat(a: seq<bool>, a': seq<bool>, b: seq<bool>, b': seq<bool>)
    requires |a| == |b| && |a'| == |b'|
    ensures Xor(a + a', b + b') == Xor(a, b) + Xor(a', b')
  {
  }

  lemma BitsLsbOfXor(a: byte, b: byte)
    ensures BitsLsb(XorByte(a, b)) == Xor(BitsLsb(a), BitsLsb(b))
  {
    BitsOfXor(a, b);
    var x, y := BitsMsb(a), BitsMsb(b);
    assert Reverse(Xor(x, y)) == Xor(Reverse(x), Reverse(y));
  }
}
