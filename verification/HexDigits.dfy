/** Hexadecimal digits as bits, for facts about particular bytes. */
module HexDigits {
  import opened Bits

  /** A hexadecimal digit as four bits. */
  datatype Digit = Digit(b3: bool, b2: bool, b1: bool, b0: bool)

  const X0 := Digit(false, false, false, false)
  const X1 := Digit(false, false, false, true)
  const X2 := Digit(false, false, true, false)
  const X3 := Digit(false, false, true, true)
  const X4 := Digit(false, true, false, false)
  const X5 := Digit(false, true, false, true)
  const X6 := Digit(false, true, true, false)
  const X7 := Digit(false, true, true, true)
  const X8 := Digit(true, false, false, false)
  const X9 := Digit(true, false, false, true)
  const XA := Digit(true, false, true, false)
  const XB := Digit(true, false, true, true)
  const XC := Digit(true, true, false, false)
  const XD := Digit(true, true, false, true)
  const XE := Digit(true, true, true, false)
  const XF := Digit(true, true, true, true)

  function Four(d: Digit): (bits: seq<bool>)
    ensures |bits| == 4
  {
    [d.b3, d.b2, d.b1, d.b0]
  }

  function Worth(d: Digit): nat {
    (if d.b3 then 8 else 0) + (if d.b2 then 4 else 0) + (if d.b1 then 2 else 0) + (if d.b0 then 1 else 0)
  }

  lemma ValueOfFour(d: Digit)
    ensures ValueOf(Four(d)) == Worth(d)
  {
    var b := Four(d);
    assert b[..3][..2] == b[..2] && b[..2][..1] == b[..1] && b[..1][..0] == [];
    assert ValueOf(b[..1]) == if d.b3 then 1 else 0;
    assert ValueOf(b[..2]) == 2 * ValueOf(b[..1]) + if d.b2 then 1 else 0;
    assert ValueOf(b[..3]) == 2 * ValueOf(b[..2]) + if d.b1 then 1 else 0;
  }

  /** Two digits are the bits of a byte. */
  lemma BitsOfByte(n: byte, high: Digit, low: Digit)
    requires n == 16 * Worth(high) + Worth(low)
    ensures BitsMsb(n) == Four(high) + Four(low)
  {
    var bits := Four(high) + Four(low);
    ValueOfFour(high);
    ValueOfFour(low);
    assert Pow2(4) == 16;
    hide ValueOf, BitsOf, Four, Worth;
    ValueOfConcat(Four(high), Four(low));
    BitsOfValueOf(bits);
  }

  function Mirror(d: Digit): Digit {
    Digit(d.b0, d.b1, d.b2, d.b3)
  }

  /** The bits of a byte, least significant first, are the mirrored digits in the other order. */
  lemma BitsOfMirroredByte(n: byte, high: Digit, low: Digit)
    requires n == 16 * Worth(high) + Worth(low)
    ensures BitsLsb(n) == Four(Mirror(low)) + Four(Mirror(high))
  {
    BitsOfByte(n, high, low);
    MirroredDigits(high, low);
    assert BitsLsb(n) == Reverse(BitsMsb(n));
    hide *;
  }

  lemma MirroredDigits(high: Digit, low: Digit)
    ensures Reverse(Four(high) + Four(low)) == Four(Mirror(low)) + Four(Mirror(high))
  {
    MirroredDigit(high);
    MirroredDigit(low);
    hide Four, Mirror;
    ReverseConcat(Four(high), Four(low));
  }

  lemma MirroredDigit(d: Digit)
    ensures Reverse(Four(d)) == Four(Mirror(d))
  {
  }

  lemma ReverseConcat(a: seq<bool>, b: seq<bool>)
    ensures Reverse(a + b) == Reverse(b) + Reverse(a)
  {
  }
}
