/**
 A frame computed through: a commonly quoted antenna reference message of type 1005, 25 bytes long,
 passes the CRC check. Registers are written in hexadecimal digits.
 */
module RtcmSample {
  import opened Bits
  import opened CrcAlgebra
  import opened CrcDivision
  import opened HexDigits
  import opened RtcmCrc24q

  /** A 24-bit register as six digits. */
  datatype Six = Six(d5: Digit, d4: Digit, d3: Digit, d2: Digit, d1: Digit, d0: Digit)

  function Plus(a: Digit, b: Digit): Digit {
    Digit(a.b3 != b.b3, a.b2 != b.b2, a.b1 != b.b1, a.b0 != b.b0)
  }

  /** A digit moved up one bit, with the bit that comes in from below. */
  function Up(a: Digit, low: bool): Digit {
    Digit(a.b2, a.b1, a.b0, low)
  }

  /** Everything one bit up. */
  function Moved(r: Six): Six {
    Six(Up(r.d5, r.d4.b3), Up(r.d4, r.d3.b3), Up(r.d3, r.d2.b3), Up(r.d2, r.d1.b3),
        Up(r.d1, r.d0.b3), Up(r.d0, false))
  }

  /** One clock: everything moves up and, if the bit that leaves says so, 0x864CFB is added. */
  function Clocked(r: Six, bit: bool): Six {
    var m := Moved(r);
    if r.d5.b3 == bit then m
    else Six(Plus(m.d5, X8), Plus(m.d4, X6), Plus(m.d3, X4), Plus(m.d2, XC), Plus(m.d1, XF), Plus(m.d0, XB))
  }

  /** Four clocks for the bits of a digit, most significant first. */
  function Absorb(r: Six, d: Digit): Six {
    Clocked(Clocked(Clocked(Clocked(r, d.b3), d.b2), d.b1), d.b0)
  }

  function Written(r: Six): Register {
    (Four(r.d5) + Four(r.d4)) + (Four(r.d3) + Four(r.d2)) + (Four(r.d1) + Four(r.d0))
  }

  lemma PolynomialWritten()
    ensures POLYNOMIAL == Written(Six(X8, X6, X4, XC, XF, XB))
  {
    BitsOfByte(0x86, X8, X6);
    BitsOfByte(0x4C, X4, XC);
    BitsOfByte(0xFB, XF, XB);
    hide Four, BitsMsb;
  }

  /** Dropping the first bit and taking one in at the end. */
  function Shifted(bits: seq<bool>, low: bool): (s: seq<bool>)
    requires bits != []
    ensures |s| == |bits|
  {
    bits[1..] + [low]
  }

  lemma ShiftedConcat(a: seq<bool>, b: seq<bool>, low: bool)
    requires a != [] && b != []
    ensures Shifted(a + b, low) == Shifted(a, b[0]) + Shifted(b, low) && (a + b)[0] == a[0]
  {
  }

  lemma FourShifted(d: Digit, low: bool)
    ensures Shifted(Four(d), low) == Four(Up(d, low)) && Four(d)[0] == d.b3
  {
  }

  lemma WrittenMoves(r: Six)
    ensures Written(r)[0] == r.d5.b3
    ensures Shifted(Written(r), false) == Written(Moved(r))
  {
    var a, b, c := Four(r.d5) + Four(r.d4), Four(r.d3) + Four(r.d2), Four(r.d1) + Four(r.d0);
    FourShifted(r.d0, false);
    FourShifted(r.d1, r.d0.b3);
    FourShifted(r.d2, r.d1.b3);
    FourShifted(r.d3, r.d2.b3);
    FourShifted(r.d4, r.d3.b3);
    FourShifted(r.d5, r.d4.b3);
    hide Four, Up, Shifted;
    ShiftedConcat(Four(r.d1), Four(r.d0), false);
    ShiftedConcat(Four(r.d3), Four(r.d2), r.d1.b3);
    ShiftedConcat(Four(r.d5), Four(r.d4), r.d3.b3);
    ShiftedConcat(a, b, r.d1.b3);
    ShiftedConcat(a + b, c, false);
  }

  lemma WrittenXor(r: Six, p: Six)
    ensures Xor(Written(r), Written(p))
         == Written(Six(Plus(r.d5, p.d5), Plus(r.d4, p.d4), Plus(r.d3, p.d3),
                        Plus(r.d2, p.d2), Plus(r.d1, p.d1), Plus(r.d0, p.d0)))
  {
    hide Four;
    FourXor(r.d5, p.d5);
    FourXor(r.d4, p.d4);
    FourXor(r.d3, p.d3);
    FourXor(r.d2, p.d2);
    FourXor(r.d1, p.d1);
    FourXor(r.d0, p.d0);
    hide Plus;
    XorConcat(Four(r.d5), Four(r.d4), Four(p.d5), Four(p.d4));
    XorConcat(Four(r.d3), Four(r.d2), Four(p.d3), Four(p.d2));
    XorConcat(Four(r.d1), Four(r.d0), Four(p.d1), Four(p.d0));
    XorConcat(Four(r.d5) + Four(r.d4), Four(r.d3) + Four(r.d2), Four(p.d5) + Four(p.d4), Four(p.d3) + Four(p.d2));
    XorConcat((Four(r.d5) + Four(r.d4)) + (Four(r.d3) + Four(r.d2)), Four(r.d1) + Four(r.d0),
              (Four(p.d5) + Four(p.d4)) + (Four(p.d3) + Four(p.d2)), Four(p.d1) + Four(p.d0));
  }

  lemma FourXor(a: Digit, b: Digit)
    ensures Xor(Four(a), Four(b)) == Four(Plus(a, b))
  {
  }

  lemma ClockIsStep(r: Six, bit: bool)
    ensures Step(POLYNOMIAL, Written(r), bit) == Written(Clocked(r, bit))
  {
    WrittenMoves(r);
    WrittenXor(Moved(r), Six(X8, X6, X4, XC, XF, XB));
    PolynomialWritten();
    StepCases(Written(r), bit);
    hide Written, Up, Plus, POLYNOMIAL, Step, Shifted;
  }

  lemma StepCases(r: Register, bit: bool)
    ensures Step(POLYNOMIAL, r, bit)
         == if r[0] != bit then Xor(Shifted(r, false), POLYNOMIAL) else Shifted(r, false)
  {
    hide POLYNOMIAL;
    assert r[0 := r[0] != bit][1..] == r[1..];
  }

  lemma FourInOrder(d: Digit)
    ensures Four(d) == [d.b3] + ([d.b2] + ([d.b1] + ([d.b0] + [])))
  {
  }

  lemma ClockFeeds(r: Six, bit: bool, rest: seq<bool>)
    ensures Feed(POLYNOMIAL, Written(r), [bit] + rest) == Feed(POLYNOMIAL, Written(Clocked(r, bit)), rest)
  {
    hide *;
    FeedFirst(POLYNOMIAL, Written(r), bit, rest);
    ClockIsStep(r, bit);
  }

  lemma DigitIsAbsorbed(r: Six, d: Digit)
    ensures Feed(POLYNOMIAL, Written(r), Four(d)) == Written(Absorb(r, d))
  {
    hide Clocked, Four, Written, Feed, POLYNOMIAL;
    var r1 := Clocked(r, d.b3);
    var r2 := Clocked(r1, d.b2);
    var r3 := Clocked(r2, d.b1);
    assert Absorb(r, d) == Clocked(r3, d.b0);
    FourInOrder(d);
    ClockFeeds(r, d.b3, [d.b2] + ([d.b1] + ([d.b0] + [])));
    ClockFeeds(r1, d.b2, [d.b1] + ([d.b0] + []));
    ClockFeeds(r2, d.b1, [d.b0] + []);
    ClockFeeds(r3, d.b0, []);
    FeedNothing(POLYNOMIAL, Written(Clocked(r3, d.b0)));
  }

  /** A body whose CRC is `r`, one byte longer. */
  lemma ByteIsAbsorbed(body: seq<byte>, r: Six, n: byte, high: Digit, low: Digit)
    requires Crc(body) == Written(r) && n == 16 * Worth(high) + Worth(low)
    ensures Crc(body + [n]) == Written(Absorb(Absorb(r, high), low))
  {
    assert (body + [n])[..|body|] == body && (body + [n])[..|body| + 1] == body + [n];
    FeedByte(POLYNOMIAL, EMPTY, BitsMsb, body + [n], |body|);
    BitsOfByte(n, high, low);
    hide Feed, Written, Absorb, Four, POLYNOMIAL, EMPTY, Expand, Worth;
    FeedConcat(POLYNOMIAL, Written(r), Four(high), Four(low));
    DigitIsAbsorbed(r, high);
    DigitIsAbsorbed(Absorb(r, high), low);
  }

  lemma Digits0()
    ensures Absorb(Absorb(Six(X0, X0, X0, X0, X0, X0), XD), X3) == Six(XE, X3, X3, X3, X0, X9)
    ensures Absorb(Absorb(Six(XE, X3, X3, X3, X0, X9), X0), X0) == Six(X1, X9, XA, X5, X6, X9)
    ensures Absorb(Absorb(Six(X1, X9, XA, X5, X6, X9), X1), X3) == Six(X8, XE, X3, XD, X3, X4)
    ensures Absorb(Absorb(Six(X8, XE, X3, XD, X3, X4), X3), XE) == Six(XC, X7, XE, XC, XC, X4)
  {
  }

  lemma Digits1()
    ensures Absorb(Absorb(Six(XC, X7, XE, XC, XC, X4), XD), X7) == Six(X2, X9, X8, XA, X8, X9)
    ensures Absorb(Absorb(Six(X2, X9, X8, XA, X8, X9), XD), X3) == Six(X4, X2, XA, X6, X2, X2)
    ensures Absorb(Absorb(Six(X4, X2, XA, X6, X2, X2), X0), X2) == Six(XB, XF, X8, X1, XD, X2)
    ensures Absorb(Absorb(Six(XB, XF, X8, X1, XD, X2), X0), X2) == Six(XC, XF, X2, X1, XE, X7)
  {
  }

  lemma Digits2()
    ensures Absorb(Absorb(Six(XC, XF, X2, X1, XE, X7), X9), X8) == Six(X6, X2, X7, X5, X4, XC)
    ensures Absorb(Absorb(Six(X6, X2, X7, X5, X4, XC), X0), XE) == Six(X5, X2, X5, X9, XE, X3)
    ensures Absorb(Absorb(Six(X5, X2, X5, X9, XE, X3), XD), XE) == Six(X5, X8, XC, X3, X7, XC)
    ensures Absorb(Absorb(Six(X5, X8, XC, X3, X7, XC), XE), XF) == Six(XA, X6, XD, XB, XD, X3)
  {
  }

  lemma Digits3()
    ensures Absorb(Absorb(Six(XA, X6, XD, XB, XD, X3), X3), X4) == Six(XA, X7, X0, XF, X2, X0)
    ensures Absorb(Absorb(Six(XA, X7, X0, XF, X2, X0), XB), X4) == Six(XC, X6, XF, X7, X7, XF)
    ensures Absorb(Absorb(Six(XC, X6, XF, X7, X7, XF), XB), XD) == Six(X8, XA, X5, XB, X7, XD)
    ensures Absorb(Absorb(Six(X8, XA, X5, XB, X7, XD), X6), X2) == Six(XD, XC, XC, X9, XA, X6)
  {
  }

  lemma Digits4()
    ensures Absorb(Absorb(Six(XD, XC, XC, X9, XA, X6), XA), XC) == Six(X1, X9, X9, XA, XB, X2)
    ensures Absorb(Absorb(Six(X1, X9, X9, XA, XB, X2), X0), X9) == Six(X5, XF, XF, XC, X8, X9)
    ensures Absorb(Absorb(Six(X5, XF, XF, XC, X8, X9), X4), X1) == Six(X8, X1, X7, X5, X5, XC)
    ensures Absorb(Absorb(Six(X8, X1, X7, X5, X5, XC), X9), X8) == Six(X9, X7, XD, XF, X4, XB)
  {
  }

  lemma Digits5()
    ensures Absorb(Absorb(Six(X9, X7, XD, XF, X4, XB), X6), XF) == Six(X9, XD, XB, X1, X2, XF)
    ensures Absorb(Absorb(Six(X9, XD, XB, X1, X2, XF), X3), X3) == Six(X3, X6, X0, XB, X9, X8)
  {
  }

  // The frame in parts and its trailer.
  const PART0: seq<byte> := [0xD3, 0x00, 0x13, 0x3E]
  const PART1: seq<byte> := [0xD7, 0xD3, 0x02, 0x02]
  const PART2: seq<byte> := [0x98, 0x0E, 0xDE, 0xEF]
  const PART3: seq<byte> := [0x34, 0xB4, 0xBD, 0x62]
  const PART4: seq<byte> := [0xAC, 0x09, 0x41, 0x98]
  const PART5: seq<byte> := [0x6F, 0x33]
  const TRAILER: seq<byte> := [0x36, 0x0B, 0x98]

  /** `D3 00 13 3E D7 D3 02 02 98 0E DE EF 34 B4 BD 62 AC 09 41 98 6F 33` */
  const BODY := PART0 + PART1 + PART2 + PART3 + PART4 + PART5

  lemma Part0Absorbed(body: seq<byte>)
    requires Crc(body) == Written(Six(X0, X0, X0, X0, X0, X0))
    ensures Crc(body + PART0) == Written(Six(XC, X7, XE, XC, XC, X4))
  {
    Digits0();
    hide Crc, Written, Absorb;
    ByteIsAbsorbed(body, Six(X0, X0, X0, X0, X0, X0), 0xD3, XD, X3);
    var b1 := body + [0xD3];
    ByteIsAbsorbed(b1, Six(XE, X3, X3, X3, X0, X9), 0x00, X0, X0);
    var b2 := b1 + [0x00];
    ByteIsAbsorbed(b2, Six(X1, X9, XA, X5, X6, X9), 0x13, X1, X3);
    var b3 := b2 + [0x13];
    ByteIsAbsorbed(b3, Six(X8, XE, X3, XD, X3, X4), 0x3E, X3, XE);
    assert body + PART0 == b3 + [0x3E];
  }

  lemma Part1Absorbed(body: seq<byte>)
    requires Crc(body) == Written(Six(XC, X7, XE, XC, XC, X4))
    ensures Crc(body + PART1) == Written(Six(XC, XF, X2, X1, XE, X7))
  {
    Digits1();
    hide Crc, Written, Absorb;
    ByteIsAbsorbed(body, Six(XC, X7, XE, XC, XC, X4), 0xD7, XD, X7);
    var b1 := body + [0xD7];
    ByteIsAbsorbed(b1, Six(X2, X9, X8, XA, X8, X9), 0xD3, XD, X3);
    var b2 := b1 + [0xD3];
    ByteIsAbsorbed(b2, Six(X4, X2, XA, X6, X2, X2), 0x02, X0, X2);
    var b3 := b2 + [0x02];
    ByteIsAbsorbed(b3, Six(XB, XF, X8, X1, XD, X2), 0x02, X0, X2);
    assert body + PART1 == b3 + [0x02];
  }

  lemma Part2Absorbed(body: seq<byte>)
    requires Crc(body) == Written(Six(XC, XF, X2, X1, XE, X7))
    ensures Crc(body + PART2) == Written(Six(XA, X6, XD, XB, XD, X3))
  {
    Digits2();
    hide Crc, Written, Absorb;
    ByteIsAbsorbed(body, Six(XC, XF, X2, X1, XE, X7), 0x98, X9, X8);
    var b1 := body + [0x98];
    ByteIsAbsorbed(b1, Six(X6, X2, X7, X5, X4, XC), 0x0E, X0, XE);
    var b2 := b1 + [0x0E];
    ByteIsAbsorbed(b2, Six(X5, X2, X5, X9, XE, X3), 0xDE, XD, XE);
    var b3 := b2 + [0xDE];
    ByteIsAbsorbed(b3, Six(X5, X8, XC, X3, X7, XC), 0xEF, XE, XF);
    assert body + PART2 == b3 + [0xEF];
  }

  lemma Part3Absorbed(body: seq<byte>)
    requires Crc(body) == Written(Six(XA, X6, XD, XB, XD, X3))
    ensures Crc(body + PART3) == Written(Six(XD, XC, XC, X9, XA, X6))
  {
    Digits3();
    hide Crc, Written, Absorb;
    ByteIsAbsorbed(body, Six(XA, X6, XD, XB, XD, X3), 0x34, X3, X4);
    var b1 := body + [0x34];
    ByteIsAbsorbed(b1, Six(XA, X7, X0, XF, X2, X0), 0xB4, XB, X4);
    var b2 := b1 + [0xB4];
    ByteIsAbsorbed(b2, Six(XC, X6, XF, X7, X7, XF), 0xBD, XB, XD);
    var b3 := b2 + [0xBD];
    ByteIsAbsorbed(b3, Six(X8, XA, X5, XB, X7, XD), 0x62, X6, X2);
    assert body + PART3 == b3 + [0x62];
  }

  lemma Part4Absorbed(body: seq<byte>)
    requires Crc(body) == Written(Six(XD, XC, XC, X9, XA, X6))
    ensures Crc(body + PART4) == Written(Six(X9, X7, XD, XF, X4, XB))
  {
    Digits4();
    hide Crc, Written, Absorb;
    ByteIsAbsorbed(body, Six(XD, XC, XC, X9, XA, X6), 0xAC, XA, XC);
    var b1 := body + [0xAC];
    ByteIsAbsorbed(b1, Six(X1, X9, X9, XA, XB, X2), 0x09, X0, X9);
    var b2 := b1 + [0x09];
    ByteIsAbsorbed(b2, Six(X5, XF, XF, XC, X8, X9), 0x41, X4, X1);
    var b3 := b2 + [0x41];
    ByteIsAbsorbed(b3, Six(X8, X1, X7, X5, X5, XC), 0x98, X9, X8);
    assert body + PART4 == b3 + [0x98];
  }

  lemma Part5Absorbed(body: seq<byte>)
    requires Crc(body) == Written(Six(X9, X7, XD, XF, X4, XB))
    ensures Crc(body + PART5) == Written(Six(X3, X6, X0, XB, X9, X8))
  {
    Digits5();
    hide Crc, Written, Absorb;
    ByteIsAbsorbed(body, Six(X9, X7, XD, XF, X4, XB), 0x6F, X6, XF);
    var b1 := body + [0x6F];
    ByteIsAbsorbed(b1, Six(X9, XD, XB, X1, X2, XF), 0x33, X3, X3);
    assert body + PART5 == b1 + [0x33];
  }

  lemma NothingFed()
    ensures Crc([]) == Written(Six(X0, X0, X0, X0, X0, X0))
  {
    var zero := Written(Six(X0, X0, X0, X0, X0, X0));
    assert Four(X0) == [false, false, false, false];
    assert AllZero(zero);
    AllZeroUnique(zero, EMPTY);
  }

  lemma NumberWritten(r: Six, a: byte, b: byte, c: byte)
    requires a == 16 * Worth(r.d5) + Worth(r.d4) && b == 16 * Worth(r.d3) + Worth(r.d2)
    requires c == 16 * Worth(r.d1) + Worth(r.d0)
    ensures Number(Written(r)) == 0x1_0000 * a as nat + 0x100 * b as nat + c
  {
    var x, y, z := BitsMsb(a), BitsMsb(b), BitsMsb(c);
    BitsOfByte(a, r.d5, r.d4);
    BitsOfByte(b, r.d3, r.d2);
    BitsOfByte(c, r.d1, r.d0);
    assert Written(r) == (x + y) + z && Number(Written(r)) == ValueOf(Written(r));
    hide *;
    ValueOfTwo(x + y, z);
    ValueOfTwo(x, y);
    ValueOfByte(a);
    ValueOfByte(b);
    ValueOfByte(c);
  }

  /** The CRC of the single byte 01 is the generator itself. */
  lemma CrcOfOne()
    ensures Number(Crc([0x01])) == 0x864CFB
  {
    NothingFed();
    ByteIsAbsorbed([], Six(X0, X0, X0, X0, X0, X0), 0x01, X0, X1);
    assert [] + [0x01] == [0x01];
    NumberWritten(Six(X8, X6, X4, XC, XF, XB), 0x86, 0x4C, 0xFB);
    hide Crc, Written, Number;
  }

  /** The CRC of the frame's first 22 bytes is 0x360B98, which is what its trailer says. */
  lemma SampleIsAccepted()
    ensures Number(Crc(BODY)) == 0x360B98 && Accepted(BODY, TRAILER)
  {
    NothingFed();
    hide Crc, Written, Number, Absorb;
    Part0Absorbed([]);
    Part1Absorbed([] + PART0);
    Part2Absorbed([] + PART0 + PART1);
    Part3Absorbed([] + PART0 + PART1 + PART2);
    Part4Absorbed([] + PART0 + PART1 + PART2 + PART3);
    Part5Absorbed([] + PART0 + PART1 + PART2 + PART3 + PART4);
    assert [] + PART0 + PART1 + PART2 + PART3 + PART4 + PART5 == BODY;
    NumberWritten(Six(X3, X6, X0, XB, X9, X8), 0x36, 0x0B, 0x98);
  }
}
