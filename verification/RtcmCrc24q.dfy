/**
 The CRC-24Q of the RTCM transport layer, `gnss_protocols/src/rtcm_crc24q.cpp`. The 24-bit `crc`
 variable is listed from bit 23 down to bit 0, so `crc <<= 1` drops the first element.
 */
module RtcmCrc24q {
  import opened Bits
  import opened CrcAlgebra
  import opened CrcDivision

  type Register = r: seq<bool> | |r| == 24 witness Zeros(24)

  const EMPTY: Register := Zeros(24)

  /** 0x1864CFB without its leading term, which the source's test of bit 24 stands for. */
  const POLYNOMIAL: Register := BitsMsb(0x86) + BitsMsb(0x4C) + BitsMsb(0xFB)

  lemma PolynomialFacts()
    ensures IsGenerator(POLYNOMIAL) && Odd(POLYNOMIAL)
  {
    OddPolynomialByte(0x86, true);
    OddPolynomialByte(0x4C, true);
    OddPolynomialByte(0xFB, true);
    OddConcat(BitsMsb(0x86) + BitsMsb(0x4C), BitsMsb(0xFB));
    OddConcat(BitsMsb(0x86), BitsMsb(0x4C));
    assert BitsMsb(0xFB)[7];
  }

  lemma OddPolynomialByte(b: byte, odd: bool)
    requires OddNumber(b, 8) == odd
    ensures Odd(BitsMsb(b)) == odd
  {
    OddBitsOf(b, 8);
  }

  /** The CRC of a byte string: its bits fed, most significant first, into an empty register. */
  function Crc(data: seq<byte>): Register {
    Feed(POLYNOMIAL, EMPTY, Expand(BitsMsb, data))
  }

  method ComputeRtcmCrc24Q(data: seq<byte>) returns (crc: Register)
    ensures crc == Crc(data)
  {
    crc := EMPTY;
    var i := 0;
    while i < |data|
      invariant 0 <= i <= |data|
      invariant crc == Crc(data[..i])
    {
      var bits := BitsMsb(data[i]);
      ShiftBounds(POLYNOMIAL, crc, bits, 8);
      crc := XorFront(crc, bits);
      var bit := 0;
      while bit < 8
        invariant 0 <= bit <= 8
        invariant crc == XorFront(Feed(POLYNOMIAL, Crc(data[..i]), bits[..bit]), bits[bit..])
      {
        ShiftNext(POLYNOMIAL, Crc(data[..i]), bits, bit);
        crc := Shift(POLYNOMIAL, crc);
        bit := bit + 1;
      }
      FeedByte(POLYNOMIAL, EMPTY, BitsMsb, data, i);
      i := i + 1;
    }
    assert data[..i] == data;
  }

  /** The 24-bit number a register holds. */
  function Number(r: Register): (n: nat)
    ensures n < 0x1000000
  {
    Pow2Values();
    ValueOf(r)
  }

  method ValidateRtcmCrc24Q(data: seq<byte>, expected: nat) returns (valid: bool)
    ensures valid <==> Number(Crc(data)) == expected % 0x1000000
  {
    var crc := ComputeRtcmCrc24Q(data);
    valid := Number(crc) == expected % 0x1000000;
  }

  /** The three trailer bytes as the framer reads them, most significant first. */
  function ReadTrailer(trailer: seq<byte>): nat
    requires |trailer| == 3
  {
    0x10000 * trailer[0] as nat + 0x100 * trailer[1] as nat + trailer[2]
  }

  lemma TrailerBits(trailer: seq<byte>)
    requires |trailer| == 3
    ensures ValueOf(Expand(BitsMsb, trailer)) == ReadTrailer(trailer)
  {
    var a, b, c := BitsMsb(trailer[0]), BitsMsb(trailer[1]), BitsMsb(trailer[2]);
    assert trailer == ([trailer[0]] + [trailer[1]]) + [trailer[2]];
    ExpandConcat(BitsMsb, [trailer[0]] + [trailer[1]], [trailer[2]]);
    ExpandConcat(BitsMsb, [trailer[0]], [trailer[1]]);
    ExpandOne(BitsMsb, trailer[0]);
    ExpandOne(BitsMsb, trailer[1]);
    ExpandOne(BitsMsb, trailer[2]);
    hide Expand, BitsOf, ValueOf, BitsMsb;
    ValueOfTwo(a + b, c);
    ValueOfTwo(a, b);
    ValueOfByte(trailer[0]);
    ValueOfByte(trailer[1]);
    ValueOfByte(trailer[2]);
  }

  /** A body and a three-byte trailer pass the check the framer makes. */
  predicate Accepted(body: seq<byte>, trailer: seq<byte>)
    requires |trailer| == 3
  {
    Number(Crc(body)) == ReadTrailer(trailer)
  }

  /** A body and trailer are accepted exactly when the CRC of the two together is zero. */
  lemma AcceptedIffZeroResidue(body: seq<byte>, trailer: seq<byte>)
    requires |trailer| == 3
    ensures Accepted(body, trailer) <==> AllZero(Crc(body + trailer))
  {
    PolynomialFacts();
    hide Feed, Expand;
    var bits, r := Expand(BitsMsb, trailer), Crc(body);
    ExpandConcat(BitsMsb, body, trailer);
    FeedConcat(POLYNOMIAL, EMPTY, Expand(BitsMsb, body), bits);
    ZeroResidue(POLYNOMIAL, r, bits);
    TrailerBits(trailer);
    hide *;
    NumberInjective(r, bits);
  }

  /** The whole generator, leading term included, is the number 0x1864CFB. */
  lemma GeneratorIs1864CFB()
    ensures [true] + POLYNOMIAL == BitsOf(0x1864CFB, 25)
  {
    var a, b, c := BitsMsb(0x86), BitsMsb(0x4C), BitsMsb(0xFB);
    assert ([true] + POLYNOMIAL) == (([true] + a) + b) + c;
    assert ValueOf([true]) == 1 by { assert [true][..0] == []; }
    ValueOfByte(0x86);
    ValueOfByte(0x4C);
    ValueOfByte(0xFB);
    hide *;
    ValueOfTwo(([true] + a) + b, c);
    ValueOfTwo([true] + a, b);
    ValueOfTwo([true], a);
    BitsOfValueOf([true] + POLYNOMIAL);
  }

  /**
   A body and trailer are accepted exactly when their bits, read as the coefficients of one
   polynomial, are a multiple of the polynomial 0x1864CFB.
   */
  lemma AcceptedIffMultiple(body: seq<byte>, trailer: seq<byte>)
    requires |trailer| == 3
    ensures Accepted(body, trailer) <==> IsMultiple(BitsOf(0x1864CFB, 25), Expand(BitsMsb, body + trailer))
  {
    PolynomialFacts();
    hide Feed, Expand, Accepted, IsMultiple, Odd, BitsOf;
    AcceptedIffZeroResidue(body, trailer);
    GeneratorIs1864CFB();
    EmptyIffMultiple(POLYNOMIAL, EMPTY, Expand(BitsMsb, body + trailer));
  }

  lemma NumberInjective(r: Register, s: Register)
    ensures Number(r) == Number(s) <==> r == s
  {
    BitsOfValueOf(r);
    BitsOfValueOf(s);
  }

  /** The CRC is linear over byte-wise exclusive or. */
  lemma CrcLinear(a: seq<byte>, b: seq<byte>)
    requires |a| == |b|
    ensures Crc(XorBytes(a, b)) == Xor(Crc(a), Crc(b))
  {
    forall x, y ensures BitsMsb(XorByte(x, y)) == Xor(BitsMsb(x), BitsMsb(y)) {
      BitsOfXor(x, y);
    }
    ExpandXor(BitsMsb, a, b);
    hide *;
    AllZeroUnique(Xor(EMPTY, EMPTY), EMPTY) by { XorOfZeros(EMPTY, EMPTY); }
    FeedLinear(POLYNOMIAL, EMPTY, EMPTY, Expand(BitsMsb, a), Expand(BitsMsb, b));
  }

  /** Two accepted frames of one length differ in an even number of bits. */
  lemma AcceptedFramesDifferEvenly(body: seq<byte>, trailer: seq<byte>, body': seq<byte>, trailer': seq<byte>)
    requires |trailer| == |trailer'| == 3 && |body| == |body'|
    requires Accepted(body, trailer) && Accepted(body', trailer')
    ensures |Differences(Expand(BitsMsb, body + trailer), Expand(BitsMsb, body' + trailer'))| % 2 == 0
  {
    PolynomialFacts();
    hide Feed, Expand, Accepted, Odd;
    AcceptedIffZeroResidue(body, trailer);
    AcceptedIffZeroResidue(body', trailer');
    EvenDistance(POLYNOMIAL, EMPTY, Expand(BitsMsb, body + trailer), Expand(BitsMsb, body' + trailer'));
  }

  /** Two accepted frames of one length that differ only inside 24 neighbouring bits are equal. */
  lemma AcceptedFramesNoShortBurst(
      body: seq<byte>, trailer: seq<byte>, body': seq<byte>, trailer': seq<byte>, at: nat)
    requires |trailer| == |trailer'| == 3 && |body| == |body'|
    requires Accepted(body, trailer) && Accepted(body', trailer')
    requires forall i :: i in Differences(Expand(BitsMsb, body + trailer), Expand(BitsMsb, body' + trailer'))
                         ==> at <= i < at + 24
    ensures body + trailer == body' + trailer'
  {
    PolynomialFacts();
    hide Feed, Expand, Accepted, Odd;
    AcceptedIffZeroResidue(body, trailer);
    AcceptedIffZeroResidue(body', trailer');
    NoBurstBetween(POLYNOMIAL, EMPTY, Expand(BitsMsb, body + trailer), Expand(BitsMsb, body' + trailer'), at, 24);
    hide *;
    BitsMsbInjective();
    ExpandInjective(BitsMsb, body + trailer, body' + trailer');
  }
}
