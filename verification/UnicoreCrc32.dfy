/**
 The reflected CRC-32 of Unicore binary frames, `gnss_protocols/src/unicore_binary_framer.cpp`. The
 32-bit `crc` variable is listed from bit 0 up to bit 31, so `crc >>= 1` drops the first element.
 */
module UnicoreCrc32 {
  import opened Bits
  import opened CrcAlgebra
  import opened CrcDivision
  import opened HexDigits

  type Register = r: seq<bool> | |r| == 32 witness Zeros(32)

  const EMPTY: Register := Zeros(32)

  /** 0xEDB88320, least significant bit first. */
  const POLYNOMIAL: Register := BitsLsb(0x20) + BitsLsb(0x83) + BitsLsb(0xB8) + BitsLsb(0xED)

  lemma PolynomialFacts()
    ensures IsGenerator(POLYNOMIAL)
  {
    assert OddNumber(1, 1);
    assert BitsOf(0xED, 8) == BitsOf(0xED / 2, 7) + [true];
    assert BitsOf(0xED, 8)[0] by {
      ValueOfBitsOf(0xED, 8);
      Pow2Values();
      TopBit(BitsOf(0xED, 8));
    }
  }

  /** A number of n bits with its top bit clear is below 2^(n-1). */
  lemma {:induction false} TopBit(bits: seq<bool>)
    requires bits != []
    ensures bits[0] <==> ValueOf(bits) >= Pow2(|bits| - 1)
  {
    if |bits| > 1 {
      TopBit(bits[..|bits| - 1]);
    }
  }

  /** The CRC of a byte string: its bits fed, least significant first, into an empty register. */
  function Crc(data: seq<byte>): Register {
    Feed(POLYNOMIAL, EMPTY, Expand(BitsLsb, data))
  }

  method ComputeUnicoreBinaryCrc32(data: seq<byte>) returns (crc: Register)
    ensures crc == Crc(data)
  {
    crc := EMPTY;
    var i := 0;
    while i < |data|
      invariant 0 <= i <= |data|
      invariant crc == Crc(data[..i])
    {
      var bits := BitsLsb(data[i]);
      ShiftBounds(POLYNOMIAL, crc, bits, 8);
      crc := XorFront(crc, bits);
      var bit := 0;
      while bit < 8
        invariant 0 <= bit <= 8
        invariant crc == XorFront(Feed(POLYNOMIAL, Crc(data[..i]), bits[..bit]), bits[bit..])
      {
        ShiftNext(POLYNOMIAL, Crc(data[..i]), bits, bit);
        crc := Shift(POLYNOMIAL, crc);
        bit := bit + 1;
      }
      FeedByte(POLYNOMIAL, EMPTY, BitsLsb, data, i);
      i := i + 1;
    }
    assert data[..i] == data;
  }

  /** The 32-bit number a register holds. */
  function Number(r: Register): nat {
    ValueOf(Reverse(r))
  }

  method ValidateUnicoreBinaryCrc32(data: seq<byte>, expected: nat) returns (valid: bool)
    ensures valid <==> Number(Crc(data)) == expected
  {
    var crc := ComputeUnicoreBinaryCrc32(data);
    valid := Number(crc) == expected;
  }

  /** The four trailer bytes as the framer reads them, least significant first. */
  function ReadLittleEndian32(trailer: seq<byte>): nat
    requires |trailer| == 4
  {
    trailer[0] + 0x100 * trailer[1] as nat + 0x1_0000 * trailer[2] as nat + 0x100_0000 * trailer[3] as nat
  }

  lemma TrailerBits(trailer: seq<byte>)
    requires |trailer| == 4
    ensures ValueOf(Reverse(Expand(BitsLsb, trailer))) == ReadLittleEndian32(trailer)
  {
    var a, b, c, d := BitsMsb(trailer[0]), BitsMsb(trailer[1]), BitsMsb(trailer[2]), BitsMsb(trailer[3]);
    assert trailer == (([trailer[0]] + [trailer[1]]) + [trailer[2]]) + [trailer[3]];
    ExpandConcat(BitsLsb, ([trailer[0]] + [trailer[1]]) + [trailer[2]], [trailer[3]]);
    ExpandConcat(BitsLsb, [trailer[0]] + [trailer[1]], [trailer[2]]);
    ExpandConcat(BitsLsb, [trailer[0]], [trailer[1]]);
    ExpandOne(BitsLsb, trailer[0]);
    ExpandOne(BitsLsb, trailer[1]);
    ExpandOne(BitsLsb, trailer[2]);
    ExpandOne(BitsLsb, trailer[3]);
    assert Reverse(Expand(BitsLsb, trailer)) == ((d + c) + b) + a;
    hide Expand, Reverse, BitsOf, ValueOf, BitsMsb, BitsLsb;
    ValueOfTwo((d + c) + b, a);
    ValueOfTwo(d + c, b);
    ValueOfTwo(d, c);
    ValueOfByte(trailer[0]);
    ValueOfByte(trailer[1]);
    ValueOfByte(trailer[2]);
    ValueOfByte(trailer[3]);
  }

  /** A body and a four-byte trailer pass the check the framer makes. */
  predicate Accepted(body: seq<byte>, trailer: seq<byte>)
    requires |trailer| == 4
  {
    Number(Crc(body)) == ReadLittleEndian32(trailer)
  }

  /** A body and trailer are accepted exactly when the CRC of the two together is zero. */
  lemma AcceptedIffZeroResidue(body: seq<byte>, trailer: seq<byte>)
    requires |trailer| == 4
    ensures Accepted(body, trailer) <==> AllZero(Crc(body + trailer))
  {
    PolynomialFacts();
    hide Feed, Expand;
    var bits, r := Expand(BitsLsb, trailer), Crc(body);
    ExpandConcat(BitsLsb, body, trailer);
    FeedConcat(POLYNOMIAL, EMPTY, Expand(BitsLsb, body), bits);
    ZeroResidue(POLYNOMIAL, r, bits);
    TrailerBits(trailer);
    hide *;
    NumberInjective(r, bits);
  }

  lemma MirroredByte(n: byte, mirror: byte, high: Digit, low: Digit)
    requires n == 16 * Worth(high) + Worth(low)
    requires mirror == 16 * Worth(Mirror(low)) + Worth(Mirror(high))
    ensures BitsLsb(mirror) == BitsMsb(n)
  {
    BitsOfByte(n, high, low);
    BitsOfMirroredByte(mirror, Mirror(low), Mirror(high));
    hide BitsLsb, BitsMsb, Four, Worth;
  }

  lemma PolynomialMirrored()
    ensures POLYNOMIAL == ((BitsMsb(0x04) + BitsMsb(0xC1)) + BitsMsb(0x1D)) + BitsMsb(0xB7)
  {
    hide BitsLsb, BitsMsb;
    MirroredByte(0x04, 0x20, X0, X4);
    MirroredByte(0xC1, 0x83, XC, X1);
    MirroredByte(0x1D, 0xB8, X1, XD);
    MirroredByte(0xB7, 0xED, XB, X7);
  }

  lemma ValueOfFour(a: byte, b: byte, c: byte, d: byte)
    ensures ValueOf(((BitsMsb(a) + BitsMsb(b)) + BitsMsb(c)) + BitsMsb(d))
         == 0x100_0000 * a as nat + 0x1_0000 * b as nat + 0x100 * c as nat + d
  {
    hide *;
    ValueOfTwo((BitsMsb(a) + BitsMsb(b)) + BitsMsb(c), BitsMsb(d));
    ValueOfTwo(BitsMsb(a) + BitsMsb(b), BitsMsb(c));
    ValueOfTwo(BitsMsb(a), BitsMsb(b));
    ValueOfByte(a);
    ValueOfByte(b);
    ValueOfByte(c);
    ValueOfByte(d);
  }

  /** The whole generator, leading term included, is the number 0x104C11DB7. */
  lemma GeneratorIs104C11DB7()
    ensures [true] + POLYNOMIAL == BitsOf(0x1_04C1_1DB7, 33)
  {
    assert ValueOf([true]) == 1 by { assert [true][..0] == []; }
    Pow2Values();
    hide *;
    PolynomialMirrored();
    ValueOfConcat([true], POLYNOMIAL);
    ValueOfFour(0x04, 0xC1, 0x1D, 0xB7);
    BitsOfValueOf([true] + POLYNOMIAL);
  }

  /**
   A body and trailer are accepted exactly when their bits, each byte's lowest bit first, are a
   multiple of the polynomial 0x104C11DB7.
   */
  lemma AcceptedIffMultiple(body: seq<byte>, trailer: seq<byte>)
    requires |trailer| == 4
    ensures Accepted(body, trailer) <==> IsMultiple(BitsOf(0x1_04C1_1DB7, 33), Expand(BitsLsb, body + trailer))
  {
    PolynomialFacts();
    hide Feed, Expand, Accepted, IsMultiple, BitsOf;
    AcceptedIffZeroResidue(body, trailer);
    GeneratorIs104C11DB7();
    EmptyIffMultiple(POLYNOMIAL, EMPTY, Expand(BitsLsb, body + trailer));
  }

  /** The CRC of the single byte 80 is the polynomial in the source's own bit order. */
  lemma CrcOf80()
    ensures Number(Crc([0x80])) == 0xEDB8_8320
  {
    EightyIsPolynomial();
    ReversedPolynomial();
    assert Number(POLYNOMIAL) == ValueOf(Reverse(POLYNOMIAL));
    hide *;
    ValueOfFour(0xED, 0xB8, 0x83, 0x20);
  }

  lemma ReversedPolynomial()
    ensures Reverse(POLYNOMIAL) == ((BitsMsb(0xED) + BitsMsb(0xB8)) + BitsMsb(0x83)) + BitsMsb(0x20)
  {
    hide BitsOf;
  }

  lemma BitsOf80()
    ensures BitsLsb(0x80) == Zeros(7) + [true]
  {
    BitsOfMirroredByte(0x80, X8, X0);
    hide BitsLsb;
    var bits := Four(Mirror(X0)) + Four(Mirror(X8));
    assert !bits[0] && !bits[1] && !bits[2] && !bits[3] && !bits[4] && !bits[5] && !bits[6] && bits[7];
  }

  /** Seven zeros change nothing and the one after them adds the polynomial. */
  lemma SevenZerosAndOne(zeros: seq<bool>)
    requires IsGenerator(POLYNOMIAL) && AllZero(EMPTY) && AllZero(zeros)
    ensures Feed(POLYNOMIAL, EMPTY, zeros + [true]) == POLYNOMIAL
  {
    hide *;
    var zero := Feed(POLYNOMIAL, EMPTY, zeros);
    FeedConcat(POLYNOMIAL, EMPTY, zeros, [true]);
    FeedZeros(POLYNOMIAL, EMPTY, zeros);
    StepOnEmpty(POLYNOMIAL, zero, true);
    FeedFirst(POLYNOMIAL, zero, true, []);
    FeedNothing(POLYNOMIAL, POLYNOMIAL);
    assert [true] + [] == [true];
  }

  lemma EightyIsPolynomial()
    ensures Crc([0x80]) == POLYNOMIAL
  {
    PolynomialFacts();
    hide POLYNOMIAL, Feed, BitsLsb, Expand;
    BitsOf80();
    ExpandOne(BitsLsb, 0x80);
    SevenZerosAndOne(Zeros(7));
  }

  lemma NumberInjective(r: Register, s: Register)
    ensures Number(r) == Number(s) <==> r == s
  {
    BitsOfValueOf(Reverse(r));
    BitsOfValueOf(Reverse(s));
    assert Reverse(Reverse(r)) == r && Reverse(Reverse(s)) == s;
  }

  /** The CRC is linear over byte-wise exclusive or. */
  lemma CrcLinear(a: seq<byte>, b: seq<byte>)
    requires |a| == |b|
    ensures Crc(XorBytes(a, b)) == Xor(Crc(a), Crc(b))
  {
    forall x, y ensures BitsLsb(XorByte(x, y)) == Xor(BitsLsb(x), BitsLsb(y)) {
      BitsLsbOfXor(x, y);
    }
    ExpandXor(BitsLsb, a, b);
    hide *;
    AllZeroUnique(Xor(EMPTY, EMPTY), EMPTY) by { XorOfZeros(EMPTY, EMPTY); }
    FeedLinear(POLYNOMIAL, EMPTY, EMPTY, Expand(BitsLsb, a), Expand(BitsLsb, b));
  }

  /** Two accepted frames of one length that differ only inside 32 neighbouring bits are equal. */
  lemma AcceptedFramesNoShortBurst(
      body: seq<byte>, trailer: seq<byte>, body': seq<byte>, trailer': seq<byte>, at: nat)
    requires |trailer| == |trailer'| == 4 && |body| == |body'|
    requires Accepted(body, trailer) && Accepted(body', trailer')
    requires forall i :: i in Differences(Expand(BitsLsb, body + trailer), Expand(BitsLsb, body' + trailer'))
                         ==> at <= i < at + 32
    ensures body + trailer == body' + trailer'
  {
    PolynomialFacts();
    hide Feed, Expand, Accepted;
    AcceptedIffZeroResidue(body, trailer);
    AcceptedIffZeroResidue(body', trailer');
    NoBurstBetween(POLYNOMIAL, EMPTY, Expand(BitsLsb, body + trailer), Expand(BitsLsb, body' + trailer'), at, 32);
    hide *;
    BitsLsbInjective();
    ExpandInjective(BitsLsb, body + trailer, body' + trailer');
  }
}
