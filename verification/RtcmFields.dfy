/**
 RTCM fields found on bytes: what a field is that lies inside one byte or runs over several, and with
 that the whole station position message as a function of its bytes, without the bit reader.
 */
module RtcmFields {
  import opened Bits
  import opened RtcmBits
  import opened Framing
  import opened RtcmFramer
  import RtcmSample
  import RtcmStream
  import opened RtcmParser

  lemma {:induction false} LowBits(n: nat, a: nat, b: nat)
    ensures BitsOf(n, a + b)[a..] == BitsOf(n, b)
  {
    if b == 0 {
      assert BitsOf(n, a + 0)[a..] == [];
    } else {
      LowBits(n / 2, a, b - 1);
      assert BitsOf(n, a + b)[a..] == BitsOf(n / 2, a + (b - 1))[a..] + [n % 2 == 1];
    }
  }

  /** Whole times divisor: the part of a number that a division by `d` keeps. */
  function Whole(n: nat, d: nat): nat
    requires d > 0
  {
    d * (n / d)
  }

  lemma WholeOfHalf(n: nat, p: nat)
    requires p > 0
    ensures Whole(n, 2 * p) == 2 * Whole(n / 2, p)
  {
    HalfThenDivide(n, p);
    var q := n / 2 / p;
    assert (2 * p) * q == 2 * (p * q);
  }

  lemma LastBit(n: nat, width: nat)
    requires width > 0
    ensures ValueOf(BitsOf(n, width)) == 2 * ValueOf(BitsOf(n / 2, width - 1)) + n % 2
    ensures Pow2(width) == 2 * Pow2(width - 1)
  {
    assert BitsOf(n, width)[..width - 1] == BitsOf(n / 2, width - 1);
  }

  /** A number cut to its lowest bits is what dividing by the power of two leaves over. */
  lemma {:induction false} ValueOfLowBits(n: nat, width: nat)
    ensures n == Whole(n, Pow2(width)) + ValueOf(BitsOf(n, width))
  {
    if width > 0 {
      hide *;
      ValueOfLowBits(n / 2, width - 1);
      WholeOfHalf(n, Pow2(width - 1));
      LastBit(n, width);
    }
  }

  /** A number with its last places dropped. */
  function Dropped(n: nat, d: nat): nat
    requires d > 0
  {
    n / d
  }

  /** Bits inside one byte: what is behind them dropped, what is in front of them left over. */
  lemma InsideByte(b: byte, skip: nat, count: nat)
    requires skip + count <= 8
    ensures var shifted := Dropped(b, Pow2(8 - skip - count));
            shifted == Whole(shifted, Pow2(count)) + ValueOf(BitsMsb(b)[skip..skip + count])
  {
    hide *;
    var shifted := Dropped(b, Pow2(8 - skip - count));
    TopPart(b, skip + count, 8 - skip - count);
    LowBits(shifted, skip, count);
    ValueOfLowBits(shifted, count);
    MsbIsBits(b);
    SkipInside(BitsMsb(b), skip, count);
  }

  lemma SkipInside(bits: seq<bool>, skip: nat, count: nat)
    requires skip + count <= |bits|
    ensures bits[skip..skip + count] == bits[..skip + count][skip..]
  {
  }

  lemma MsbIsBits(b: byte)
    ensures BitsMsb(b) == BitsOf(b, 8)
  {
  }

  lemma TopPart(n: nat, width: nat, cut: nat)
    ensures BitsOf(n, width + cut)[..width] == BitsOf(Dropped(n, Pow2(cut)), width)
  {
    hide BitsOf, Pow2;
    TopBits(n, width, cut);
  }

  lemma FieldInByte(p: seq<byte>, i: nat, skip: nat, count: nat)
    requires i < |p| && skip + count <= 8
    ensures Field(p, 8 * i + skip, count) == ValueOf(BitsMsb(p[i])[skip..skip + count])
  {
    hide PayloadBits, BitsMsb, ValueOf;
    var field, bits := PayloadBits(p)[8 * i + skip..8 * i + skip + count], BitsMsb(p[i])[skip..skip + count];
    forall j | 0 <= j < count ensures field[j] == bits[j] {
      ExpandAt(p, i, skip + j);
    }
    assert field == bits;
  }

  lemma WholeByte(p: seq<byte>, i: nat)
    requires i < |p|
    ensures Field(p, 8 * i, 8) == p[i]
  {
    FieldInByte(p, i, 0, 8);
    ValueOfByte(p[i]);
    hide PayloadBits, BitsMsb, ValueOf;
    assert BitsMsb(p[i])[0..8] == BitsMsb(p[i]);
  }

  lemma JoinedField(p: seq<byte>, offset: nat, a: nat, b: nat)
    requires offset + a + b <= 8 * |p|
    ensures Field(p, offset, a + b) == Field(p, offset, a) * Pow2(b) + Field(p, offset + a, b)
  {
    hide PayloadBits, ValueOf, Pow2;
    JoinedBits(PayloadBits(p), offset, a, b);
  }

  lemma SmallPowers()
    ensures Pow2(1) == 2 && Pow2(2) == 4 && Pow2(3) == 8 && Pow2(4) == 16 && Pow2(5) == 32 && Pow2(6) == 64
    ensures Pow2(7) == 128 && Pow2(8) == 256 && Pow2(0) == 1
  {
  }

  /** The fields inside one byte that the station position needs. */
  lemma ByteParts(p: seq<byte>, i: nat)
    requires i < |p|
    ensures Field(p, 8 * i, 1) == p[i] / 128 && Field(p, 8 * i + 1, 1) == p[i] / 64 % 2
    ensures Field(p, 8 * i + 6, 1) == p[i] / 2 % 2 && Field(p, 8 * i + 7, 1) == p[i] % 2
    ensures Field(p, 8 * i, 2) == p[i] / 64 && Field(p, 8 * i, 6) == p[i] / 4
    ensures Field(p, 8 * i + 2, 6) == p[i] % 64 && Field(p, 8 * i + 4, 4) == p[i] % 16
  {
    SmallPowers();
    hide Field, BitsMsb, ValueOf, Pow2;
    FieldInByte(p, i, 0, 1);
    InsideByte(p[i], 0, 1);
    FieldInByte(p, i, 1, 1);
    InsideByte(p[i], 1, 1);
    FieldInByte(p, i, 6, 1);
    InsideByte(p[i], 6, 1);
    FieldInByte(p, i, 7, 1);
    InsideByte(p[i], 7, 1);
    FieldInByte(p, i, 0, 2);
    InsideByte(p[i], 0, 2);
    FieldInByte(p, i, 0, 6);
    InsideByte(p[i], 0, 6);
    FieldInByte(p, i, 2, 6);
    InsideByte(p[i], 2, 6);
    FieldInByte(p, i, 4, 4);
    InsideByte(p[i], 4, 4);
  }

  // ----- The station position, byte by byte ----------------------------------------------------

  /** Six bits of one byte and four bytes more, big-endian. */
  function Raw38(p: seq<byte>, at: nat): nat
    requires at + 5 <= |p|
  {
    p[at] as nat % 64 * 0x1_0000_0000 + p[at + 1] as nat * 0x100_0000 + p[at + 2] as nat * 0x1_0000
    + p[at + 3] as nat * 0x100 + p[at + 4] as nat
  }

  /** A 38-bit two's-complement number. */
  function Signed38(p: seq<byte>, at: nat): int
    requires at + 5 <= |p|
  {
    if Raw38(p, at) >= 0x20_0000_0000 then Raw38(p, at) - 0x40_0000_0000 else Raw38(p, at)
  }

  lemma ManyPowers()
    ensures Pow2(32) == 0x1_0000_0000 && Pow2(24) == 0x100_0000 && Pow2(16) == 0x1_0000 && Pow2(8) == 0x100
    ensures Pow2(37) == 0x20_0000_0000 && Pow2(38) == 0x40_0000_0000
  {
    Pow2Values();
    SmallPowers();
    Pow2Add(32, 5);
    Pow2Add(32, 6);
  }

  lemma Raw38Field(p: seq<byte>, at: nat)
    requires at + 5 <= |p|
    ensures Field(p, 8 * at + 2, 38) == Raw38(p, at)
  {
    ManyPowers();
    hide Field, Pow2;
    JoinedField(p, 8 * at + 2, 6, 32);
    JoinedField(p, 8 * (at + 1), 8, 24);
    JoinedField(p, 8 * (at + 2), 8, 16);
    JoinedField(p, 8 * (at + 3), 8, 8);
    ByteParts(p, at);
    WholeByte(p, at + 1);
    WholeByte(p, at + 2);
    WholeByte(p, at + 3);
    WholeByte(p, at + 4);
  }

  lemma Signed38Field(p: seq<byte>, at: nat)
    requires at + 5 <= |p|
    ensures SignedField(p, 8 * at + 2, 38) == Signed38(p, at)
  {
    ManyPowers();
    Raw38Field(p, at);
    TwosComplementFacts(PayloadBits(p)[8 * at + 2..8 * at + 2 + 38]);
    hide PayloadBits, Pow2, TwosComplement, ValueOf;
  }

  /** Ten-thousandths of a metre. */
  function TenThousandths(n: int): real {
    n as real / 10000.0
  }

  lemma MetresAreTenThousandths(n: int)
    ensures Metres(n) == TenThousandths(n)
  {
  }

  lemma UnsignedIsField(p: seq<byte>, offset: nat, count: nat)
    requires 1 <= count <= 64 && offset + count <= 8 * |p|
    ensures ReadUnsigned(p, offset, count) == Some(Field(p, offset, count))
  {
    hide PayloadBits, ValueOf;
  }

  lemma SignedIsField(p: seq<byte>, offset: nat, count: nat)
    requires 1 <= count < 64 && offset + count <= 8 * |p|
    ensures ReadSigned(p, offset, count) == Some(SignedField(p, offset, count))
  {
    hide PayloadBits, TwosComplement;
  }

  lemma FieldsOfArp(p: seq<byte>)
    requires |p| >= 19
    ensures ReadStationArp(p)
         == Some(StationArp(
                   Field(p, 0, 12), Field(p, 12, 12), Field(p, 24, 6), Field(p, 30, 1) != 0, Field(p, 31, 1) != 0,
                   Field(p, 32, 1) != 0, Field(p, 33, 1) != 0, Metres(SignedField(p, 34, 38)),
                   Metres(SignedField(p, 74, 38)), Metres(SignedField(p, 114, 38)), None,
                   Field(p, 72, 1) != 0, Field(p, 112, 2)))
  {
    hide ReadUnsigned, ReadSigned, Field, SignedField, Metres;
    UnsignedIsField(p, 0, 12);
    UnsignedIsField(p, 12, 12);
    UnsignedIsField(p, 24, 6);
    UnsignedIsField(p, 30, 1);
    UnsignedIsField(p, 31, 1);
    UnsignedIsField(p, 32, 1);
    UnsignedIsField(p, 33, 1);
    UnsignedIsField(p, 72, 1);
    UnsignedIsField(p, 112, 2);
    SignedIsField(p, 34, 38);
    SignedIsField(p, 74, 38);
    SignedIsField(p, 114, 38);
  }

  /** The station position as its bytes say it. */
  function ArpOfBytes(p: seq<byte>, height: Option<real>): StationArp
    requires |p| >= 19
  {
    StationArp(
      p[0] as nat * 16 + p[1] / 16, p[1] as nat % 16 * 256 + p[2], p[3] / 4,
      p[3] / 2 % 2 == 1, p[3] % 2 == 1, p[4] / 128 == 1, p[4] / 64 % 2 == 1,
      TenThousandths(Signed38(p, 4)), TenThousandths(Signed38(p, 9)), TenThousandths(Signed38(p, 14)), height,
      p[9] / 128 == 1, p[14] / 64)
  }

  lemma CommonFieldsByBytes(p: seq<byte>)
    requires |p| >= 19
    ensures ReadStationArp(p) == Some(ArpOfBytes(p, None))
  {
    hide Field, SignedField, Metres, TenThousandths, ReadStationArp, Signed38, Pow2;
    FieldsOfArp(p);
    TypeField(p);
    StationField(p);
    ByteParts(p, 3);
    ByteParts(p, 4);
    ByteParts(p, 9);
    ByteParts(p, 14);
    Signed38Field(p, 4);
    Signed38Field(p, 9);
    Signed38Field(p, 14);
    MetresAreTenThousandths(Signed38(p, 4));
    MetresAreTenThousandths(Signed38(p, 9));
    MetresAreTenThousandths(Signed38(p, 14));
  }

  lemma TypeField(p: seq<byte>)
    requires |p| >= 2
    ensures Field(p, 0, 12) == p[0] as nat * 16 + p[1] / 16
  {
    TwelveBits(p);
    hide PayloadBits, ValueOf;
  }

  lemma StationField(p: seq<byte>)
    requires |p| >= 3
    ensures Field(p, 12, 12) == p[1] as nat % 16 * 256 + p[2]
  {
    SmallPowers();
    hide Field, Pow2;
    JoinedField(p, 12, 4, 8);
    ByteParts(p, 1);
    WholeByte(p, 2);
  }

  /**
   The station position message on bytes alone: accepted exactly from 19 bytes on, or 21 for type 1006,
   with every field where the standard puts it and every length in ten-thousandths of a metre.
   */
  lemma ArpIsItsBytes(frame: RtcmFrame)
    requires MessageType(frame).Some? && MessageType(frame).value in [1005, 1006]
    ensures var t, p, r := MessageType(frame).value, frame.payload, ParseStationArp(frame);
            if |p| < (if t == 1006 then 21 else 19) then r == None
            else r == Some(ArpOfBytes(p, if t == 1006 then Some(TenThousandths(p[19] as nat * 256 + p[20])) else None))
  {
    var p := frame.payload;
    hide ReadStationArp, ReadUnsigned, Metres, TenThousandths, ArpOfBytes, MessageType, Field, Pow2;
    if |p| >= 19 {
      CommonFieldsByBytes(p);
    }
    if |p| >= 21 {
      SmallPowers();
      UnsignedIsField(p, 152, 16);
      JoinedField(p, 152, 8, 8);
      WholeByte(p, 19);
      WholeByte(p, 20);
      MetresAreTenThousandths(p[19] as nat * 256 + p[20]);
      ArpWithHeight(p, p[19] as nat * 256 + p[20]);
    }
  }

  lemma ArpWithHeight(p: seq<byte>, n: int)
    requires |p| >= 19
    ensures ArpOfBytes(p, None).(antennaHeight := Some(TenThousandths(n))) == ArpOfBytes(p, Some(TenThousandths(n)))
  {
    hide Signed38, TenThousandths;
  }

  /** The bytes of the sample's payload that carry numbers. */
  lemma SampleBytes()
    ensures var p := RtcmStream.SAMPLE_PAYLOAD;
            && |p| == 19 && p[0] == 0x3E && p[1] == 0xD7 && p[2] == 0xD3 && p[3] == 0x02 && p[4] == 0x02
            && p[5] == 0x98 && p[6] == 0x0E && p[7] == 0xDE && p[8] == 0xEF && p[9] == 0x34 && p[10] == 0xB4
            && p[11] == 0xBD && p[12] == 0x62 && p[13] == 0xAC && p[14] == 0x09 && p[15] == 0x41 && p[16] == 0x98
            && p[17] == 0x6F && p[18] == 0x33
  {
  }

  lemma SampleNumbers()
    ensures var p := RtcmStream.SAMPLE_PAYLOAD;
            |p| == 19 && Signed38(p, 4) == 11141045999 && Signed38(p, 9) == -48507297108 && Signed38(p, 14) == 39755214643
  {
    hide RtcmStream.SAMPLE_PAYLOAD;
    SampleBytes();
  }

  /**
   The sample frame, fed to an idle framer, is reported and decoded as station 2003 at
   (1114104.5999, -4850729.7108, 3975521.4643) metres.
   */
  lemma SampleSays(max: nat, input: seq<Stamped>)
    requires max >= 25 && Values(input) == RtcmSample.BODY + RtcmSample.TRAILER
    ensures var frames := Run(FramerFor(max), [], input).1;
            |frames| == 1 && ParseStationArp(frames[0])
              == Some(StationArp(1005, 2003, 0, true, false, false, false,
                                 1114104.5999, -4850729.7108, 3975521.4643, None, false, 0))
  {
    hide Run, ParseStationArp, ArpOfBytes, RtcmSample.BODY, RtcmSample.TRAILER, RtcmStream.SAMPLE_PAYLOAD;
    RtcmStream.SampleComesBack(max, input);
    var frame := Run(FramerFor(max), [], input).1[0];
    RtcmStream.SampleIsBuilt();
    SampleTyped(frame);
    ArpIsItsBytes(frame);
    SampleRecord();
  }

  lemma SampleTyped(frame: RtcmFrame)
    requires frame.status == Valid && frame.payload == RtcmStream.SAMPLE_PAYLOAD
    ensures MessageType(frame) == Some(1005)
  {
    SampleBytes();
    hide RtcmStream.SAMPLE_PAYLOAD;
  }

  lemma SampleRecord()
    ensures |RtcmStream.SAMPLE_PAYLOAD| == 19
    ensures ArpOfBytes(RtcmStream.SAMPLE_PAYLOAD, None)
         == StationArp(1005, 2003, 0, true, false, false, false,
                       1114104.5999, -4850729.7108, 3975521.4643, None, false, 0)
  {
    SampleBytes();
    SampleNumbers();
    hide RtcmStream.SAMPLE_PAYLOAD, Signed38;
  }
}
