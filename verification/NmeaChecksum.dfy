/** NMEA checksums, `gnss_protocols/src/nmea_checksum.cpp`. Characters are bytes. */
module NmeaChecksum {
  import opened Bits
  import opened Framing

  const DOLLAR: byte := 0x24
  const BANG: byte := 0x21
  const STAR: byte := 0x2A
  const COMMA: byte := 0x2C
  const CR: byte := 0x0D
  const LF: byte := 0x0A

  predicate IsLeader(c: byte) {
    c == DOLLAR || c == BANG
  }

  /** How many bytes are left once trailing carriage returns and line feeds are cut off. */
  function TrimmedLength(text: seq<byte>): (n: nat)
    ensures n <= |text|
    ensures n > 0 ==> text[n - 1] != CR && text[n - 1] != LF
    ensures forall i :: n <= i < |text| ==> text[i] == CR || text[i] == LF
  {
    if text != [] && (text[|text| - 1] == CR || text[|text| - 1] == LF)
    then TrimmedLength(text[..|text| - 1]) else |text|
  }

  method TrimLineEnding(text: seq<byte>) returns (end: nat)
    ensures end == TrimmedLength(text)
  {
    end := |text|;
    while end > 0 && (text[end - 1] == CR || text[end - 1] == LF)
      invariant end <= |text|
      invariant TrimmedLength(text[..end]) == TrimmedLength(text)
    {
      assert text[..end][..end - 1] == text[..end - 1];
      end := end - 1;
    }
    assert text[..|text|] == text;
  }

  /** The position of the first occurrence, as `string_view::find` returns it. */
  function Find(text: seq<byte>, c: byte): (k: Option<nat>)
    ensures k.Some? ==> k.value < |text| && text[k.value] == c && c !in text[..k.value]
    ensures k == None ==> c !in text
  {
    if text == [] then None
    else if text[0] == c then Some(0)
    else match Find(text[1..], c)
      case Some(k) => Some(k + 1)
      case None => None
  }

  lemma {:induction false} FindFirst(before: seq<byte>, c: byte, after: seq<byte>)
    requires c !in before
    ensures Find(before + [c] + after, c) == Some(|before|)
  {
    var text := before + [c] + after;
    if before != [] {
      assert text[1..] == before[1..] + [c] + after;
      FindFirst(before[1..], c, after);
    }
  }

  function Checksum(text: seq<byte>): byte {
    if text == [] then 0 else XorByte(Checksum(text[..|text| - 1]), text[|text| - 1])
  }

  method ComputeNmeaChecksum(text: seq<byte>) returns (checksum: byte)
    ensures checksum == Checksum(text)
  {
    checksum := 0;
    for i := 0 to |text|
      invariant checksum == Checksum(text[..i])
    {
      assert text[..i + 1][..i] == text[..i];
      checksum := XorByte(checksum, text[i]);
    }
    assert text[..|text|] == text;
  }

  /** The value of a hexadecimal digit of either case. */
  function HexNibble(c: byte): Option<nat> {
    if 0x30 <= c <= 0x39 then Some(c - 0x30)
    else if 0x41 <= c <= 0x46 then Some(c - 0x41 + 10)
    else if 0x61 <= c <= 0x66 then Some(c - 0x61 + 10)
    else None
  }

  /** The digits in order, in either case. */
  lemma HexNibbleIs(c: byte, n: nat)
    requires n < 16
    ensures HexNibble(c) == Some(n) <==> c as char in ["0123456789ABCDEF"[n], "0123456789abcdef"[n]]
  {
  }

  function TryParseHexByte(text: seq<byte>): (r: Option<byte>)
    ensures r.Some? ==> |text| == 2
  {
    if |text| != 2 || HexNibble(text[0]) == None || HexNibble(text[1]) == None then None
    else Some(16 * HexNibble(text[0]).value + HexNibble(text[1]).value)
  }

  datatype Validation = Validation(status: ChecksumStatus, reported: Option<byte>, computed: Option<byte>)

  function ValidateNmeaChecksum(frame: seq<byte>): Validation {
    if frame == [] || !IsLeader(frame[0]) then Validation(Invalid, None, None)
    else
      var end := TrimmedLength(frame);
      match Find(frame, STAR)
      case None => Validation(Missing, None, None)
      case Some(star) =>
        if star + 3 > end then Validation(Missing, None, None)
        else match TryParseHexByte(frame[star + 1..star + 3])
          case None => Validation(Invalid, None, None)
          case Some(reported) =>
            var computed := Checksum(frame[1..star]);
            Validation(if reported == computed then Valid else Invalid, Some(reported), Some(computed))
  }

  /** Exclusive or with a byte is undone by a second one: equal results mean equal arguments. */
  lemma XorByteCancels(a: byte, b: byte, c: byte)
    requires XorByte(a, c) == XorByte(b, c)
    ensures a == b
  {
    BitsOfXor(a, c);
    BitsOfXor(b, c);
    assert forall i :: 0 <= i < 8 ==> BitsMsb(a)[i] == BitsMsb(b)[i] by {
      var x, y, z := BitsMsb(a), BitsMsb(b), BitsMsb(c);
      hide *;
      forall i | 0 <= i < 8 ensures x[i] == y[i] {
        assert Xor(x, z)[i] == Xor(y, z)[i];
      }
    }
    ValueOfByte(a);
    ValueOfByte(b);
    assert BitsMsb(a) == BitsMsb(b);
  }

  /** A change of one character changes the checksum. */
  lemma {:induction false} SingleChangeDetected(text: seq<byte>, i: nat, c: byte)
    requires i < |text| && c != text[i]
    ensures Checksum(text[i := c]) != Checksum(text)
  {
    var n := |text| - 1;
    var changed := text[i := c];
    if i < n {
      assert changed[..n] == text[..n][i := c];
      SingleChangeDetected(text[..n], i, c);
      if Checksum(changed) == Checksum(text) {
        XorByteCancels(Checksum(changed[..n]), Checksum(text[..n]), text[n]);
      }
    } else {
      assert changed[..n] == text[..n];
      if Checksum(changed) == Checksum(text) {
        XorByteCommutes(Checksum(text[..n]), c);
        XorByteCommutes(Checksum(text[..n]), text[n]);
        XorByteCancels(c, text[n], Checksum(text[..n]));
      }
    }
  }

  lemma XorByteCommutes(a: byte, b: byte)
    ensures XorByte(a, b) == XorByte(b, a)
  {
    assert Xor(BitsMsb(a), BitsMsb(b)) == Xor(BitsMsb(b), BitsMsb(a));
  }

  lemma XorByteZero(b: byte)
    ensures XorByte(0, b) == b
  {
    var zero := BitsMsb(0);
    assert AllZero(zero) by { ZeroBits(8); }
    assert Xor(zero, BitsMsb(b)) == BitsMsb(b);
    ValueOfByte(b);
  }

  lemma {:induction false} ZeroBits(width: nat)
    ensures AllZero(BitsOf(0, width))
  {
    if width > 0 {
      ZeroBits(width - 1);
    }
  }

  lemma XorByteJoins(a: byte, b: byte, c: byte)
    ensures XorByte(a, XorByte(b, c)) == XorByte(XorByte(a, b), c)
  {
    BitsOfXor(b, c);
    BitsOfXor(a, b);
    var x, y, z := BitsMsb(a), BitsMsb(b), BitsMsb(c);
    assert Xor(x, Xor(y, z)) == Xor(Xor(x, y), z);
  }

  /** Nothing counts zero, one character counts itself, and parts add up by exclusive or. */
  lemma {:induction false} ChecksumOfParts(a: seq<byte>, c: byte, b: seq<byte>)
    ensures Checksum([]) == 0 && Checksum([c]) == c
    ensures Checksum(a + b) == XorByte(Checksum(a), Checksum(b))
    decreases |b|
  {
    assert [c][..0] == [];
    XorByteZero(c);
    if b == [] {
      assert a + b == a;
      XorByteZero(Checksum(a));
      XorByteCommutes(Checksum(a), 0);
    } else {
      var n := |b| - 1;
      ChecksumOfParts(a, c, b[..n]);
      assert (a + b)[..|a| + n] == a + b[..n];
      hide XorByte;
      XorByteJoins(Checksum(a), Checksum(b[..n]), b[n]);
    }
  }

  lemma TrimsOneEnding(line: seq<byte>)
    requires |line| >= 2 && line[|line| - 2..] == [0x0D, 0x0A]
    requires |line| > 2 ==> line[|line| - 3] != 0x0D && line[|line| - 3] != 0x0A
    ensures TrimmedLength(line) == |line| - 2
  {
    assert line[|line| - 1] == LF && line[|line| - 2] == CR;
    assert TrimmedLength(line) == TrimmedLength(line[..|line| - 1]) == TrimmedLength(line[..|line| - 1][..|line| - 2]);
  }
}
