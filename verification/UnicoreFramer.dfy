/** The Unicore ASCII framer, `gnss_protocols/src/unicore_framer.cpp`. Characters are bytes. */
module UnicoreFramer {
  import opened Bits
  import opened Framing
  import opened NmeaChecksum
  import S = FrameSlices
  import UnicoreCrc32

  const HASH: byte := 0x23
  const PERCENT: byte := 0x25
  const SEMICOLON: byte := 0x3B
  const SPACE: byte := 0x20

  datatype Check = Check(status: ChecksumStatus, reported: nat, computed: nat)

  datatype UnicoreFrame = UnicoreFrame(
    ts: Timestamp, syncChar: byte, messageName: seq<byte>, payload: seq<byte>, rawBytes: seq<byte>, check: Check)

  predicate IsSyncByte(c: byte) {
    c == HASH || c == DOLLAR || c == PERCENT
  }

  predicate EndsName(c: byte) {
    c == COMMA || c == SEMICOLON || c == STAR || c == SPACE
  }

  /** The text before the first byte that ends a message name. */
  function NameOf(payload: seq<byte>): (name: seq<byte>)
    ensures |name| <= |payload| && name == payload[..|name|]
    ensures forall c :: c in name ==> !EndsName(c)
    ensures |name| < |payload| ==> EndsName(payload[|name|])
  {
    if payload == [] || EndsName(payload[0]) then []
    else
      var rest := NameOf(payload[1..]);
      [payload[0]] + rest
  }

  /** The position of the last occurrence, as `string_view::rfind` returns it. */
  function FindLast(text: seq<byte>, c: byte): (k: Option<nat>)
    ensures k.Some? ==> k.value < |text| && text[k.value] == c
    ensures k.Some? ==> forall j :: k.value < j < |text| ==> text[j] != c
    ensures k == None ==> c !in text
  {
    if text == [] then None
    else if text[|text| - 1] == c then Some(|text| - 1)
    else FindLast(text[..|text| - 1], c)
  }

  predicate IsHex(text: seq<byte>) {
    forall c :: c in text ==> HexNibble(c).Some?
  }

  /** How many bytes at the front are hexadecimal digits. */
  function HexRun(text: seq<byte>): (n: nat)
    ensures n <= |text| && IsHex(text[..n])
    ensures n < |text| ==> HexNibble(text[n]) == None
  {
    if text == [] || HexNibble(text[0]) == None then 0
    else
      var n := HexRun(text[1..]);
      assert text[..n + 1] == [text[0]] + text[1..][..n];
      n + 1
  }

  function HexValue(digits: seq<byte>): nat
    requires IsHex(digits)
  {
    if digits == [] then 0
    else
      var n := |digits| - 1;
      16 * HexValue(digits[..n]) + HexNibble(digits[n]).value
  }

  /** A failed parse leaves the value of the digits before the first byte that is none. */
  method TryParseHex32(text: seq<byte>) returns (ok: bool, value: nat)
    ensures ok <==> |text| == 8 && IsHex(text)
    ensures value == if |text| == 8 then HexValue(text[..HexRun(text)]) else 0
  {
    value := 0;
    if |text| != 8 {
      return false, value;
    }
    var i := 0;
    while i < |text|
      invariant 0 <= i <= HexRun(text)
      invariant value == HexValue(text[..i])
    {
      var nibble := HexNibble(text[i]);
      if nibble == None {
        assert text[i] in text;
        return false, value;
      }
      assert text[..i + 1][..i] == text[..i];
      value := 16 * value + nibble.value;
      i := i + 1;
    }
    assert text[..i] == text;
    return true, value;
  }

  /** What the checksum field at the end of a '#' record says. */
  function CheckOf(payload: seq<byte>): Check {
    match FindLast(payload, STAR)
    case None => Check(Missing, 0, 0)
    case Some(star) =>
      if star + 9 != |payload| then Check(Invalid, 0, 0)
      else
        var digits := payload[star + 1..];
        if !IsHex(digits) then Check(Invalid, HexValue(digits[..HexRun(digits)]), 0)
        else
          var computed := UnicoreCrc32.Number(UnicoreCrc32.Crc(payload[..star]));
          Check(if HexValue(digits) == computed then Valid else Invalid, HexValue(digits), computed)
  }

  function FrameOf(raw: seq<byte>, ts: Timestamp): (frame: UnicoreFrame)
    requires raw != []
    ensures frame.rawBytes == raw && frame.ts == ts && frame.syncChar == raw[0]
  {
    var end := TrimmedLength(raw);
    var payload := if end > 1 then raw[1..end] else [];
    UnicoreFrame(ts, raw[0], NameOf(payload), payload, raw,
                 if raw[0] == HASH then CheckOf(payload) else Check(NotChecked, 0, 0))
  }

  /** The framer as a function of the bytes it holds; a sync byte inside a record does not restart it. */
  function Push(max: nat, held: Pending, s: Stamped): (Pending, ParserResult<UnicoreFrame>) {
    if held == [] then
      if IsSyncByte(s.value) then ([s], NeedMoreData) else ([], Skipped)
    else
      var grown := held + [s];
      if |grown| > max then ([], Overflow)
      else if s.value != LF then (grown, NeedMoreData)
      else ([], RecordReady(FrameOf(Values(grown), grown[0].ts)))
  }

  function FramerFor(max: nat): Framer<UnicoreFrame> {
    (held, s) => Push(max, held, s)
  }

  /** A record is everything held when it is reported. */
  function Placing(): S.Shape<UnicoreFrame> {
    S.Shape(grown => (0, |grown|), (f: UnicoreFrame) => f.rawBytes, (f: UnicoreFrame) => f.ts)
  }

  lemma PushSlices(max: nat)
    ensures S.Slicing(FramerFor(max), Placing())
  {
    hide FrameOf;
    forall held: Pending, s: Stamped ensures S.SlicesAt(FramerFor(max), Placing(), held, s) {
      var grown := held + [s];
      assert Values(grown)[0..|grown|] == Values(grown);
    }
  }

  /** Over any input the records are slices of the stream, in order and without overlap. */
  lemma ReportsAreDisjointSlices(max: nat, done: seq<Stamped>, held: Pending, input: seq<Stamped>)
    requires IsSuffix(held, done)
    ensures S.DisjointSlices(done + input, Placing(), S.Locate(FramerFor(max), Placing(), held, |done|, input),
                             |done| - |held|)
  {
    PushSlices(max);
    S.RecordsAreDisjointSlices(FramerFor(max), Placing(), done, held, input);
  }

  class UnicoreFrameFramer {
    const maxFrameLength: nat
    var buffer: seq<byte>
    var frameTimestamp: Timestamp
    ghost var held: Pending

    ghost predicate Valid()
      reads this
    {
      buffer == Values(held) && (held != [] ==> frameTimestamp == held[0].ts)
    }

    constructor (maxFrameLength: nat)
      ensures Valid() && held == [] && this.maxFrameLength == maxFrameLength
    {
      this.maxFrameLength := maxFrameLength;
      buffer, frameTimestamp, held := [], None, [];
    }

    method Reset()
      modifies this
      ensures Valid() && held == []
    {
      buffer, frameTimestamp, held := [], None, [];
    }

    method PushByte(value: byte, ts: Timestamp) returns (result: ParserResult<UnicoreFrame>)
      requires Valid()
      modifies this
      ensures Valid()
      ensures (held, result) == Push(maxFrameLength, old(held), Stamped(value, ts))
    {
      hide FrameOf;
      if buffer == [] {
        if !IsSyncByte(value) {
          return Skipped;
        }
        buffer, frameTimestamp := buffer + [value], ts;
        held := [Stamped(value, ts)];
        return NeedMoreData;
      }
      buffer := buffer + [value];
      held := held + [Stamped(value, ts)];
      assert buffer == Values(held) && frameTimestamp == held[0].ts;
      if |buffer| > maxFrameLength {
        Reset();
        return Overflow;
      }
      if value != LF {
        return NeedMoreData;
      }
      var frame := BuildFrame();
      Reset();
      return RecordReady(frame);
    }

    method BuildFrame() returns (frame: UnicoreFrame)
      requires buffer != []
      ensures frame == FrameOf(buffer, frameTimestamp)
    {
      hide CheckOf, NameOf;
      var end := TrimLineEnding(buffer);
      var payload, name := [], [];
      if end > 1 {
        payload := buffer[1..end];
        name := CollectName(payload);
      } else {
        assert NameOf([]) == [];
      }
      var check := Check(NotChecked, 0, 0);
      if buffer[0] == HASH {
        check := CheckPayload(payload);
      }
      return UnicoreFrame(frameTimestamp, buffer[0], name, payload, buffer, check);
    }

    method Finalize() returns (result: ParserResult<UnicoreFrame>)
      requires Valid()
      modifies this
      ensures Valid() && held == []
      ensures result == Framing.Finalize(old(held))
    {
      if buffer == [] {
        return Idle;
      }
      Reset();
      return Truncated;
    }
  }

  /** The loop of `BuildFrame` that collects the message name. */
  method CollectName(payload: seq<byte>) returns (name: seq<byte>)
    ensures name == NameOf(payload)
  {
    name := [];
    var i := 0;
    while i < |payload|
      invariant 0 <= i <= |payload|
      invariant NameOf(payload) == name + NameOf(payload[i..])
    {
      if EndsName(payload[i]) {
        return;
      }
      assert payload[i..][1..] == payload[i + 1..];
      name := name + [payload[i]];
      i := i + 1;
    }
  }

  /** The end of `BuildFrame`, for a record that starts with '#'. */
  method CheckPayload(payload: seq<byte>) returns (check: Check)
    ensures check == CheckOf(payload)
  {
    hide UnicoreCrc32.Crc, UnicoreCrc32.Number, HexNibble, IsHex, HexRun, HexValue, FindLast;
    var star := FindLast(payload, STAR);
    if star == None {
      return Check(Missing, 0, 0);
    }
    if star.value + 9 != |payload| {
      return Check(Invalid, 0, 0);
    }
    var digits := payload[star.value + 1..];
    var ok, reported := TryParseHex32(digits);
    if !ok {
      return Check(Invalid, reported, 0);
    }
    WholeRun(digits);
    var crc := UnicoreCrc32.ComputeUnicoreBinaryCrc32(payload[..star.value]);
    var computed := UnicoreCrc32.Number(crc);
    return Check(if reported == computed then Valid else Invalid, reported, computed);
  }

  lemma {:induction false} WholeRun(digits: seq<byte>)
    requires IsHex(digits)
    ensures HexRun(digits) == |digits| && digits[..HexRun(digits)] == digits
  {
    hide HexNibble;
    if digits != [] {
      assert digits[0] in digits;
      WholeRun(digits[1..]);
    }
  }

  // ----- What a valid checksum means -------------------------------------------------------

  /** A payload is some text, a star, and eight digits of either case that spell the text's CRC-32. */
  ghost predicate Sealed(payload: seq<byte>, body: seq<byte>, digits: seq<byte>) {
    && payload == body + [STAR] + digits
    && |digits| == 8 && IsHex(digits)
    && HexValue(digits) == UnicoreCrc32.Number(UnicoreCrc32.Crc(body))
  }

  lemma SealedStar(payload: seq<byte>, body: seq<byte>, digits: seq<byte>)
    requires payload == body + [STAR] + digits && IsHex(digits)
    ensures FindLast(payload, STAR) == Some(|body|)
  {
    var n := |body|;
    assert payload[n] == STAR && HexNibble(STAR) == None;
    assert forall k :: n < k < |payload| ==> payload[k] == digits[k - n - 1] && payload[k] in digits;
  }

  /** A record is marked valid exactly when its payload is sealed by the CRC of the text before the star. */
  lemma ValidIffSealed(payload: seq<byte>)
    ensures CheckOf(payload).status == Valid <==> exists body, digits :: Sealed(payload, body, digits)
  {
    hide UnicoreCrc32.Crc, UnicoreCrc32.Number, HexNibble, HexValue;
    if CheckOf(payload).status == Valid {
      var star := FindLast(payload, STAR).value;
      assert payload == payload[..star] + [STAR] + payload[star + 1..];
      assert Sealed(payload, payload[..star], payload[star + 1..]);
    }
    if body, digits :| Sealed(payload, body, digits) {
      SealedStar(payload, body, digits);
      assert payload[..|body|] == body && payload[|body| + 1..] == digits;
    }
  }

  /** `width` lower-case digits, most significant first, as a receiver writes them. */
  function HexDigits(n: nat, width: nat): (digits: seq<byte>)
    ensures |digits| == width && IsHex(digits)
  {
    if width == 0 then []
    else
      var d := n % 16;
      HexDigits(n / 16, width - 1) + [if d < 10 then 0x30 + d else 0x61 + d - 10]
  }

  function Pow16(n: nat): (p: nat)
    ensures p > 0
  {
    if n == 0 then 1 else 16 * Pow16(n - 1)
  }

  lemma {:induction false} HexRoundTrip(n: nat, width: nat)
    requires n < Pow16(width)
    ensures HexValue(HexDigits(n, width)) == n
  {
    if width > 0 {
      HexRoundTrip(n / 16, width - 1);
      var digits := HexDigits(n, width);
      assert digits[..width - 1] == HexDigits(n / 16, width - 1);
    }
  }

  /** The line a receiver sends for a record text. */
  function RecordLine(body: seq<byte>): seq<byte> {
    [HASH] + SealedPayload(body) + [CR, LF]
  }

  function SealedPayload(body: seq<byte>): (payload: seq<byte>)
    ensures |payload| == |body| + 9
  {
    body + [STAR] + HexDigits(UnicoreCrc32.Number(UnicoreCrc32.Crc(body)), 8)
  }

  lemma SealedPayloadIsValid(body: seq<byte>)
    ensures CheckOf(SealedPayload(body)).status == Valid
  {
    hide UnicoreCrc32.Crc, CheckOf;
    var crc := UnicoreCrc32.Crc(body);
    Pow2Values();
    assert Pow16(8) == 0x1_0000_0000;
    hide Pow16;
    HexRoundTrip(UnicoreCrc32.Number(crc), 8);
    hide *;
    ValidIffSealed(SealedPayload(body));
    SealedFields(body);
  }

  lemma SealedFields(body: seq<byte>)
    requires var n := UnicoreCrc32.Number(UnicoreCrc32.Crc(body)); HexValue(HexDigits(n, 8)) == n
    ensures Sealed(SealedPayload(body), body, HexDigits(UnicoreCrc32.Number(UnicoreCrc32.Crc(body)), 8))
  {
    hide UnicoreCrc32.Crc, UnicoreCrc32.Number, HexDigits, HexValue;
  }

  lemma RecordLineFrame(body: seq<byte>, ts: Timestamp)
    ensures var f := FrameOf(RecordLine(body), ts);
            f.syncChar == HASH && f.payload == SealedPayload(body) && f.check.status == Valid
  {
    SealedPayloadIsValid(body);
    hide CheckOf, SealedPayload, NameOf;
    var line, payload := RecordLine(body), SealedPayload(body);
    LastIsDigit(body);
    assert line[|line| - 1] == LF && line[|line| - 2] == CR && line[|line| - 3] == payload[|payload| - 1];
    assert TrimmedLength(line) == |line| - 2;
    assert line[1..|line| - 2] == payload;
  }

  lemma LastIsDigit(body: seq<byte>)
    ensures var p := SealedPayload(body); HexNibble(p[|p| - 1]).Some? && p[|p| - 1] != CR && p[|p| - 1] != LF
  {
    hide UnicoreCrc32.Crc, UnicoreCrc32.Number;
    var digits := HexDigits(UnicoreCrc32.Number(UnicoreCrc32.Crc(body)), 8);
    assert digits[7] in digits;
  }

  /** A line with one line feed, at its end, that starts with a sync byte. */
  predicate IsLine(line: seq<byte>) {
    && |line| >= 2 && IsSyncByte(line[0]) && line[|line| - 1] == LF
    && forall i :: 0 <= i < |line| - 1 ==> line[i] != LF
  }

  lemma {:induction false} HoldsLine(max: nat, input: seq<Stamped>, k: nat)
    requires IsLine(Values(input)) && 1 <= k < |input| && k <= max
    ensures Run(FramerFor(max), [], input[..k]) == (input[..k], [])
  {
    if k == 1 {
      assert input[..1] == [input[0]];
      assert IsSyncByte(Values(input)[0]);
      RunOne(FramerFor(max), [], input[0]);
    } else {
      HoldsLine(max, input, k - 1);
      RunSnoc(FramerFor(max), [], input, k - 1);
      assert input[..k - 1] + [input[k - 1]] == input[..k];
      assert Values(input)[k - 1] != LF;
    }
  }

  lemma PushLast(max: nat, input: seq<Stamped>, n: nat)
    requires IsLine(Values(input)) && |input| <= max && n == |input| - 1
    ensures FramerFor(max)(input[..n], input[n]) == ([], RecordReady(FrameOf(Values(input), input[0].ts)))
  {
    hide FrameOf;
    assert input[..n] + [input[n]] == input;
    assert Values(input)[n] == LF;
  }

  lemma LineComesBack(max: nat, input: seq<Stamped>)
    requires IsLine(Values(input)) && 2 <= |input| <= max
    ensures Run(FramerFor(max), [], input) == ([], [FrameOf(Values(input), input[0].ts)])
  {
    hide *;
    var n := |input| - 1;
    HoldsLine(max, input, n);
    PushLast(max, input, n);
    RunCompletes(FramerFor(max), [], input, FrameOf(Values(input), input[0].ts));
  }

  /** Nothing longer than the limit is ever reported. */
  lemma {:induction false} ReportsFit(max: nat, held: Pending, input: seq<Stamped>)
    ensures forall f :: f in Run(FramerFor(max), held, input).1 ==> |f.rawBytes| <= max
    decreases |input|
  {
    hide FrameOf;
    if input != [] {
      ReportsFit(max, Push(max, held, input[0]).0, input[1..]);
    }
  }

  /**
   A sealed record line fed to an idle framer comes back as one valid record with its text, if and
   only if the line is no longer than the limit.
   */
  lemma RecordComesBackIffItFits(max: nat, body: seq<byte>, input: seq<Stamped>)
    requires LF !in body && Values(input) == RecordLine(body)
    ensures var (held, frames) := Run(FramerFor(max), [], input);
            |input| <= max <==>
            held == [] && |frames| == 1 && frames[0].rawBytes == RecordLine(body)
            && frames[0].payload == SealedPayload(body) && frames[0].check.status == Valid
  {
    if |input| <= max {
      RecordLineIsLine(body);
      hide *;
      LineComesBack(max, input);
      RecordLineFrame(body, input[0].ts);
    } else {
      hide *;
      ReportsFit(max, [], input);
      var frames := Run(FramerFor(max), [], input).1;
      assert |frames| == 1 ==> frames[0] in frames;
    }
  }

  lemma RecordLineIsLine(body: seq<byte>)
    requires LF !in body
    ensures IsLine(RecordLine(body)) && |RecordLine(body)| == |body| + 12
  {
    hide UnicoreCrc32.Crc, UnicoreCrc32.Number;
    var digits := HexDigits(UnicoreCrc32.Number(UnicoreCrc32.Crc(body)), 8);
    var line := RecordLine(body);
    forall i | 0 <= i < |line| - 1 ensures line[i] != LF {
      if 1 <= i < |body| + 1 {
        assert line[i] == body[i - 1];
      } else if |body| + 2 <= i < |body| + 10 {
        assert line[i] == digits[i - |body| - 2] && digits[i - |body| - 2] in digits;
      }
    }
  }

  /** The bytes of a sealed line: hash (23), text, star (2A), eight digits, carriage return and line feed. */
  lemma RecordLineBytes(body: seq<byte>)
    ensures RecordLine(body)
         == [0x23] + (body + [0x2A] + HexDigits(UnicoreCrc32.Number(UnicoreCrc32.Crc(body)), 8)) + [0x0D, 0x0A]
  {
    hide UnicoreCrc32.Crc, UnicoreCrc32.Number, HexDigits;
  }

  /** A name ends at the first comma (2C), semicolon (3B), star (2A) or space (20), or with the text. */
  lemma {:induction false} NameEndsAtSeparator(name: seq<byte>, rest: seq<byte>)
    requires forall c :: c in name ==> c !in [0x2C, 0x3B, 0x2A, 0x20]
    requires rest != [] ==> rest[0] in [0x2C, 0x3B, 0x2A, 0x20]
    ensures NameOf(name + rest) == name
  {
    if name != [] {
      assert name[0] in name;
      assert (name + rest)[0] == name[0] && (name + rest)[1..] == name[1..] + rest;
      NameEndsAtSeparator(name[1..], rest);
    } else {
      assert name + rest == rest;
    }
  }
}
