/**
 Numbers as `strtoul` and `strtod` of the C library read them, the way `TryParseUnsigned` and
 `TryParseDouble` of `gnss_protocols/src/nmea_parser.cpp` call them. Doubles are exact reals.
 */
module CNumber {
  import opened Bits
  import opened DecimalText
  import opened NmeaChecksum

  const UINT32_MAX := 0xFFFF_FFFF
  const ULONG_MAX := 0xFFFF_FFFF_FFFF_FFFF

  const LOWER_E: byte := 0x65
  const UPPER_E: byte := 0x45
  const LOWER_P: byte := 0x70
  const UPPER_P: byte := 0x50
  const LOWER_X: byte := 0x78
  const UPPER_X: byte := 0x58

  /** A C string ends at the first zero byte. */
  function CString(text: seq<byte>): seq<byte> {
    match Find(text, 0) case Some(k) => text[..k] case None => text
  }

  predicate IsBlank(c: byte) {
    c == 0x20 || 0x09 <= c <= 0x0D
  }

  function SkipBlanks(text: seq<byte>): seq<byte> {
    if text != [] && IsBlank(text[0]) then SkipBlanks(text[1..]) else text
  }

  /** Whether there is a minus sign, and what follows an optional sign. */
  function TakeSign(text: seq<byte>): (bool, seq<byte>) {
    if text != [] && text[0] == MINUS then (true, text[1..])
    else if text != [] && text[0] == PLUS then (false, text[1..])
    else (false, text)
  }

  /** An unsigned 32-bit number; a minus sign negates modulo 2^64 before the 32 bits are asked for. */
  function TryParseUnsigned(text: seq<byte>): (r: Option<nat>)
    ensures r.Some? ==> r.value <= UINT32_MAX
  {
    if text == [] then None
    else if CString(text) == [] then Some(0)
    else
      var (negative, digits) := TakeSign(SkipBlanks(CString(text)));
      if digits == [] || !AllDigits(digits) || Number(digits) > ULONG_MAX then None
      else
        var n := if negative then (ULONG_MAX + 1 - Number(digits)) % (ULONG_MAX + 1) else Number(digits);
        if n > UINT32_MAX then None else Some(n)
  }

  // ----- Real numbers --------------------------------------------------------------------------

  /** Decimal digits with at most one point. */
  function DecimalValue(text: seq<byte>): Option<real> {
    match Find(text, POINT)
    case None => if text != [] && AllDigits(text) then Some(Scaled(Number(text), 0)) else None
    case Some(k) =>
      var whole, fraction := text[..k], text[k + 1..];
      if AllDigits(whole) && AllDigits(fraction) && |whole| + |fraction| > 0
      then Some(Scaled(Number(whole + fraction), |fraction|)) else None
  }

  predicate AllHex(s: seq<byte>) {
    forall i :: 0 <= i < |s| ==> HexNibble(s[i]).Some?
  }

  function HexNumber(digits: seq<byte>): nat
    requires AllHex(digits)
  {
    if digits == [] then 0
    else 16 * HexNumber(digits[..|digits| - 1]) + HexNibble(digits[|digits| - 1]).value
  }

  function Power(base: nat, exponent: int): real
    requires base > 0
    decreases if exponent < 0 then -exponent else exponent
  {
    if exponent == 0 then 1.0
    else if exponent > 0 then Power(base, exponent - 1) * base as real
    else Power(base, exponent + 1) / base as real
  }

  /** Hexadecimal digits with at most one point. */
  function HexValue(text: seq<byte>): Option<real> {
    match Find(text, POINT)
    case None => if text != [] && AllHex(text) then Some(HexNumber(text) as real) else None
    case Some(k) =>
      var whole, fraction := text[..k], text[k + 1..];
      if AllHex(whole) && AllHex(fraction) && |whole| + |fraction| > 0
      then Some(HexNumber(whole + fraction) as real * Power(16, -|fraction|)) else None
  }

  function ExponentValue(text: seq<byte>): Option<int> {
    var (negative, digits) := TakeSign(text);
    if digits == [] || !AllDigits(digits) then None
    else Some(if negative then -(Number(digits) as int) else Number(digits) as int)
  }

  function FindEither(text: seq<byte>, a: byte, b: byte): (k: Option<nat>)
    ensures k.Some? ==> k.value < |text| && text[k.value] in {a, b}
    ensures k == None ==> a !in text && b !in text
  {
    if text == [] then None
    else if text[0] == a || text[0] == b then Some(0)
    else match FindEither(text[1..], a, b)
      case Some(k) => Some(k + 1)
      case None => None
  }

  function Times(mantissa: Option<real>, base: nat, exponent: Option<int>): Option<real>
    requires base > 0
  {
    if mantissa.Some? && exponent.Some? then Some(mantissa.value * Power(base, exponent.value)) else None
  }

  /** Without a sign: a hexadecimal number with a binary exponent, or a decimal one with a decimal exponent. */
  function UnsignedDouble(text: seq<byte>): Option<real> {
    if |text| >= 2 && text[0] == ZERO && (text[1] == LOWER_X || text[1] == UPPER_X) then
      match FindEither(text, LOWER_P, UPPER_P)
      case None => HexValue(text[2..])
      case Some(k) => if k < 2 then None else Times(HexValue(text[2..k]), 2, ExponentValue(text[k + 1..]))
    else
      match FindEither(text, LOWER_E, UPPER_E)
      case None => DecimalValue(text)
      case Some(k) => Times(DecimalValue(text[..k]), 10, ExponentValue(text[k + 1..]))
  }

  function TryParseDouble(text: seq<byte>): Option<real> {
    if text == [] then None
    else if CString(text) == [] then Some(0.0)
    else
      var (negative, body) := TakeSign(SkipBlanks(CString(text)));
      match UnsignedDouble(body)
      case None => None
      case Some(v) => Some(if negative then -v else v)
  }

  // ----- What is printed is read plainly ---------------------------------------------------------

  /** Digits and points: what the sentence builder prints of a number, but for a minus sign. */
  predicate IsPlain(text: seq<byte>) {
    forall i :: 0 <= i < |text| ==> IsDigit(text[i]) || text[i] == POINT
  }

  lemma PlainIsOneString(text: seq<byte>)
    requires forall i :: 0 <= i < |text| ==> text[i] != 0
    ensures CString(text) == text
  {
    hide Find;
  }

  lemma PlainHasNoExponent(text: seq<byte>)
    requires IsPlain(text)
    ensures UnsignedDouble(text) == DecimalValue(text)
  {
    hide FindEither, DecimalValue, HexValue, ExponentValue;
    assert forall c :: c in text ==> IsDigit(c) || c == POINT;
    assert LOWER_E !in text && UPPER_E !in text;
    assert |text| >= 2 ==> IsDigit(text[1]) || text[1] == POINT;
  }

  lemma PlainDouble(text: seq<byte>)
    requires IsPlain(text) && text != []
    ensures TryParseDouble(text) == DecimalValue(text)
  {
    PlainIsOneString(text);
    PlainHasNoExponent(text);
    assert IsDigit(text[0]) || text[0] == POINT;
    hide CString, UnsignedDouble, DecimalValue;
  }

  lemma CStringOfMore(c: byte, body: seq<byte>)
    requires c != 0
    ensures CString([c] + body) == [c] + CString(body)
  {
    var text := [c] + body;
    assert text[1..] == body;
    match Find(body, 0) {
      case None =>
      case Some(k) => assert text[..k + 1] == [c] + body[..k];
    }
  }

  lemma CStringStarts(text: seq<byte>)
    requires text != [] && text[0] != 0
    ensures CString(text) != [] && CString(text)[0] == text[0]
  {
  }

  /** What the sign and the blanks leave of a text, as far as reading it goes. */
  lemma SignedParts(text: seq<byte>)
    requires CString(text) != [] && !IsBlank(CString(text)[0])
    ensures var (negative, body) := TakeSign(CString(text));
            TryParseDouble(text) == match UnsignedDouble(body)
                                    case None => None
                                    case Some(v) => Some(if negative then -v else v)
  {
    assert text != [];
    hide CString, UnsignedDouble, TakeSign;
  }

  /** A minus sign in front of a digit negates. */
  lemma MinusInFront(text: seq<byte>, body: seq<byte>)
    requires body != [] && IsDigit(body[0]) && text != [] && text[0] == MINUS && text[1..] == body
    ensures TryParseDouble(text) == match TryParseDouble(body) case Some(v) => Some(-v) case None => None
  {
    hide CString, UnsignedDouble, TryParseDouble;
    assert text == [MINUS] + body;
    CStringOfMore(MINUS, body);
    CStringStarts(body);
    CStringStarts(text);
    assert CString(text)[1..] == CString(body);
    SignedParts(text);
    SignedParts(body);
  }

  lemma PlainUnsigned(digits: seq<byte>)
    requires AllDigits(digits) && digits != [] && Number(digits) <= UINT32_MAX
    ensures TryParseUnsigned(digits) == Some(Number(digits))
  {
    PlainIsOneString(digits);
    assert IsDigit(digits[0]);
    hide CString, Number;
  }
}
