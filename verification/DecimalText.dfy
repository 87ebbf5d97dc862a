/** Decimal numbers as text: what the sentence builder prints and what the field parsers read. */
module DecimalText {
  import opened Bits

  const ZERO: byte := 0x30
  const POINT: byte := 0x2E
  const MINUS: byte := 0x2D
  const PLUS: byte := 0x2B

  predicate IsDigit(c: byte) {
    0x30 <= c <= 0x39
  }

  predicate AllDigits(s: seq<byte>) {
    forall i :: 0 <= i < |s| ==> IsDigit(s[i])
  }

  function Pow10(n: nat): (p: nat)
    ensures p > 0
  {
    if n == 0 then 1 else 10 * Pow10(n - 1)
  }

  /** The number a string of digits spells. */
  function Number(digits: seq<byte>): (n: nat)
    requires AllDigits(digits)
  {
    if digits == [] then 0
    else 10 * Number(digits[..|digits| - 1]) + (digits[|digits| - 1] - ZERO)
  }

  /** The last `width` digits of a number, zeros included. */
  function Padded(n: nat, width: nat): (digits: seq<byte>)
    ensures |digits| == width && AllDigits(digits)
  {
    if width == 0 then [] else Padded(n / 10, width - 1) + [ZERO + n % 10]
  }

  /** A number without leading zeros. */
  function Plain(n: nat): (digits: seq<byte>)
    ensures |digits| >= 1 && AllDigits(digits)
  {
    if n < 10 then [ZERO + n] else Plain(n / 10) + [ZERO + n % 10]
  }

  /** `std::setw` with `std::setfill('0')`: zeros in front of a short number, nothing cut off a long one. */
  function AtLeast(n: nat, width: nat): (digits: seq<byte>)
    ensures |digits| >= 1 && AllDigits(digits)
    ensures |digits| >= width
  {
    var s := Plain(n);
    if |s| >= width then s else seq(width - |s|, i => ZERO) + s
  }

  lemma AppendDigit(digits: seq<byte>, c: byte)
    requires AllDigits(digits) && IsDigit(c)
    ensures AllDigits(digits + [c]) && Number(digits + [c]) == 10 * Number(digits) + (c - ZERO)
  {
    assert (digits + [c])[..|digits|] == digits;
  }

  lemma {:induction false} NumberOfPadded(n: nat, width: nat)
    requires n < Pow10(width)
    ensures Number(Padded(n, width)) == n
  {
    if width > 0 {
      NumberOfPadded(n / 10, width - 1);
      AppendDigit(Padded(n / 10, width - 1), ZERO + n % 10);
    }
  }

  lemma {:induction false} NumberOfPlain(n: nat)
    ensures Number(Plain(n)) == n
  {
    if n < 10 {
      AppendDigit([], ZERO + n);
      assert [] + [ZERO + n] == Plain(n);
    } else {
      NumberOfPlain(n / 10);
      AppendDigit(Plain(n / 10), ZERO + n % 10);
    }
  }

  lemma {:induction false} LeadingZeros(count: nat, digits: seq<byte>)
    requires AllDigits(digits)
    ensures var zeros := seq(count, i => ZERO);
            AllDigits(zeros + digits) && Number(zeros + digits) == Number(digits)
    decreases |digits|
  {
    var zeros := seq(count, i => ZERO);
    if digits == [] {
      assert zeros + digits == zeros;
      OnlyZeros(count);
    } else {
      var front, last := digits[..|digits| - 1], digits[|digits| - 1];
      LeadingZeros(count, front);
      AppendDigit(zeros + front, last);
      assert zeros + digits == (zeros + front) + [last];
    }
  }

  lemma {:induction false} OnlyZeros(count: nat)
    ensures var zeros := seq(count, i => ZERO); AllDigits(zeros) && Number(zeros) == 0
  {
    if count > 0 {
      OnlyZeros(count - 1);
      var fewer, zeros := seq(count - 1, i => ZERO), seq(count, i => ZERO);
      AppendDigit(fewer, ZERO);
      assert zeros == fewer + [ZERO];
    }
  }

  lemma NumberOfAtLeast(n: nat, width: nat)
    ensures Number(AtLeast(n, width)) == n
  {
    NumberOfPlain(n);
    if |Plain(n)| < width {
      LeadingZeros(width - |Plain(n)|, Plain(n));
    }
  }

  /** A number below 10^width takes at most `width` digits, and so exactly that many when filled up. */
  lemma {:induction false} PlainIsShort(n: nat, width: nat)
    requires width >= 1 && n < Pow10(width)
    ensures |Plain(n)| <= width
  {
    if n >= 10 {
      PlainIsShort(n / 10, width - 1);
    }
  }

  /** Digits side by side: the first ones count 10^k more. */
  lemma {:induction false} NumberConcat(a: seq<byte>, b: seq<byte>)
    requires AllDigits(a) && AllDigits(b)
    ensures AllDigits(a + b) && Number(a + b) == Number(a) * Pow10(|b|) + Number(b)
    decreases |b|
  {
    if b == [] {
      assert a + b == a;
    } else {
      var n := |b| - 1;
      assert b == b[..n] + [b[n]] && a + b == (a + b[..n]) + [b[n]];
      NumberConcat(a, b[..n]);
      AppendDigit(b[..n], b[n]);
      AppendDigit(a + b[..n], b[n]);
      TenTimes(Number(a), Pow10(n));
    }
  }

  lemma TenTimes(x: nat, p: nat)
    ensures x * (10 * p) == 10 * (x * p)
  {
  }

  // ----- Fixed-point numbers ---------------------------------------------------------------

  /** The value of a decimal with `scale` digits behind the point. */
  function Scaled(mantissa: nat, scale: nat): real {
    mantissa as real / Pow10(scale) as real
  }

  lemma ScaledTrim(mantissa: nat, scale: nat)
    ensures Scaled(10 * mantissa, scale + 1) == Scaled(mantissa, scale)
  {
    var m, p := mantissa as real, Pow10(scale) as real;
    assert Pow10(scale + 1) == 10 * Pow10(scale);
    CancelTen(m, p);
  }

  lemma CancelTen(m: real, p: real)
    requires p > 0.0
    ensures (10.0 * m) / (10.0 * p) == m / p
  {
    var q := m / p;
    assert q * p == m;
    assert (10.0 * p) * q == 10.0 * m;
  }

  function Quotient(n: nat, p: nat): (q: nat)
    requires p > 0
  {
    n / p
  }

  function Remainder(n: nat, p: nat): (r: nat)
    requires p > 0
    ensures r < p && n == Quotient(n, p) * p + r
  {
    n % p
  }

  /** A number in steps of 10^-scale, as `std::fixed` prints it. */
  function Fixed(mantissa: nat, scale: nat): (text: seq<byte>) {
    if scale == 0 then Plain(mantissa)
    else
      var p := Pow10(scale);
      Plain(Quotient(mantissa, p)) + [POINT] + Padded(Remainder(mantissa, p), scale)
  }

  /** All the digits of a printed number, point left out, spell its mantissa. */
  lemma NumberOfFixed(mantissa: nat, scale: nat)
    ensures var whole, fraction := Plain(Quotient(mantissa, Pow10(scale))), Padded(Remainder(mantissa, Pow10(scale)), scale);
            AllDigits(whole + fraction) && Number(whole + fraction) == mantissa
  {
    var p := Pow10(scale);
    var whole, fraction := Plain(Quotient(mantissa, p)), Padded(Remainder(mantissa, p), scale);
    hide *;
    NumberOfPlain(Quotient(mantissa, p));
    NumberOfPadded(Remainder(mantissa, p), scale);
    NumberConcat(whole, fraction);
  }
}
