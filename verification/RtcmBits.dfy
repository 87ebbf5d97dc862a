/** The bit readers of `gnss_protocols/src/rtcm_parser.cpp`: fields of a payload, most significant bit first. */
module RtcmBits {
  import opened Bits

  const UINT64_END := 0x1_0000_0000_0000_0000
  const INT64_END := 0x8000_0000_0000_0000

  /** The payload as one string of bits. */
  function PayloadBits(payload: seq<byte>): (bits: seq<bool>)
    ensures |bits| == 8 * |payload|
  {
    Expand(BitsMsb, payload)
  }

  lemma Scaled(a: int, b: int, d: nat)
    requires a <= b
    ensures a * d <= b * d
  {
  }

  lemma DivUnique(x: nat, d: nat, q: nat)
    requires d > 0 && q * d <= x < q * d + d
    ensures x / d == q
  {
    var k := x / d;
    assert k * d <= x < k * d + d;
    if k < q {
      Scaled(k + 1, q, d);
    } else if q < k {
      Scaled(q + 1, k, d);
    }
  }

  lemma HalfThenDivide(n: nat, p: nat)
    requires p > 0
    ensures n / 2 / p == n / (2 * p)
  {
    var q, half := n / 2 / p, n / 2;
    assert q * p <= half < q * p + p;
    assert q * (2 * p) == 2 * (q * p);
    DivUnique(n, 2 * p, q);
  }

  /** A bit of a number is found by shifting it to the right end. */
  lemma {:induction false} BitByShift(n: nat, width: nat, i: nat)
    requires i < width
    ensures BitsOf(n, width)[i] <==> n / Pow2(width - 1 - i) % 2 == 1
  {
    if i < width - 1 {
      BitByShift(n / 2, width - 1, i);
      HalfThenDivide(n, Pow2(width - 2 - i));
    }
  }

  lemma {:induction false} ExpandAt(data: seq<byte>, i: nat, j: nat)
    requires i < |data| && j < 8
    ensures PayloadBits(data)[8 * i + j] == BitsMsb(data[i])[j]
  {
    var n := |data| - 1;
    var front, last := PayloadBits(data[..n]), BitsMsb(data[n]);
    assert PayloadBits(data) == front + last;
    if i < n {
      ExpandAt(data[..n], i, j);
    }
  }

  /** `(payload[k / 8] >> (7 - k % 8)) & 1` is bit `k` of the payload. */
  lemma ShiftedBit(payload: seq<byte>, k: nat)
    requires k < 8 * |payload|
    ensures k / 8 < |payload|
    ensures PayloadBits(payload)[k] <==> payload[k / 8] / Pow2(7 - k % 8) % 2 == 1
  {
    ExpandAt(payload, k / 8, k % 8);
    BitByShift(payload[k / 8], 8, k % 8);
  }

  // ----- Unsigned fields -------------------------------------------------------------------

  /** The number in `count` bits from `offset` on, if there are that many and they fit 64 bits. */
  function ReadUnsigned(payload: seq<byte>, offset: nat, count: nat): (value: Option<nat>)
    ensures value.Some? <==> 1 <= count <= 64 && offset + count <= 8 * |payload|
    ensures value.Some? ==> value.value < Pow2(count)
  {
    if count == 0 || count > 64 || offset + count > 8 * |payload| then None
    else Some(ValueOf(PayloadBits(payload)[offset..offset + count]))
  }

  method ReadRtcmUnsignedBits(payload: seq<byte>, offset: nat, count: nat) returns (result: Option<nat>)
    ensures result == ReadUnsigned(payload, offset, count)
  {
    hide ValueOf, PayloadBits;
    if count == 0 || count > 64 {
      return None;
    }
    if offset + count > 8 * |payload| {
      return None;
    }
    ghost var bits := PayloadBits(payload);
    var value := 0;
    assert ValueOf(bits[offset..offset]) == 0 by { EmptyValue(); }
    for i := 0 to count
      invariant value == ValueOf(bits[offset..offset + i])
    {
      var absolute := offset + i;
      ShiftedBit(payload, absolute);
      var bit := payload[absolute / 8] / Pow2(7 - absolute % 8) % 2;
      AppendBit(bits[offset..offset + i], bits[absolute]);
      assert bits[offset..offset + i] + [bits[absolute]] == bits[offset..offset + (i + 1)];
      value := 2 * value + bit;
    }
    return Some(value);
  }

  lemma EmptyValue()
    ensures ValueOf([]) == 0
  {
  }

  lemma AppendBit(bits: seq<bool>, bit: bool)
    ensures ValueOf(bits + [bit]) == 2 * ValueOf(bits) + (if bit then 1 else 0)
  {
    assert (bits + [bit])[..|bits|] == bits;
  }

  lemma JoinedBits(bits: seq<bool>, offset: nat, a: nat, b: nat)
    requires offset + a + b <= |bits|
    ensures ValueOf(bits[offset..offset + (a + b)])
         == ValueOf(bits[offset..offset + a]) * Pow2(b) + ValueOf(bits[offset + a..offset + a + b])
  {
    hide *;
    var front, back := bits[offset..offset + a], bits[offset + a..offset + a + b];
    assert bits[offset..offset + (a + b)] == front + back;
    ValueOfConcat(front, back);
  }

  /** Reading a + b bits is reading a bits, then b bits, and writing them side by side. */
  lemma JoinedRead(payload: seq<byte>, offset: nat, a: nat, b: nat)
    requires a > 0 && b > 0 && a + b <= 64
    ensures var whole := ReadUnsigned(payload, offset, a + b);
            var front, back := ReadUnsigned(payload, offset, a), ReadUnsigned(payload, offset + a, b);
            && (whole.Some? <==> back.Some?)
            && (whole.Some? ==> front.Some? && whole.value == front.value * Pow2(b) + back.value)
  {
    hide PayloadBits, ValueOf, Pow2;
    if offset + a + b <= 8 * |payload| {
      JoinedBits(PayloadBits(payload), offset, a, b);
    }
  }

  // ----- Signed fields ---------------------------------------------------------------------

  /** The two's-complement number a non-empty bit string denotes: its first bit counts negatively. */
  function TwosComplement(bits: seq<bool>): int
    requires bits != []
  {
    ValueOf(bits[1..]) - (if bits[0] then Pow2(|bits| - 1) else 0)
  }

  function ReadSigned(payload: seq<byte>, offset: nat, count: nat): (value: Option<int>)
    ensures value.Some? <==> 1 <= count < 64 && offset + count <= 8 * |payload|
  {
    if count == 0 || count >= 64 || offset + count > 8 * |payload| then None
    else Some(TwosComplement(PayloadBits(payload)[offset..offset + count]))
  }

  lemma OneBitValue(bit: bool)
    ensures ValueOf([bit]) == if bit then 1 else 0
  {
    assert [bit][..0] == [];
  }

  lemma SplitFirst(bits: seq<bool>)
    requires bits != []
    ensures ValueOf(bits) == (if bits[0] then Pow2(|bits| - 1) else 0) + ValueOf(bits[1..])
  {
    hide *;
    var tail := bits[1..];
    OneBitValue(bits[0]);
    ValueOfConcat([bits[0]], tail);
    WithUnit(ValueOf([bits[0]]), Pow2(|tail|), bits[0]);
    assert [bits[0]] + tail == bits;
  }

  lemma WithUnit(unit: nat, p: nat, bit: bool)
    requires unit == if bit then 1 else 0
    ensures unit * p == if bit then p else 0
  {
  }

  /** A two's-complement number is in range, and is the unsigned one with 2^n taken off when the sign bit is set. */
  lemma TwosComplementFacts(bits: seq<bool>)
    requires bits != []
    ensures -(Pow2(|bits| - 1) as int) <= TwosComplement(bits) < Pow2(|bits| - 1)
    ensures TwosComplement(bits) == ValueOf(bits) - (if bits[0] then Pow2(|bits|) else 0)
    ensures bits[0] <==> ValueOf(bits) >= Pow2(|bits| - 1)
  {
    SplitFirst(bits);
  }

  lemma {:induction false} Pow2Grows(a: nat, b: nat)
    requires a <= b
    ensures Pow2(a) <= Pow2(b)
  {
    if a < b {
      Pow2Grows(a, b - 1);
    }
  }

  lemma SixtyFour()
    ensures Pow2(64) == UINT64_END && Pow2(63) == INT64_END
  {
    Pow2Values();
    Pow2Add(32, 32);
  }

  /** Filling in ones above a set sign bit, and reading the 64-bit word as a signed one. */
  method ReadRtcmSignedBits(payload: seq<byte>, offset: nat, count: nat) returns (result: Option<int>)
    ensures result == ReadSigned(payload, offset, count)
  {
    hide ValueOf, PayloadBits, Pow2;
    if count == 0 || count >= 64 {
      return None;
    }
    var raw := ReadRtcmUnsignedBits(payload, offset, count);
    if raw == None {
      return None;
    }
    ghost var bits := PayloadBits(payload)[offset..offset + count];
    TwosComplementFacts(bits);
    SixtyFour();
    Pow2Grows(count, 63);
    Pow2Double(count);
    var extended, signMask := raw.value, Pow2(count - 1);
    SignTest(extended, signMask);
    if extended / signMask % 2 != 0 {
      extended := extended + (UINT64_END - Pow2(count));
    }
    return Some(if extended >= INT64_END then extended - UINT64_END else extended);
  }

  lemma Pow2Double(n: nat)
    requires n > 0
    ensures Pow2(n) == 2 * Pow2(n - 1)
  {
  }

  lemma SignTest(value: nat, mask: nat)
    requires 0 < mask && value < 2 * mask
    ensures value / mask % 2 == if value >= mask then 1 else 0
  {
    DivUnique(value, mask, if value >= mask then 1 else 0);
  }

  // ----- Counting bits ---------------------------------------------------------------------

  function Ones(bits: seq<bool>): (n: nat)
    ensures n <= |bits|
  {
    if bits == [] then 0 else Ones(bits[..|bits| - 1]) + (if bits[|bits| - 1] then 1 else 0)
  }

  function PopCount(n: nat): nat {
    if n == 0 then 0 else n % 2 + PopCount(n / 2)
  }

  method CountSetBits(value: nat) returns (count: nat)
    ensures count == PopCount(value)
  {
    count := 0;
    var rest := value;
    while rest != 0
      invariant count + PopCount(rest) == PopCount(value)
    {
      count := count + rest % 2;
      rest := rest / 2;
    }
  }

  /** Counting the ones of a number is counting the set bits it was read from. */
  lemma {:induction false} PopCountOfValue(bits: seq<bool>)
    ensures PopCount(ValueOf(bits)) == Ones(bits)
  {
    if bits != [] {
      PopCountOfValue(bits[..|bits| - 1]);
    }
  }

  function OnesInRange(payload: seq<byte>, offset: nat, count: nat): (n: Option<nat>)
    ensures n.Some? <==> offset + count <= 8 * |payload|
    ensures n.Some? ==> n.value <= count
  {
    if offset + count > 8 * |payload| then None else Some(Ones(PayloadBits(payload)[offset..offset + count]))
  }

  method CountSetBitsInRange(payload: seq<byte>, offset: nat, count: nat) returns (result: Option<nat>)
    ensures result == OnesInRange(payload, offset, count)
  {
    hide PayloadBits;
    if offset + count > 8 * |payload| {
      return None;
    }
    ghost var bits := PayloadBits(payload);
    var n := 0;
    for index := 0 to count
      invariant n == Ones(bits[offset..offset + index])
    {
      var bit := ReadRtcmUnsignedBits(payload, offset + index, 1);
      OneBit(bits, offset + index);
      assert bits[offset..offset + (index + 1)][..index] == bits[offset..offset + index];
      // The bound above makes the read succeed, so the code's test for a failed one is never true.
      n := n + (if bit.value != 0 then 1 else 0);
    }
    return Some(n);
  }

  lemma OneBit(bits: seq<bool>, k: nat)
    requires k < |bits|
    ensures ValueOf(bits[k..k + 1]) == if bits[k] then 1 else 0
  {
    assert bits[k..k + 1] == [] + [bits[k]];
    AppendBit([], bits[k]);
  }

  // ----- A cursor --------------------------------------------------------------------------

  /** The `bit_offset` of a parser and its two reading lambdas: a failed read does not move it. */
  class BitReader {
    const payload: seq<byte>
    var offset: nat

    constructor (payload: seq<byte>)
      ensures this.payload == payload && offset == 0
    {
      this.payload, offset := payload, 0;
    }

    method Unsigned(count: nat) returns (value: Option<nat>)
      modifies this
      ensures value == ReadUnsigned(payload, old(offset), count)
      ensures offset == old(offset) + if value.Some? then count else 0
    {
      value := ReadRtcmUnsignedBits(payload, offset, count);
      if value.Some? {
        offset := offset + count;
      }
    }

    method Signed(count: nat) returns (value: Option<int>)
      modifies this
      ensures value == ReadSigned(payload, old(offset), count)
      ensures offset == old(offset) + if value.Some? then count else 0
    {
      value := ReadRtcmSignedBits(payload, offset, count);
      if value.Some? {
        offset := offset + count;
      }
    }
  }
}
