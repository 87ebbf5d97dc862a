/**
 The algebra of the bitwise CRC register that `ComputeRtcmCrc24Q` (most significant bit first) and
 `ComputeUnicoreBinaryCrc32` (least significant bit first) both run. The register is listed in the
 order in which its bits leave it, so one machine describes both.
 */
module CrcAlgebra {
  import opened Bits

  /** The low-order coefficients of a generator; the constant term of a generator is always 1. */
  ghost predicate IsGenerator(poly: seq<bool>) {
    poly != [] && poly[|poly| - 1]
  }

  /** One shift of the register: the bit that leaves decides whether the generator is added. */
  function Shift(poly: seq<bool>, r: seq<bool>): (s: seq<bool>)
    requires poly != [] && |r| == |poly|
    ensures |s| == |r|
  {
    var moved := r[1..] + [false];
    if r[0] then Xor(moved, poly) else moved
  }

  /** Adding an input bit to the end of the register that leaves first, then shifting. */
  function Step(poly: seq<bool>, r: seq<bool>, bit: bool): (s: seq<bool>)
    requires poly != [] && |r| == |poly|
    ensures |s| == |r|
  {
    Shift(poly, r[0 := r[0] != bit])
  }

  function Feed(poly: seq<bool>, r: seq<bool>, bits: seq<bool>): (s: seq<bool>)
    requires poly != [] && |r| == |poly|
    ensures |s| == |r|
    decreases |bits|
  {
    if bits == [] then r else Feed(poly, Step(poly, r, bits[0]), bits[1..])
  }

  lemma {:induction false} FeedConcat(poly: seq<bool>, r: seq<bool>, a: seq<bool>, b: seq<bool>)
    requires poly != [] && |r| == |poly|
    ensures Feed(poly, r, a + b) == Feed(poly, Feed(poly, r, a), b)
    decreases |a|
  {
    if a == [] {
      assert a + b == b;
    } else {
      assert (a + b)[1..] == a[1..] + b;
      FeedConcat(poly, Step(poly, r, a[0]), a[1..], b);
    }
  }

  lemma StepLinear(poly: seq<bool>, r: seq<bool>, s: seq<bool>, a: bool, b: bool)
    requires poly != [] && |r| == |s| == |poly|
    ensures Step(poly, Xor(r, s), a != b) == Xor(Step(poly, r, a), Step(poly, s, b))
  {
    var left, right := Step(poly, Xor(r, s), a != b), Xor(Step(poly, r, a), Step(poly, s, b));
    forall i | 0 <= i < |poly| ensures left[i] == right[i] {}
  }

  /** The CRC is linear over exclusive or. */
  lemma {:induction false} FeedLinear(poly: seq<bool>, r: seq<bool>, s: seq<bool>, a: seq<bool>, b: seq<bool>)
    requires poly != [] && |r| == |s| == |poly| && |a| == |b|
    ensures Feed(poly, Xor(r, s), Xor(a, b)) == Xor(Feed(poly, r, a), Feed(poly, s, b))
    decreases |a|
  {
    if a != [] {
      StepLinear(poly, r, s, a[0], b[0]);
      assert Xor(a, b)[1..] == Xor(a[1..], b[1..]);
      FeedLinear(poly, Step(poly, r, a[0]), Step(poly, s, b[0]), a[1..], b[1..]);
    }
  }

  /** Up to a register's width of input empties the register only when it spells the register out. */
  lemma {:induction false} EmptiedBy(poly: seq<bool>, r: seq<bool>, bits: seq<bool>)
    requires IsGenerator(poly) && |r| == |poly| && |bits| <= |poly|
    requires AllZero(Feed(poly, r, bits))
    ensures r[..|bits|] == bits && AllZero(r[|bits|..])
    decreases |bits|
  {
    if bits != [] {
      var n, s := |poly|, Step(poly, r, bits[0]);
      EmptiedBy(poly, s, bits[1..]);
      assert !s[n - 1] by { assert s[|bits| - 1..][n - |bits|] == s[n - 1]; }
      assert r[0] == bits[0] && forall i :: 1 <= i < n ==> r[i] == s[i - 1];
      assert forall i :: 1 <= i < |bits| ==> r[i] == s[..|bits| - 1][i - 1];
      assert forall i :: |bits| <= i < n ==> r[i] == s[|bits| - 1..][i - |bits|];
    }
  }

  lemma {:induction false} SpelledOut(poly: seq<bool>, r: seq<bool>, bits: seq<bool>)
    requires poly != [] && |bits| <= |poly| == |r|
    requires r[..|bits|] == bits && AllZero(r[|bits|..])
    ensures AllZero(Feed(poly, r, bits))
    decreases |bits|
  {
    if bits != [] {
      var k, s := |bits|, Step(poly, r, bits[0]);
      assert r[0] == r[..k][0] == bits[0];
      assert s == r[1..] + [false];
      assert forall i :: k - 1 <= i < |r| - 1 ==> s[i] == r[k..][i + 1 - k];
      assert forall i :: 0 <= i < k - 1 ==> s[i] == r[..k][i + 1];
      SpelledOut(poly, s, bits[1..]);
    } else {
      assert r[0..] == r;
    }
  }

  /** A trailer as wide as the register brings it to zero exactly when it equals the register. */
  lemma ZeroResidue(poly: seq<bool>, r: seq<bool>, trailer: seq<bool>)
    requires IsGenerator(poly) && |r| == |trailer| == |poly|
    ensures AllZero(Feed(poly, r, trailer)) <==> r == trailer
  {
    assert r[..|trailer|] == r && r[|trailer|..] == [];
    if AllZero(Feed(poly, r, trailer)) {
      EmptiedBy(poly, r, trailer);
    }
    if r == trailer {
      SpelledOut(poly, r, trailer);
    }
  }

  lemma StepToZero(poly: seq<bool>, r: seq<bool>)
    requires IsGenerator(poly) && |r| == |poly|
    ensures AllZero(Step(poly, r, false)) <==> AllZero(r)
  {
    var n, s := |poly|, Step(poly, r, false);
    if AllZero(s) {
      assert !s[n - 1];
      assert forall i :: 1 <= i < n ==> r[i] == s[i - 1];
    }
  }

  /** Zero input neither empties a register nor fills an empty one. */
  lemma {:induction false} FeedZeros(poly: seq<bool>, r: seq<bool>, zeros: seq<bool>)
    requires IsGenerator(poly) && |r| == |poly| && AllZero(zeros)
    ensures AllZero(Feed(poly, r, zeros)) <==> AllZero(r)
    decreases |zeros|
  {
    if zeros != [] {
      StepToZero(poly, r);
      FeedZeros(poly, Step(poly, r, false), zeros[1..]);
    }
  }

  /**
   Burst detection: a difference pattern confined to a window no wider than the register leaves an
   empty register empty only if it is no difference at all.
   */
  lemma BurstDetected(poly: seq<bool>, zero: seq<bool>, before: seq<bool>, burst: seq<bool>, after: seq<bool>)
    requires IsGenerator(poly) && |zero| == |poly| && |burst| <= |poly|
    requires AllZero(zero) && AllZero(before) && AllZero(after)
    requires AllZero(Feed(poly, zero, before + (burst + after)))
    ensures AllZero(burst)
  {
    hide Feed;
    FeedConcat(poly, zero, before, burst + after);
    FeedZeros(poly, zero, before);
    var r := Feed(poly, zero, before);
    FeedConcat(poly, r, burst, after);
    FeedZeros(poly, Feed(poly, r, burst), after);
    EmptiedBy(poly, r, burst);
    assert forall i :: 0 <= i < |burst| ==> burst[i] == r[i];
  }

  lemma OddStep(poly: seq<bool>, r: seq<bool>, bit: bool)
    requires poly != [] && |r| == |poly| && Odd(poly)
    ensures Odd(Step(poly, r, bit)) == (Odd(r) != bit)
  {
    var tail := r[1..];
    var moved := tail + [false];
    OddConcat(tail, [false]);
    OddOne(false);
    assert r[0 := r[0] != bit][1..] == tail;
    OddXor(moved, poly);
  }

  /** A generator with an even number of terms preserves the parity of what went in. */
  lemma {:induction false} OddFeed(poly: seq<bool>, r: seq<bool>, bits: seq<bool>)
    requires poly != [] && |r| == |poly| && Odd(poly)
    ensures Odd(Feed(poly, r, bits)) == (Odd(r) != Odd(bits))
    decreases |bits|
  {
    if bits != [] {
      OddStep(poly, r, bits[0]);
      OddFeed(poly, Step(poly, r, bits[0]), bits[1..]);
    }
  }

  lemma {:induction false} ZerosNotOdd(zero: seq<bool>)
    requires AllZero(zero)
    ensures !Odd(zero)
  {
    if zero != [] {
      ZerosNotOdd(zero[1..]);
    }
  }

  /** The bits in which two strings of one length differ. */
  ghost function Differences(a: seq<bool>, b: seq<bool>): set<nat>
    requires |a| == |b|
  {
    set i: nat | i < |a| && a[i] != b[i]
  }

  lemma DifferencesGrow(a: seq<bool>, b: seq<bool>, n: nat)
    requires |a| == |b| == n + 1
    ensures Differences(a, b) == Differences(a[..n], b[..n]) + (if a[n] != b[n] then {n} else {})
    ensures n !in Differences(a[..n], b[..n])
  {
  }

  lemma {:induction false} OddCountsDifferences(a: seq<bool>, b: seq<bool>)
    requires |a| == |b|
    ensures Odd(Xor(a, b)) <==> |Differences(a, b)| % 2 == 1
  {
    if a == [] {
      assert Differences(a, b) == {};
    } else {
      var n := |a| - 1;
      OddCountsDifferences(a[..n], b[..n]);
      hide *;
      assert Xor(a, b) == Xor(a[..n], b[..n]) + [a[n] != b[n]];
      OddConcat(Xor(a[..n], b[..n]), [a[n] != b[n]]);
      OddOne(a[n] != b[n]);
      DifferencesGrow(a, b, n);
    }
  }

  /** Two strings of one length that both leave an empty register empty: their difference does too. */
  lemma DifferenceResidue(poly: seq<bool>, zero: seq<bool>, a: seq<bool>, b: seq<bool>)
    requires poly != [] && |a| == |b| && |zero| == |poly| && AllZero(zero)
    requires AllZero(Feed(poly, zero, a)) && AllZero(Feed(poly, zero, b))
    ensures AllZero(Feed(poly, zero, Xor(a, b)))
  {
    hide *;
    XorOfZeros(zero, zero);
    AllZeroUnique(Xor(zero, zero), zero);
    FeedLinear(poly, zero, zero, a, b);
    XorOfZeros(Feed(poly, zero, a), Feed(poly, zero, b));
  }

  /** ... so they cannot differ only inside a window as wide as the register ... */
  lemma NoBurstBetween(poly: seq<bool>, zero: seq<bool>, a: seq<bool>, b: seq<bool>, at: nat, width: nat)
    requires IsGenerator(poly) && |a| == |b| && width <= |poly| == |zero| && AllZero(zero)
    requires AllZero(Feed(poly, zero, a)) && AllZero(Feed(poly, zero, b))
    requires forall i :: i in Differences(a, b) ==> at <= i < at + width
    ensures a == b
  {
    DifferenceResidue(poly, zero, a, b);
    hide *;
    var d, n := Xor(a, b), |a|;
    var from, to := if at <= n then at else n, if at + width <= n then at + width else n;
    DifferencesInWindow(a, b, from, to);
    assert d == d[..from] + (d[from..to] + d[to..]);
    BurstDetected(poly, zero, d[..from], d[from..to], d[to..]);
    NoDifference(a, b, from, to);
  }

  lemma DifferencesInWindow(a: seq<bool>, b: seq<bool>, from: nat, to: nat)
    requires |a| == |b| && from <= to <= |a|
    requires forall i :: i in Differences(a, b) ==> from <= i < to
    ensures AllZero(Xor(a, b)[..from]) && AllZero(Xor(a, b)[to..])
  {
    forall i | 0 <= i < |a| && !(from <= i < to) ensures !Xor(a, b)[i] {
      assert i !in Differences(a, b);
    }
  }

  lemma NoDifference(a: seq<bool>, b: seq<bool>, from: nat, to: nat)
    requires |a| == |b| && from <= to <= |a|
    requires AllZero(Xor(a, b)[..from]) && AllZero(Xor(a, b)[from..to]) && AllZero(Xor(a, b)[to..])
    ensures a == b
  {
    var d := Xor(a, b);
    forall i | 0 <= i < |a| ensures !d[i] {
      if i < from {
        assert !d[..from][i];
      } else if i < to {
        assert !d[from..to][i - from];
      } else {
        assert !d[to..][i - to];
      }
    }
  }

  /** ... and, when the generator has an even number of terms, they differ in evenly many bits. */
  lemma EvenDistance(poly: seq<bool>, zero: seq<bool>, a: seq<bool>, b: seq<bool>)
    requires poly != [] && Odd(poly) && |a| == |b| && |zero| == |poly| && AllZero(zero)
    requires AllZero(Feed(poly, zero, a)) && AllZero(Feed(poly, zero, b))
    ensures |Differences(a, b)| % 2 == 0
  {
    hide Feed, Odd;
    DifferenceResidue(poly, zero, a, b);
    OddFeed(poly, zero, Xor(a, b));
    ZerosNotOdd(zero);
    ZerosNotOdd(Feed(poly, zero, Xor(a, b)));
    OddCountsDifferences(a, b);
  }

  /** Exclusive or of pending input bits into the bits of the register that leave first. */
  function XorFront(r: seq<bool>, pending: seq<bool>): (s: seq<bool>)
    requires |pending| <= |r|
    ensures |s| == |r|
  {
    Xor(r[..|pending|], pending) + r[|pending|..]
  }

  /** Adding a whole byte before shifting is the same as adding each bit just before its shift. */
  lemma ShiftPending(poly: seq<bool>, r: seq<bool>, pending: seq<bool>)
    requires 0 < |pending| <= |poly| && |r| == |poly|
    ensures Shift(poly, XorFront(r, pending)) == XorFront(Step(poly, r, pending[0]), pending[1..])
  {
    var left, right := Shift(poly, XorFront(r, pending)), XorFront(Step(poly, r, pending[0]), pending[1..]);
    assert XorFront(r, pending)[0] == (r[0] != pending[0]);
    assert forall i :: 0 <= i < |poly| ==> left[i] == right[i];
  }

  lemma ShiftNext(poly: seq<bool>, r: seq<bool>, bits: seq<bool>, k: nat)
    requires k < |bits| && |bits| <= |poly| && |r| == |poly|
    ensures Shift(poly, XorFront(Feed(poly, r, bits[..k]), bits[k..]))
         == XorFront(Feed(poly, r, bits[..k + 1]), bits[k + 1..])
  {
    ShiftPending(poly, Feed(poly, r, bits[..k]), bits[k..]);
    FeedConcat(poly, r, bits[..k], [bits[k]]);
    assert bits[..k + 1] == bits[..k] + [bits[k]];
    assert [bits[k]][1..] == [];
    assert bits[k..][1..] == bits[k + 1..];
  }

  /** Feeding one more byte continues from the register the bytes before it left. */
  lemma FeedByte(poly: seq<bool>, zero: seq<bool>, bitsOf: byte -> seq<bool>, data: seq<byte>, i: nat)
    requires poly != [] && |zero| == |poly| && i < |data| && forall b :: |bitsOf(b)| == 8
    ensures Feed(poly, zero, Expand(bitsOf, data[..i + 1]))
         == Feed(poly, Feed(poly, zero, Expand(bitsOf, data[..i])), bitsOf(data[i]))
  {
    assert data[..i + 1][..i] == data[..i];
    FeedConcat(poly, zero, Expand(bitsOf, data[..i]), bitsOf(data[i]));
  }

  /** The register before the first and after the last of the shifts that absorb `bits`. */
  lemma ShiftBounds(poly: seq<bool>, r: seq<bool>, bits: seq<bool>, n: nat)
    requires |bits| == n <= |poly| == |r| && poly != []
    ensures XorFront(Feed(poly, r, bits[..0]), bits[0..]) == XorFront(r, bits)
    ensures XorFront(Feed(poly, r, bits[..n]), bits[n..]) == Feed(poly, r, bits)
  {
    assert bits[..0] == [] && bits[0..] == bits && bits[..n] == bits && bits[n..] == [];
    assert Feed(poly, r, []) == r;
    var last := Feed(poly, r, bits);
    hide Feed;
    XorFrontNothing(last);
    hide XorFront;
  }

  lemma XorFrontNothing(r: seq<bool>)
    ensures XorFront(r, []) == r
  {
    assert r[..0] == [] && r[0..] == r;
  }
}
