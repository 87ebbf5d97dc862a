/**
 What the CRC register decides, in terms of polynomials over the two-element field. A polynomial is
 its list of coefficients, highest power first; a byte string is the polynomial of its bits.
 */
module CrcDivision {
  import opened Bits
  import opened CrcAlgebra

  /** The first row of a long multiplication: the divisor, or nothing, in front of `n` zeros. */
  function Row(take: bool, g: seq<bool>, n: nat): (row: seq<bool>)
    ensures |row| == |g| + n
  {
    if take then g + Zeros(n) else Zeros(|g| + n)
  }

  /** The product of two polynomials, without carries. */
  function Product(q: seq<bool>, g: seq<bool>): (p: seq<bool>)
    requires g != []
    ensures |p| == |q| + |g| - 1
  {
    if q == [] then Zeros(|g| - 1)
    else Xor(Row(q[0], g, |q| - 1), [false] + Product(q[1..], g))
  }

  /** `m` is `g` times some polynomial. */
  ghost predicate IsMultiple(g: seq<bool>, m: seq<bool>)
    requires g != []
  {
    exists q: seq<bool> :: |q| + |g| == |m| + 1 && Product(q, g) == m
  }

  lemma StepOnEmpty(poly: seq<bool>, zero: seq<bool>, bit: bool)
    requires poly != [] && |zero| == |poly| && AllZero(zero)
    ensures Step(poly, zero, bit) == if bit then poly else zero
  {
    var s, expected := Step(poly, zero, bit), if bit then poly else zero;
    assert forall i :: 0 <= i < |poly| ==> s[i] == expected[i];
  }

  lemma FeedFirst(poly: seq<bool>, r: seq<bool>, bit: bool, rest: seq<bool>)
    requires poly != [] && |r| == |poly|
    ensures Feed(poly, r, [bit] + rest) == Feed(poly, Step(poly, r, bit), rest)
  {
    assert ([bit] + rest)[1..] == rest;
  }

  lemma FeedNothing(poly: seq<bool>, r: seq<bool>)
    requires poly != [] && |r| == |poly|
    ensures Feed(poly, r, []) == r
  {
  }

  /** One row of the multiplication leaves an empty register empty. */
  lemma RowLeavesNothing(poly: seq<bool>, zero: seq<bool>, take: bool, n: nat)
    requires IsGenerator(poly) && |zero| == |poly| && AllZero(zero)
    ensures AllZero(Feed(poly, zero, Row(take, [true] + poly, n)))
  {
    hide Feed;
    if take {
      assert Row(take, [true] + poly, n) == [true] + (poly + Zeros(n));
      FeedFirst(poly, zero, true, poly + Zeros(n));
      StepOnEmpty(poly, zero, true);
      FeedConcat(poly, poly, poly, Zeros(n));
      ZeroResidue(poly, poly, poly);
      FeedZeros(poly, Feed(poly, poly, poly), Zeros(n));
    } else {
      FeedZeros(poly, zero, Row(take, [true] + poly, n));
    }
  }

  /** Adding a row to what is fed changes nothing about whether an empty register stays empty. */
  lemma RowIsInvisible(poly: seq<bool>, zero: seq<bool>, take: bool, n: nat, m: seq<bool>)
    requires IsGenerator(poly) && |zero| == |poly| && AllZero(zero) && |m| == |poly| + 1 + n
    ensures AllZero(Feed(poly, zero, Xor(Row(take, [true] + poly, n), m))) <==> AllZero(Feed(poly, zero, m))
  {
    RowLeavesNothing(poly, zero, take, n);
    var row := Row(take, [true] + poly, n);
    hide *;
    XorOfZeros(zero, zero);
    AllZeroUnique(Xor(zero, zero), zero);
    FeedLinear(poly, zero, zero, row, m);
    XorWithZero(Feed(poly, zero, row), Feed(poly, zero, m));
  }

  lemma XorWithZero(z: seq<bool>, r: seq<bool>)
    requires |z| == |r| && AllZero(z)
    ensures Xor(z, r) == r
  {
  }

  lemma XorTwice(a: seq<bool>, b: seq<bool>)
    requires |a| == |b|
    ensures Xor(a, Xor(a, b)) == b
  {
  }

  lemma {:induction false} MultipleLeavesNothing(poly: seq<bool>, zero: seq<bool>, q: seq<bool>)
    requires IsGenerator(poly) && |zero| == |poly| && AllZero(zero)
    ensures AllZero(Feed(poly, zero, Product(q, [true] + poly)))
  {
    hide Feed;
    var g := [true] + poly;
    if q == [] {
      FeedZeros(poly, zero, Product(q, g));
    } else {
      var rest := Product(q[1..], g);
      MultipleLeavesNothing(poly, zero, q[1..]);
      FeedFirst(poly, zero, false, rest);
      StepOnEmpty(poly, zero, false);
      RowIsInvisible(poly, zero, q[0], |q| - 1, [false] + rest);
    }
  }

  /** Long division: whatever leaves an empty register empty has a quotient. */
  lemma {:induction false} Quotient(poly: seq<bool>, zero: seq<bool>, m: seq<bool>) returns (q: seq<bool>)
    requires IsGenerator(poly) && |zero| == |poly| <= |m| && AllZero(zero)
    requires AllZero(Feed(poly, zero, m))
    ensures |q| + |poly| == |m| && Product(q, [true] + poly) == m
    decreases |m|
  {
    hide Feed;
    var g := [true] + poly;
    if |m| == |poly| {
      q := [];
      ZeroResidue(poly, zero, m);
    } else {
      var n := |m| - |g|;
      var rest := Xor(Row(m[0], g, n), m);
      RowIsInvisible(poly, zero, m[0], n, m);
      assert rest == [false] + rest[1..];
      FeedFirst(poly, zero, false, rest[1..]);
      StepOnEmpty(poly, zero, false);
      var q' := Quotient(poly, zero, rest[1..]);
      q := [m[0]] + q';
      assert q[1..] == q';
      XorTwice(Row(m[0], g, n), m);
    }
  }

  /** An empty register is empty again exactly after a multiple of the generator polynomial. */
  lemma EmptyIffMultiple(poly: seq<bool>, zero: seq<bool>, m: seq<bool>)
    requires IsGenerator(poly) && |zero| == |poly| <= |m| && AllZero(zero)
    ensures AllZero(Feed(poly, zero, m)) <==> IsMultiple([true] + poly, m)
  {
    hide Feed, Product, AllZero;
    if AllZero(Feed(poly, zero, m)) {
      var q := Quotient(poly, zero, m);
    }
    if IsMultiple([true] + poly, m) {
      var q :| |q| + |[true] + poly| == |m| + 1 && Product(q, [true] + poly) == m;
      MultipleLeavesNothing(poly, zero, q);
    }
  }
}
