/** The UBX checksum loop, `gnss_protocols/src/ubx_checksum.cpp`: 8-bit Fletcher sums. */
module UbxChecksum {
  import opened Bits

  datatype Checksum = Checksum(a: byte, b: byte)

  function Fletcher(data: seq<byte>): Checksum {
    if data == [] then Checksum(0, 0)
    else
      var before := Fletcher(data[..|data| - 1]);
      var a := (before.a + data[|data| - 1] as nat) % 256;
      Checksum(a, (before.b + a as nat) % 256)
  }

  method ComputeUbxChecksum(data: seq<byte>) returns (checksum: Checksum)
    ensures checksum == Fletcher(data)
  {
    checksum := Checksum(0, 0);
    var i := 0;
    while i < |data|
      invariant 0 <= i <= |data|
      invariant checksum == Fletcher(data[..i])
    {
      assert data[..i + 1][..i] == data[..i];
      checksum := checksum.(a := (checksum.a + data[i] as nat) % 256);
      checksum := checksum.(b := (checksum.b + checksum.a as nat) % 256);
      i := i + 1;
    }
    assert data[..i] == data;
  }

  function Sum(data: seq<byte>): nat {
    if data == [] then 0 else Sum(data[..|data| - 1]) + data[|data| - 1]
  }

  /** The sum in which the first byte counts |data| times, the next one time less, and so on. */
  function WeightedSum(data: seq<byte>): nat {
    if data == [] then 0 else WeightedSum(data[..|data| - 1]) + Sum(data)
  }

  lemma SumPrefix(data: seq<byte>, k: nat)
    requires k < |data|
    ensures Sum(data[..k + 1]) == Sum(data[..k]) + data[k]
  {
    assert data[..k + 1][..k] == data[..k];
  }

  lemma {:induction false} SumConcat(a: seq<byte>, b: seq<byte>)
    ensures Sum(a + b) == Sum(a) + Sum(b) && Sum([]) == 0
  {
    if b == [] {
      assert a + b == a;
    } else {
      var n := |b| - 1;
      assert (a + b)[..|a| + n] == a + b[..n];
      SumConcat(a, b[..n]);
    }
  }

  lemma AddModulo(x: nat, y: nat)
    ensures (x % 256 + y) % 256 == (x + y) % 256
  {
  }

  lemma NotCongruent(x: nat, y: nat)
    requires x < y < x + 256
    ensures x % 256 != y % 256
  {
  }

  /** The running checksum is the plain sum and the position-weighted sum, both modulo 256. */
  lemma {:induction false} FletcherClosedForm(data: seq<byte>)
    ensures Fletcher(data).a == Sum(data) % 256
    ensures Fletcher(data).b == WeightedSum(data) % 256
  {
    if data != [] {
      var n := |data| - 1;
      FletcherClosedForm(data[..n]);
      AddModulo(Sum(data[..n]), data[n]);
      AddModulo(WeightedSum(data[..n]), Sum(data));
      AddModulo(Sum(data), WeightedSum(data[..n]) % 256);
    }
  }

  /** How a change of one byte shows in the two sums. */
  lemma {:induction false} SumAfterChange(data: seq<byte>, i: nat, v: byte)
    requires i < |data|
    ensures Sum(data[i := v]) == Sum(data) + v as int - data[i]
    ensures WeightedSum(data[i := v]) == WeightedSum(data) + (|data| - i) * (v as int - data[i])
  {
    var n := |data| - 1;
    var changed := data[i := v];
    var d := v as int - data[i];
    if i == n {
      assert changed[..n] == data[..n];
    } else {
      assert changed[..n] == data[..n][i := v];
      SumAfterChange(data[..n], i, v);
      assert (n - i) * d + d == (n + 1 - i) * d;
    }
  }

  /** Changing any one byte changes the first checksum byte. */
  lemma SingleChangeDetected(data: seq<byte>, i: nat, v: byte)
    requires i < |data| && v != data[i]
    ensures Fletcher(data[i := v]).a != Fletcher(data).a
  {
    SumAfterChange(data, i, v);
    FletcherClosedForm(data);
    FletcherClosedForm(data[i := v]);
    if data[i] < v {
      NotCongruent(Sum(data), Sum(data[i := v]));
    } else {
      NotCongruent(Sum(data[i := v]), Sum(data));
    }
  }

  /**
   Exchanging two neighbouring bytes keeps the first checksum byte and changes the second one
   exactly when the two bytes differ.
   */
  lemma SwapDetected(data: seq<byte>, i: nat)
    requires i + 1 < |data|
    ensures var swapped := data[i := data[i + 1]][i + 1 := data[i]];
            && Fletcher(swapped).a == Fletcher(data).a
            && (Fletcher(swapped).b == Fletcher(data).b <==> data[i] == data[i + 1])
  {
    var swapped := data[i := data[i + 1]][i + 1 := data[i]];
    SumsAfterSwap(data, i);
    FletcherClosedForm(data);
    FletcherClosedForm(swapped);
    if data[i] < data[i + 1] {
      NotCongruent(WeightedSum(data), WeightedSum(swapped));
    } else if data[i + 1] < data[i] {
      NotCongruent(WeightedSum(swapped), WeightedSum(data));
    }
  }

  lemma SumsAfterSwap(data: seq<byte>, i: nat)
    requires i + 1 < |data|
    ensures var swapped := data[i := data[i + 1]][i + 1 := data[i]];
            && Sum(swapped) == Sum(data)
            && WeightedSum(swapped) == WeightedSum(data) + data[i + 1] as int - data[i]
  {
    var once := data[i := data[i + 1]];
    SumAfterChange(data, i, data[i + 1]);
    SumAfterChange(once, i + 1, data[i]);
    OneStepDown(|data| - i, data[i + 1] as int - data[i]);
  }

  lemma OneStepDown(w: int, d: int)
    ensures w * d + (w - 1) * (-d) == d
  {
  }
}
