/**
 What the byte-at-a-time framers share: stamped bytes, parser results, and runs of a framer over a
 stream. A framer's state is the list of bytes it still holds, oldest first.
 */
module Framing {
  import opened Bits

  type Timestamp = Option<int>

  datatype Stamped = Stamped(value: byte, ts: Timestamp)

  datatype ChecksumStatus = NotChecked | Missing | Valid | Invalid

  datatype ParserResult<+R> =
    | Idle | NeedMoreData | RecordReady(record: R) | Skipped | InvalidData | Truncated | Overflow

  type Pending = seq<Stamped>

  type Framer<!R> = (Pending, Stamped) -> (Pending, ParserResult<R>)

  function Values(bytes: seq<Stamped>): (v: seq<byte>)
    ensures |v| == |bytes| && forall i :: 0 <= i < |bytes| ==> v[i] == bytes[i].value
  {
    seq(|bytes|, i requires 0 <= i < |bytes| => bytes[i].value)
  }

  lemma ValuesSplit(input: seq<Stamped>, n: nat)
    requires n <= |input|
    ensures Values(input[..n]) == Values(input)[..n] && Values(input[n..]) == Values(input)[n..]
  {
  }

  /** Bytes and their read times, put together. */
  function Zip(values: seq<byte>, stamps: seq<Timestamp>): (s: seq<Stamped>)
    requires |values| == |stamps|
    ensures |s| == |values| && forall i :: 0 <= i < |s| ==> s[i] == Stamped(values[i], stamps[i])
  {
    seq(|values|, i requires 0 <= i < |values| && |values| == |stamps| => Stamped(values[i], stamps[i]))
  }

  lemma ZipValues(values: seq<byte>, stamps: seq<Timestamp>)
    requires |values| == |stamps|
    ensures Values(Zip(values, stamps)) == values
  {
  }

  /** A byte string all of whose bytes were read at one time. */
  function StampAll(bytes: seq<byte>, ts: Timestamp): (s: seq<Stamped>)
    ensures |s| == |bytes| && forall i :: 0 <= i < |bytes| ==> s[i] == Stamped(bytes[i], ts)
  {
    seq(|bytes|, i requires 0 <= i < |bytes| => Stamped(bytes[i], ts))
  }

  /** The framer of finished input: `Finalize` reports whether anything was left over. */
  function Finalize<R>(pending: Pending): ParserResult<R> {
    if pending == [] then Idle else Truncated
  }

  /** Feeding a stream: the bytes still held and the records produced, in order. */
  function Run<R>(push: Framer<R>, pending: Pending, input: seq<Stamped>): (Pending, seq<R>)
    decreases |input|
  {
    if input == [] then (pending, [])
    else
      var (p, r) := push(pending, input[0]);
      var (q, rest) := Run(push, p, input[1..]);
      (q, (if r.RecordReady? then [r.record] else []) + rest)
  }

  lemma {:induction false} RunConcat<R>(push: Framer<R>, pending: Pending, a: seq<Stamped>, b: seq<Stamped>)
    ensures var (p, first) := Run(push, pending, a);
            var (q, second) := Run(push, p, b);
            Run(push, pending, a + b) == (q, first + second)
    decreases |a|
  {
    if a == [] {
      assert a + b == b;
      var (q, second) := Run(push, pending, b);
      assert [] + second == second;
    } else {
      assert (a + b)[1..] == a[1..] + b;
      var (p, r) := push(pending, a[0]);
      RunConcat(push, p, a[1..], b);
      var emitted := if r.RecordReady? then [r.record] else [];
      var (m, first) := Run(push, p, a[1..]);
      var (q, second) := Run(push, m, b);
      assert emitted + (first + second) == (emitted + first) + second;
    }
  }

  lemma RunOne<R>(push: Framer<R>, pending: Pending, s: Stamped)
    ensures var (q, r) := push(pending, s);
            Run(push, pending, [s]) == (q, if r.RecordReady? then [r.record] else [])
  {
    var (q, r) := push(pending, s);
    var last := if r.RecordReady? then [r.record] else [];
    assert [s][1..] == [];
    assert Run(push, pending, [s]) == (q, last + []);
    assert last + [] == last;
  }

  lemma RunSnoc<R>(push: Framer<R>, pending: Pending, input: seq<Stamped>, k: nat)
    requires k < |input|
    ensures var (p, before) := Run(push, pending, input[..k]);
            var (q, r) := push(p, input[k]);
            Run(push, pending, input[..k + 1]) == (q, before + if r.RecordReady? then [r.record] else [])
  {
    assert input[..k + 1] == input[..k] + [input[k]];
    RunConcat(push, pending, input[..k], [input[k]]);
    RunOne(push, Run(push, pending, input[..k]).0, input[k]);
  }

  /** Bytes that a framer merely holds, and then one that completes a record. */
  lemma RunCompletes<R>(push: Framer<R>, pending: Pending, input: seq<Stamped>, record: R)
    requires input != []
    requires var n := |input| - 1;
             Run(push, pending, input[..n]) == (input[..n], [])
             && push(input[..n], input[n]) == ([], RecordReady(record))
    ensures Run(push, pending, input) == ([], [record])
  {
    var n := |input| - 1;
    RunSnoc(push, pending, input, n);
    assert input[..n + 1] == input;
    assert [] + [record] == [record];
  }

  /** A stretch that comes back as one record and leaves the framer idle, in front of anything. */
  lemma RunOneThen<R>(push: Framer<R>, first: seq<Stamped>, rest: seq<Stamped>, record: R)
    requires Run(push, [], first) == ([], [record])
    ensures Run(push, [], first + rest) == (Run(push, [], rest).0, [record] + Run(push, [], rest).1)
  {
    RunConcat(push, [], first, rest);
  }

  lemma {:induction false} RunHoldsAll<R>(push: Framer<R>, input: seq<Stamped>, k: nat)
    requires k <= |input|
    requires forall j :: 0 <= j < k ==> push(input[..j], input[j]) == (input[..j + 1], NeedMoreData)
    ensures Run(push, [], input[..k]) == (input[..k], [])
  {
    if k > 0 {
      RunHoldsAll(push, input, k - 1);
      RunSnoc(push, [], input, k - 1);
    }
  }

  predicate IsSuffix<T(==)>(a: seq<T>, b: seq<T>) {
    |a| <= |b| && a == b[|b| - |a|..]
  }

  /** Little-endian 16-bit field, as every framer reads its length. */
  function LittleEndian16(low: byte, high: byte): (n: nat)
    ensures n < 0x1_0000
  {
    low + 0x100 * high as nat
  }
}
