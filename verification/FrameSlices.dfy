/**
 What every framer's reports are over whole streams: slices of the stream, in order and without
 overlap, whatever was skipped, restarted or recovered in between.
 */
module FrameSlices {
  import opened Bits
  import opened Framing

  /** Where, in the bytes held when a record is reported, it lies; its bytes; its time. */
  datatype Shape<!R> = Shape(place: Pending -> (nat, nat), raw: R -> seq<byte>, ts: R -> Timestamp)

  /** One byte: the framer holds on to the latest bytes only, and what it reports lies in them. */
  predicate SlicesAt<R>(push: Framer<R>, shape: Shape<R>, held: Pending, s: Stamped) {
    var (next, result) := push(held, s);
    var grown := held + [s];
    && IsSuffix(next, grown)
    && (result.RecordReady? ==>
          var (from, to) := shape.place(grown);
          && next == [] && from < to <= |grown|
          && shape.raw(result.record) == Values(grown)[from..to]
          && shape.ts(result.record) == grown[from].ts)
  }

  ghost predicate Slicing<R(!new)>(push: Framer<R>, shape: Shape<R>) {
    forall held: Pending, s: Stamped :: SlicesAt(push, shape, held, s)
  }

  /** A record together with the stream positions of its first byte and of the byte after its last. */
  datatype Located<+R> = Located(record: R, start: int, end: int)

  /** What one byte adds to the located records. */
  function Here<R>(push: Framer<R>, shape: Shape<R>, held: Pending, seen: nat, s: Stamped): seq<Located<R>> {
    var result := push(held, s).1;
    if result.RecordReady? then
      var (from, to) := shape.place(held + [s]);
      [Located(result.record, seen - |held| + from, seen - |held| + to)]
    else []
  }

  /** The located records of `input`, given that `seen` stream bytes came before it. */
  function Locate<R>(push: Framer<R>, shape: Shape<R>, held: Pending, seen: nat, input: seq<Stamped>): seq<Located<R>>
    decreases |input|
  {
    if input == [] then []
    else Here(push, shape, held, seen, input[0]) + Locate(push, shape, push(held, input[0]).0, seen + 1, input[1..])
  }

  lemma {:induction false} LocateReportsRun<R>(
      push: Framer<R>, shape: Shape<R>, held: Pending, seen: nat, input: seq<Stamped>)
    ensures var found, records := Locate(push, shape, held, seen, input), Run(push, held, input).1;
            && |found| == |records|
            && forall i :: 0 <= i < |found| ==> found[i].record == records[i]
    decreases |input|
  {
    if input != [] {
      LocateReportsRun(push, shape, push(held, input[0]).0, seen + 1, input[1..]);
    }
  }

  /** A record is the stream slice it is located at, stamped with that slice's first byte. */
  ghost predicate IsSlice<R>(stream: seq<Stamped>, shape: Shape<R>, l: Located<R>) {
    && 0 <= l.start < l.end <= |stream|
    && shape.raw(l.record) == Values(stream)[l.start..l.end]
    && shape.ts(l.record) == stream[l.start].ts
  }

  /** Slices of the stream that start no earlier than `from`, in order and without overlap. */
  ghost predicate DisjointSlices<R>(stream: seq<Stamped>, shape: Shape<R>, found: seq<Located<R>>, from: int) {
    && (forall i :: 0 <= i < |found| ==> IsSlice(stream, shape, found[i]) && from <= found[i].start)
    && (forall i, j :: 0 <= i < j < |found| ==> found[i].end <= found[j].start)
  }

  lemma SliceOfTail(stream: seq<Stamped>, at: nat, from: nat, to: nat)
    requires from <= to && at + to <= |stream|
    ensures Values(stream[at..])[from..to] == Values(stream)[at + from..at + to]
  {
  }

  lemma SuffixGrows(next: Pending, held: Pending, done: seq<Stamped>, s: Stamped)
    requires IsSuffix(held, done) && IsSuffix(next, held + [s])
    ensures IsSuffix(next, done + [s])
  {
    assert held + [s] == (done + [s])[|done| - |held|..];
  }

  /** What one byte reports lies between the first byte held and the end of what was read. */
  lemma HereIsSlice<R(!new)>(
      push: Framer<R>, shape: Shape<R>, done: seq<Stamped>, held: Pending, s: Stamped, more: seq<Stamped>)
    requires Slicing(push, shape) && IsSuffix(held, done) && push(held, s).1.RecordReady?
    ensures var here := Here(push, shape, held, |done|, s);
            && |here| == 1 && IsSlice(done + [s] + more, shape, here[0])
            && |done| - |held| <= here[0].start && here[0].end <= |done| + 1
  {
    assert SlicesAt(push, shape, held, s);
    var at := |done| - |held|;
    var (from, to) := shape.place(held + [s]);
    var stream := done + [s] + more;
    assert (held + [s]) == (done + [s])[at..];
    SliceOfTail(done + [s], at, from, to);
    assert Values(done + [s])[at + from..at + to] == Values(stream)[at + from..at + to];
    assert (held + [s])[from] == stream[at + from];
  }

  lemma SlicesPrepend<R>(
      stream: seq<Stamped>, shape: Shape<R>, here: seq<Located<R>>, rest: seq<Located<R>>, from: int, at: int)
    requires |here| <= 1 && from <= at && DisjointSlices(stream, shape, rest, at)
    requires forall l :: l in here ==> IsSlice(stream, shape, l) && from <= l.start && l.end <= at
    ensures DisjointSlices(stream, shape, here + rest, from)
  {
    hide IsSlice;
    if here == [] {
      assert here + rest == rest;
    } else {
      assert here[0] in here;
      assert forall i :: 1 <= i < |rest| + 1 ==> (here + rest)[i] == rest[i - 1];
    }
  }

  /** The records of any input are slices of the stream, in order and without overlap. */
  lemma {:induction false} RecordsAreDisjointSlices<R(!new)>(
      push: Framer<R>, shape: Shape<R>, done: seq<Stamped>, held: Pending, input: seq<Stamped>)
    requires Slicing(push, shape) && IsSuffix(held, done)
    ensures DisjointSlices(done + input, shape, Locate(push, shape, held, |done|, input), |done| - |held|)
    decreases |input|
  {
    if input != [] {
      var s, next := input[0], push(held, input[0]).0;
      assert SlicesAt(push, shape, held, s);
      SuffixGrows(next, held, done, s);
      var here := Here(push, shape, held, |done|, s);
      assert here != [] ==> push(held, s).1.RecordReady? && next == [];
      RecordsAreDisjointSlices(push, shape, done + [s], next, input[1..]);
      assert done + [s] + input[1..] == done + input;
      hide Slicing, SlicesAt, IsSlice, Here, DisjointSlices, Locate;
      if push(held, s).1.RecordReady? {
        HereIsSlice(push, shape, done, held, s, input[1..]);
      }
      var rest := Locate(push, shape, next, |done| + 1, input[1..]);
      assert Locate(push, shape, held, |done|, input) == here + rest by { LocateStep(push, shape, held, |done|, input); }
      SlicesPrepend(done + input, shape, here, rest, |done| - |held|, |done| + 1 - |next|);
    } else {
      assert Locate(push, shape, held, |done|, input) == [];
    }
  }

  lemma LocateStep<R>(push: Framer<R>, shape: Shape<R>, held: Pending, seen: nat, input: seq<Stamped>)
    requires input != []
    ensures Locate(push, shape, held, seen, input)
         == Here(push, shape, held, seen, input[0]) + Locate(push, shape, push(held, input[0]).0, seen + 1, input[1..])
  {
  }
}
