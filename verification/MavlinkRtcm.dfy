/**
 RTCM frames as MAVLink GPS_RTCM_DATA fragments, `gnss_mavros/src/mavlink_rtcm_encoder.cpp`. The flag
 byte has bit 0 for a fragmented frame, bits 1 and 2 for the fragment and bits 3 to 7 for the frame.
 */
module MavlinkRtcm {
  import opened Bits

  const PAYLOAD_CAPACITY := 180
  const MAX_FRAGMENTS := 4
  const MAX_FRAME_SIZE := 720
  const UINT32_END := 0x1_0000_0000

  /** `data` is the whole array of the message, of which only `len` bytes are meant. */
  datatype Fragment = Fragment(flags: byte, len: byte, data: seq<byte>)

  datatype EncodeStatus = Encoded | EmptyFrame | FrameTooLarge

  function Payload(f: Fragment): seq<byte> {
    if f.len <= |f.data| then f.data[..f.len] else f.data
  }

  /** The three fields of the flag byte. */
  function SequenceOf(f: Fragment): nat {
    f.flags / 8
  }

  function IdOf(f: Fragment): nat {
    f.flags / 2 % 4
  }

  predicate IsFragmented(f: Fragment) {
    f.flags % 2 == 1
  }

  /** A message with these bytes at the front of its array. */
  function MessageWith(flags: byte, bytes: seq<byte>): (f: Fragment)
    requires |bytes| <= PAYLOAD_CAPACITY
    ensures Payload(f) == bytes && |f.data| == PAYLOAD_CAPACITY && f.flags == flags && f.len == |bytes|
  {
    Fragment(flags, |bytes|, bytes + seq(PAYLOAD_CAPACITY - |bytes|, i => 0))
  }

  predicate Encodable(frame: seq<byte>) {
    1 <= |frame| <= MAX_FRAME_SIZE
  }

  function Min(a: nat, b: nat): nat {
    if a < b then a else b
  }

  /** The bytes of a frame that its fragment number `id` carries. */
  function Piece(frame: seq<byte>, id: nat): (piece: seq<byte>)
    ensures |piece| <= PAYLOAD_CAPACITY
  {
    frame[Min(180 * id, |frame|)..Min(180 * id + 180, |frame|)]
  }

  function PieceFragment(bits: nat, frame: seq<byte>, id: nat): Fragment
    requires bits < 32 && id < MAX_FRAGMENTS
  {
    MessageWith(1 + 2 * id + 8 * bits, Piece(frame, id))
  }

  /** The fragments of a long frame from number `id` on. */
  function FragmentsFrom(bits: nat, frame: seq<byte>, id: nat): seq<Fragment>
    requires bits < 32
    decreases MAX_FRAGMENTS - id
  {
    if id >= MAX_FRAGMENTS || 180 * id >= |frame| then []
    else [PieceFragment(bits, frame, id)] + FragmentsFrom(bits, frame, id + 1)
  }

  function Fragments(sequence: nat, frame: seq<byte>): seq<Fragment> {
    if |frame| <= PAYLOAD_CAPACITY then [MessageWith(8 * (sequence % 32), frame)]
    else FragmentsFrom(sequence % 32, frame, 0)
  }

  class MavlinkRtcmEncoder {
    /** A 32-bit counter; only accepted frames take a number. */
    var sequence: nat

    ghost predicate Valid()
      reads this
    {
      sequence < UINT32_END
    }

    constructor ()
      ensures Valid() && sequence == 0
    {
      sequence := 0;
    }

    method Encode(frame: seq<byte>) returns (status: EncodeStatus, fragments: seq<Fragment>)
      requires Valid()
      modifies this
      ensures Valid()
      ensures status == if frame == [] then EmptyFrame else if |frame| > MAX_FRAME_SIZE then FrameTooLarge else Encoded
      ensures status == Encoded <==> Encodable(frame)
      ensures Encodable(frame) ==>
                fragments == Fragments(old(sequence), frame) && sequence == (old(sequence) + 1) % UINT32_END
      ensures !Encodable(frame) ==> fragments == [] && sequence == old(sequence)
    {
      fragments := [];
      if frame == [] {
        return EmptyFrame, fragments;
      }
      if |frame| > MAX_FRAME_SIZE {
        return FrameTooLarge, fragments;
      }
      var bits := sequence % 32;
      sequence := (sequence + 1) % UINT32_END;
      status := Encoded;
      if |frame| <= PAYLOAD_CAPACITY {
        fragments := [MessageWith(8 * bits, frame)];
        return;
      }
      fragments := SplitFrame(bits, frame);
    }
  }

  /** The loop of `Encode`. */
  method SplitFrame(bits: nat, frame: seq<byte>) returns (fragments: seq<Fragment>)
    requires bits < 32
    ensures fragments == FragmentsFrom(bits, frame, 0)
  {
    hide MessageWith, Piece;
    fragments := [];
    var current, id := 0, 0;
    assert [] + FragmentsFrom(bits, frame, 0) == FragmentsFrom(bits, frame, 0);
    while id < MAX_FRAGMENTS && current != |frame|
      invariant 0 <= id <= MAX_FRAGMENTS && current == Min(180 * id, |frame|)
      invariant FragmentsFrom(bits, frame, 0) == fragments + FragmentsFrom(bits, frame, id)
      decreases MAX_FRAGMENTS - id
    {
      var length := Min(|frame| - current, PAYLOAD_CAPACITY);
      PieceIs(frame, id, current, length);
      ghost var rest := FragmentsFrom(bits, frame, id + 1);
      var fragment := MessageWith(1 + 2 * id + 8 * bits, frame[current..current + length]);
      assert FragmentsFrom(bits, frame, id) == [fragment] + rest;
      assert fragments + ([fragment] + rest) == (fragments + [fragment]) + rest;
      fragments := fragments + [fragment];
      current := current + length;
      id := id + 1;
    }
    assert FragmentsFrom(bits, frame, id) == [];
  }

  lemma PieceIs(frame: seq<byte>, id: nat, current: nat, length: nat)
    requires current == Min(180 * id, |frame|) && length == Min(|frame| - current, PAYLOAD_CAPACITY)
    ensures Piece(frame, id) == frame[current..current + length]
  {
  }

  // ----- Putting frames together again -----------------------------------------------------

  predicate Matches(f: Fragment, bits: nat, id: nat) {
    SequenceOf(f) == bits && IdOf(f) == id
  }

  /** The payloads of the messages with these sequence and id bits, in the order in which they came. */
  function Gather(received: seq<Fragment>, bits: nat, id: nat): seq<byte> {
    if received == [] then []
    else (if Matches(received[0], bits, id) then Payload(received[0]) else []) + Gather(received[1..], bits, id)
  }

  function MatchCount(received: seq<Fragment>, bits: nat, id: nat): nat {
    if received == [] then 0
    else (if Matches(received[0], bits, id) then 1 else 0) + MatchCount(received[1..], bits, id)
  }

  /** What a receiver that groups by sequence bits and orders by id bits makes of a group. */
  function Reassemble(received: seq<Fragment>, bits: nat): seq<byte> {
    Gather(received, bits, 0) + Gather(received, bits, 1) + Gather(received, bits, 2) + Gather(received, bits, 3)
  }

  lemma {:induction false} GatherConcat(a: seq<Fragment>, b: seq<Fragment>, bits: nat, id: nat)
    ensures Gather(a + b, bits, id) == Gather(a, bits, id) + Gather(b, bits, id)
    ensures MatchCount(a + b, bits, id) == MatchCount(a, bits, id) + MatchCount(b, bits, id)
  {
    if a == [] {
      assert a + b == b;
    } else {
      assert (a + b)[0] == a[0] && (a + b)[1..] == a[1..] + b;
      GatherConcat(a[1..], b, bits, id);
      hide Matches, Payload;
    }
  }

  lemma {:induction false} GatherNothing(a: seq<Fragment>, bits: nat, id: nat)
    requires MatchCount(a, bits, id) == 0
    ensures Gather(a, bits, id) == []
  {
    if a != [] {
      GatherNothing(a[1..], bits, id);
    }
  }

  lemma GatherOne(f: Fragment, bits: nat, id: nat)
    ensures Gather([f], bits, id) == if Matches(f, bits, id) then Payload(f) else []
    ensures MatchCount([f], bits, id) == if Matches(f, bits, id) then 1 else 0
  {
    assert [f][1..] == [];
    hide Matches, Payload;
    assert Gather([], bits, id) == [];
  }

  /** As long as no two messages match, the order in which they came does not matter. */
  lemma {:induction false} OrderDoesNotMatter(a: seq<Fragment>, b: seq<Fragment>, bits: nat, id: nat)
    requires multiset(a) == multiset(b) && MatchCount(a, bits, id) <= 1
    ensures Gather(b, bits, id) == Gather(a, bits, id) && MatchCount(b, bits, id) == MatchCount(a, bits, id)
    decreases |a|
  {
    if a == [] {
      assert b == [] by { assert |multiset(b)| == 0; }
    } else {
      var x, rest := a[0], a[1..];
      var before, after := TakeOut(a, b);
      OneMatchLess(x, rest, bits, id);
      assert a == [x] + rest;
      hide Gather, MatchCount, Matches, Payload;
      OrderDoesNotMatter(rest, before + after, bits, id);
      GatherConcat([x], rest, bits, id);
      GatherConcat(before, after, bits, id);
      GatherConcat(before, [x], bits, id);
      GatherConcat(before + [x], after, bits, id);
      MovesFront(x, before, after, rest, bits, id);
    }
  }

  /** The same message in the other order, and what is around it. */
  lemma TakeOut(a: seq<Fragment>, b: seq<Fragment>) returns (before: seq<Fragment>, after: seq<Fragment>)
    requires a != [] && multiset(a) == multiset(b)
    ensures b == before + [a[0]] + after && multiset(a[1..]) == multiset(before + after)
  {
    var x := a[0];
    assert a == [x] + a[1..];
    assert x in multiset(b);
    var j :| 0 <= j < |b| && b[j] == x;
    before, after := b[..j], b[j + 1..];
    assert b == before + [x] + after;
    WithoutOne(x, a[1..], before, after);
  }

  lemma WithoutOne(x: Fragment, rest: seq<Fragment>, before: seq<Fragment>, after: seq<Fragment>)
    requires multiset([x] + rest) == multiset(before + [x] + after)
    ensures multiset(rest) == multiset(before + after)
  {
    assert multiset([x] + rest) == multiset{x} + multiset(rest);
    assert multiset(before + [x] + after) == multiset(before) + multiset{x} + multiset(after);
    assert multiset(before + after) == multiset(before) + multiset(after);
    assert multiset(rest) == multiset([x] + rest) - multiset{x};
  }

  lemma OneMatchLess(x: Fragment, rest: seq<Fragment>, bits: nat, id: nat)
    requires MatchCount([x] + rest, bits, id) <= 1
    ensures MatchCount(rest, bits, id) <= 1
    ensures Matches(x, bits, id) ==> MatchCount(rest, bits, id) == 0
  {
    assert ([x] + rest)[1..] == rest;
  }

  lemma MovesFront(x: Fragment, before: seq<Fragment>, after: seq<Fragment>, rest: seq<Fragment>, bits: nat, id: nat)
    requires Gather(before, bits, id) + Gather(after, bits, id) == Gather(rest, bits, id)
    requires MatchCount(before, bits, id) + MatchCount(after, bits, id) == MatchCount(rest, bits, id)
    requires Matches(x, bits, id) ==> MatchCount(rest, bits, id) == 0
    ensures Gather(before, bits, id) + Gather([x], bits, id) + Gather(after, bits, id)
         == Gather([x], bits, id) + Gather(rest, bits, id)
    ensures MatchCount(before, bits, id) + MatchCount([x], bits, id) + MatchCount(after, bits, id)
         == MatchCount([x], bits, id) + MatchCount(rest, bits, id)
  {
    GatherOne(x, bits, id);
    hide Gather, Matches, Payload;
    if Matches(x, bits, id) {
      GatherNothing(before, bits, id);
      GatherNothing(after, bits, id);
      GatherNothing(rest, bits, id);
      var one := Gather([x], bits, id);
      assert [] + one + [] == one + [];
    } else {
      var front, back := Gather(before, bits, id), Gather(after, bits, id);
      assert front + [] + back == [] + (front + back);
    }
  }

  // ----- What one frame contributes --------------------------------------------------------

  lemma FlagFields(bits: nat, id: nat, fragmented: bool, f: Fragment)
    requires bits < 32 && id < 4
    requires f.flags == (if fragmented then 1 else 0) + 2 * id + 8 * bits
    ensures SequenceOf(f) == bits && IdOf(f) == id && (IsFragmented(f) <==> fragmented)
  {
  }

  lemma PieceMatches(own: nat, frame: seq<byte>, from: nat, bits: nat, id: nat)
    requires own < 32 && id < 4 && from < 4
    ensures Matches(PieceFragment(own, frame, from), bits, id) <==> bits == own && id == from
    ensures Payload(PieceFragment(own, frame, from)) == Piece(frame, from)
  {
    FlagFields(own, from, true, PieceFragment(own, frame, from));
    hide Piece, SequenceOf, IdOf;
  }

  lemma NothingBehind(frame: seq<byte>, from: nat, id: nat)
    requires 180 * from >= |frame| && id >= from
    ensures Piece(frame, id) == []
  {
  }

  lemma {:induction false} FragmentsFromGather(own: nat, frame: seq<byte>, from: nat, bits: nat, id: nat)
    requires own < 32 && id < 4
    ensures Gather(FragmentsFrom(own, frame, from), bits, id)
         == if bits == own && id >= from then Piece(frame, id) else []
    ensures MatchCount(FragmentsFrom(own, frame, from), bits, id) <= 1
    ensures bits != own || id < from ==> MatchCount(FragmentsFrom(own, frame, from), bits, id) == 0
    decreases 4 - from
  {
    if from >= 4 || 180 * from >= |frame| {
      if id >= from {
        NothingBehind(frame, from, id);
      }
    } else {
      var f, rest := PieceFragment(own, frame, from), FragmentsFrom(own, frame, from + 1);
      assert FragmentsFrom(own, frame, from) == [f] + rest;
      hide *;
      FragmentsFromGather(own, frame, from + 1, bits, id);
      PieceMatches(own, frame, from, bits, id);
      GatherOne(f, bits, id);
      GatherConcat([f], rest, bits, id);
      assert [] + Gather(rest, bits, id) == Gather(rest, bits, id);
      assert Gather([f], bits, id) + [] == Gather([f], bits, id);
    }
  }

  lemma FrameGather(sequence: nat, frame: seq<byte>, bits: nat, id: nat)
    requires Encodable(frame) && id < 4
    ensures Gather(Fragments(sequence, frame), bits, id) == if bits == sequence % 32 then Piece(frame, id) else []
    ensures MatchCount(Fragments(sequence, frame), bits, id) <= 1
    ensures bits != sequence % 32 ==> MatchCount(Fragments(sequence, frame), bits, id) == 0
  {
    if |frame| <= PAYLOAD_CAPACITY {
      var f := MessageWith(8 * (sequence % 32), frame);
      FlagFields(sequence % 32, 0, false, f);
      GatherOne(f, bits, id);
      hide Gather, MatchCount, Payload, SequenceOf, IdOf;
      assert Piece(frame, id) == if id == 0 then frame else [];
    } else {
      FragmentsFromGather(sequence % 32, frame, 0, bits, id);
    }
  }

  lemma PiecesJoin(frame: seq<byte>)
    requires |frame| <= MAX_FRAME_SIZE
    ensures Piece(frame, 0) + Piece(frame, 1) + Piece(frame, 2) + Piece(frame, 3) == frame
  {
  }

  lemma {:induction false} CountFrom(own: nat, frame: seq<byte>, from: nat)
    requires own < 32 && from <= 4 && 180 * from <= |frame| + 179 && |frame| <= MAX_FRAME_SIZE
    ensures |FragmentsFrom(own, frame, from)| == (|frame| + 179) / 180 - from
    ensures forall f :: f in FragmentsFrom(own, frame, from) ==> |f.data| == PAYLOAD_CAPACITY && 1 <= f.len <= PAYLOAD_CAPACITY
    decreases 4 - from
  {
    if from < 4 && 180 * from < |frame| {
      CountFrom(own, frame, from + 1);
    }
  }

  /** At most four messages, none of them empty or longer than the array, and no more than needed. */
  lemma FragmentBounds(sequence: nat, frame: seq<byte>)
    requires Encodable(frame)
    ensures 1 <= |Fragments(sequence, frame)| == (|frame| + 179) / 180 <= MAX_FRAGMENTS
    ensures forall f :: f in Fragments(sequence, frame) ==> |f.data| == PAYLOAD_CAPACITY && 1 <= f.len <= PAYLOAD_CAPACITY
  {
    if |frame| > PAYLOAD_CAPACITY {
      CountFrom(sequence % 32, frame, 0);
    }
  }

  lemma {:induction false} FragmentsFromAt(own: nat, frame: seq<byte>, from: nat, i: nat)
    requires own < 32 && i < |FragmentsFrom(own, frame, from)|
    ensures from + i < 4 && 180 * (from + i) < |frame|
    ensures FragmentsFrom(own, frame, from)[i] == PieceFragment(own, frame, from + i)
    decreases i
  {
    hide PieceFragment;
    if i > 0 {
      FragmentsFromAt(own, frame, from + 1, i - 1);
    }
  }

  /**
   The i-th message of a frame, bit by bit: the low five bits of the frame's number from bit 3 up, and in
   a frame of more than 180 bytes the message's own number from bit 1 up and bit 0 set; 180 bytes of the
   frame, or what is left of it, and zeros.
   */
  lemma MessageBytes(sequence: nat, frame: seq<byte>, i: nat)
    requires 1 <= |frame| <= 720 && i < |Fragments(sequence, frame)|
    ensures var f := Fragments(sequence, frame)[i];
            var length := Min(180, |frame| - 180 * i);
            && 180 * i < |frame| && |f.data| == 180
            && f.flags == 8 * (sequence % 32) + (if |frame| <= 180 then 0 else 2 * i + 1)
            && f.len == length && f.data[..length] == frame[180 * i..180 * i + length]
            && forall j :: length <= j < 180 ==> f.data[j] == 0
  {
    if |frame| > 180 {
      FragmentsFromAt(sequence % 32, frame, 0, i);
    }
    hide FragmentsFrom;
  }

  /** What the encoder accepts: one byte to 720. */
  lemma EncodableSizes(frame: seq<byte>)
    ensures Encodable(frame) <==> 1 <= |frame| <= 720
    ensures Encodable(frame) ==> |Fragments(0, frame)| == (|frame| + 179) / 180
  {
    if Encodable(frame) {
      FragmentBounds(0, frame);
    }
    hide Fragments;
  }

  // ----- Many frames -----------------------------------------------------------------------

  /** The messages of consecutively accepted frames. */
  function AllFragments(sequence: nat, frames: seq<seq<byte>>): seq<Fragment>
    decreases |frames|
  {
    if frames == [] then []
    else Fragments(sequence, frames[0]) + AllFragments((sequence + 1) % UINT32_END, frames[1..])
  }

  predicate AllEncodable(frames: seq<seq<byte>>) {
    forall i :: 0 <= i < |frames| ==> Encodable(frames[i])
  }

  /** The sequence bits of the frame that is `k` behind. */
  function BitsAt(sequence: nat, k: nat): (bits: nat)
    ensures bits < 32
  {
    (sequence + k) % 32
  }

  /** The wrap of the 32-bit counter does not disturb its low five bits. */
  lemma NextBits(sequence: nat, k: nat)
    ensures BitsAt((sequence + 1) % UINT32_END, k) == BitsAt(sequence, k + 1)
  {
  }

  lemma Distinct(sequence: nat, j: nat, k: nat)
    requires j < k < j + 32
    ensures BitsAt(sequence, j) != BitsAt(sequence, k)
  {
  }

  /** None of the next `n` frames has these bits. */
  predicate Unused(sequence: nat, n: nat, bits: nat) {
    forall j :: 0 <= j < n ==> BitsAt(sequence, j) != bits
  }

  lemma UnusedNext(sequence: nat, n: nat, bits: nat)
    requires Unused(sequence, n, bits) && n > 0
    ensures Unused((sequence + 1) % UINT32_END, n - 1, bits) && BitsAt(sequence, 0) != bits
  {
    hide BitsAt;
    var next := (sequence + 1) % UINT32_END;
    forall j | 0 <= j < n - 1 ensures BitsAt(next, j) != bits {
      NextBits(sequence, j);
    }
  }

  lemma UnusedBehind(sequence: nat, n: nat)
    requires n <= 32
    ensures n > 0 ==> Unused((sequence + 1) % UINT32_END, n - 1, BitsAt(sequence, 0))
  {
    hide BitsAt;
    var next, bits := (sequence + 1) % UINT32_END, BitsAt(sequence, 0);
    forall j | 0 <= j < n - 1 ensures BitsAt(next, j) != bits {
      NextBits(sequence, j);
      Distinct(sequence, 0, j + 1);
    }
  }

  /** The first frame's messages, and the others'. */
  lemma FirstAndOthers(sequence: nat, frames: seq<seq<byte>>, bits: nat, id: nat)
    requires frames != [] && AllEncodable(frames) && id < 4
    ensures var rest := AllFragments((sequence + 1) % UINT32_END, frames[1..]);
            var own := if bits == BitsAt(sequence, 0) then Piece(frames[0], id) else [];
            && Gather(AllFragments(sequence, frames), bits, id) == own + Gather(rest, bits, id)
            && MatchCount(AllFragments(sequence, frames), bits, id)
               <= (if bits == BitsAt(sequence, 0) then 1 else 0) + MatchCount(rest, bits, id)
  {
    var rest := AllFragments((sequence + 1) % UINT32_END, frames[1..]);
    FrameGather(sequence, frames[0], bits, id);
    GatherConcat(Fragments(sequence, frames[0]), rest, bits, id);
    assert AllFragments(sequence, frames) == Fragments(sequence, frames[0]) + rest;
    hide Gather, MatchCount, Fragments, Piece, AllFragments;
  }

  lemma {:induction false} OthersDoNotMatch(sequence: nat, frames: seq<seq<byte>>, bits: nat, id: nat)
    requires AllEncodable(frames) && id < 4 && Unused(sequence, |frames|, bits)
    ensures Gather(AllFragments(sequence, frames), bits, id) == []
    ensures MatchCount(AllFragments(sequence, frames), bits, id) == 0
    decreases |frames|
  {
    if frames != [] {
      UnusedNext(sequence, |frames|, bits);
      FirstAndOthers(sequence, frames, bits, id);
      hide BitsAt, Unused, Gather, MatchCount, AllFragments;
      OthersDoNotMatch((sequence + 1) % UINT32_END, frames[1..], bits, id);
    }
  }

  lemma {:induction false} OwnFrameMatches(sequence: nat, frames: seq<seq<byte>>, k: nat, id: nat)
    requires AllEncodable(frames) && k < |frames| <= 32 && id < 4
    ensures Gather(AllFragments(sequence, frames), BitsAt(sequence, k), id) == Piece(frames[k], id)
    ensures MatchCount(AllFragments(sequence, frames), BitsAt(sequence, k), id) <= 1
    decreases |frames|
  {
    hide BitsAt, Unused, Gather, MatchCount, AllFragments, Piece;
    var next := (sequence + 1) % UINT32_END;
    FirstAndOthers(sequence, frames, BitsAt(sequence, k), id);
    if k == 0 {
      UnusedBehind(sequence, |frames|);
      OthersDoNotMatch(next, frames[1..], BitsAt(sequence, 0), id);
      assert Piece(frames[0], id) + [] == Piece(frames[0], id);
    } else {
      Distinct(sequence, 0, k);
      NextBits(sequence, k - 1);
      OwnFrameMatches(next, frames[1..], k - 1, id);
      assert [] + Piece(frames[k], id) == Piece(frames[k], id);
    }
  }

  /**
   Demultiplexing: take up to 32 consecutively encoded frames, shuffle all their messages in any way,
   group them by the five sequence bits and order each group by the two id bits: every frame comes
   back exactly.
   */
  lemma EveryFrameComesBack(sequence: nat, frames: seq<seq<byte>>, shuffled: seq<Fragment>, k: nat)
    requires AllEncodable(frames) && k < |frames| <= 32
    requires multiset(shuffled) == multiset(AllFragments(sequence, frames))
    ensures Reassemble(shuffled, BitsAt(sequence, k)) == frames[k]
  {
    var bits, all := BitsAt(sequence, k), AllFragments(sequence, frames);
    assert Encodable(frames[k]);
    PiecesJoin(frames[k]);
    hide Gather, MatchCount, AllFragments, Piece, BitsAt;
    forall id | 0 <= id < 4 ensures Gather(shuffled, bits, id) == Piece(frames[k], id) {
      OwnFrameMatches(sequence, frames, k, id);
      OrderDoesNotMatter(all, shuffled, bits, id);
    }
  }

  lemma {:induction false} AllFragmentsSnoc(sequence: nat, frames: seq<seq<byte>>, last: seq<byte>) returns (s: nat)
    ensures s % 32 == BitsAt(sequence, |frames|)
    ensures AllFragments(sequence, frames + [last]) == AllFragments(sequence, frames) + Fragments(s, last)
    decreases |frames|
  {
    hide Fragments;
    var all := frames + [last];
    if frames == [] {
      s := sequence;
      assert all[0] == last && all[1..] == [];
      assert Fragments(sequence, last) + [] == [] + Fragments(sequence, last);
    } else {
      var next := (sequence + 1) % UINT32_END;
      assert all[0] == frames[0] && all[1..] == frames[1..] + [last];
      s := AllFragmentsSnoc(next, frames[1..], last);
      NextBits(sequence, |frames| - 1);
      hide BitsAt;
      assert AllFragments(sequence, all)
          == (Fragments(sequence, frames[0]) + AllFragments(next, frames[1..])) + Fragments(s, last);
    }
  }

  lemma FourPairs(received: seq<Fragment>, bits: nat, a: seq<byte>, b: seq<byte>)
    requires Encodable(a) && Encodable(b)
    requires forall id :: 0 <= id < 4 ==> Gather(received, bits, id) == Piece(a, id) + Piece(b, id)
    ensures |Reassemble(received, bits)| == |a| + |b|
  {
    PiecesJoin(a);
    PiecesJoin(b);
    hide Gather, Piece;
    assert |Gather(received, bits, 0)| == |Piece(a, 0)| + |Piece(b, 0)|;
    assert |Gather(received, bits, 1)| == |Piece(a, 1)| + |Piece(b, 1)|;
    assert |Gather(received, bits, 2)| == |Piece(a, 2)| + |Piece(b, 2)|;
    assert |Gather(received, bits, 3)| == |Piece(a, 3)| + |Piece(b, 3)|;
    assert |Piece(a, 0) + Piece(a, 1) + Piece(a, 2) + Piece(a, 3)| == |a|;
    assert |Piece(b, 0) + Piece(b, 1) + Piece(b, 2) + Piece(b, 3)| == |b|;
  }

  /** The frame after thirty-two others takes the bits of the first, and its messages join that group. */
  lemma GroupHoldsTwo(sequence: nat, frames: seq<seq<byte>>, last: seq<byte>, s: nat, id: nat)
    requires AllEncodable(frames) && |frames| == 32 && Encodable(last) && id < 4 && s % 32 == BitsAt(sequence, 32)
    ensures var received := AllFragments(sequence, frames) + Fragments(s, last);
            Gather(received, BitsAt(sequence, 0), id) == Piece(frames[0], id) + Piece(last, id)
  {
    assert BitsAt(sequence, 0) == s % 32 == BitsAt(s, 0);
    hide *;
    GatherConcat(AllFragments(sequence, frames), Fragments(s, last), BitsAt(sequence, 0), id);
    OwnFrameMatches(sequence, frames, 0, id);
    FrameGather(s, last, BitsAt(sequence, 0), id);
  }

  /** Thirty-two is the limit: with one frame more, the first group holds two frames and is longer than either. */
  lemma ThirtyThreeFramesCollide(sequence: nat, frames: seq<seq<byte>>, last: seq<byte>)
    requires AllEncodable(frames) && |frames| == 32 && Encodable(last)
    ensures |Reassemble(AllFragments(sequence, frames + [last]), BitsAt(sequence, 0))| == |frames[0]| + |last|
    ensures Reassemble(AllFragments(sequence, frames + [last]), BitsAt(sequence, 0)) != frames[0]
  {
    assert Encodable(frames[0]) && last != [];
    hide *;
    var s := AllFragmentsSnoc(sequence, frames, last);
    var received, bits := AllFragments(sequence, frames + [last]), BitsAt(sequence, 0);
    forall id | 0 <= id < 4 ensures Gather(received, bits, id) == Piece(frames[0], id) + Piece(last, id) {
      GroupHoldsTwo(sequence, frames, last, s, id);
    }
    FourPairs(received, bits, frames[0], last);
  }

  // ----- Runs of the encoder ---------------------------------------------------------------

  /** The frames of a list of calls that the encoder accepts. */
  function Accepted(calls: seq<seq<byte>>): (frames: seq<seq<byte>>)
    ensures AllEncodable(frames)
  {
    if calls == [] then []
    else if Encodable(calls[0]) then [calls[0]] + Accepted(calls[1..])
    else Accepted(calls[1..])
  }

  /** One call more: an accepted frame takes the next number, a rejected one takes none. */
  lemma OneCall(sequence: nat, calls: seq<seq<byte>>)
    requires calls != []
    ensures AllFragments(sequence, Accepted(calls))
         == if Encodable(calls[0]) then
              Fragments(sequence, calls[0]) + AllFragments((sequence + 1) % UINT32_END, Accepted(calls[1..]))
            else AllFragments(sequence, Accepted(calls[1..]))
  {
    hide Fragments;
    if Encodable(calls[0]) {
      assert Accepted(calls)[1..] == Accepted(calls[1..]);
    }
  }

  lemma CallStep(sent: seq<Fragment>, sequence: nat, calls: seq<seq<byte>>, i: nat)
    requires i < |calls|
    ensures sent + AllFragments(sequence, Accepted(calls[i..]))
         == if Encodable(calls[i]) then
              sent + Fragments(sequence, calls[i])
              + AllFragments((sequence + 1) % UINT32_END, Accepted(calls[i + 1..]))
            else sent + [] + AllFragments(sequence, Accepted(calls[i + 1..]))
  {
    OneCall(sequence, calls[i..]);
    assert calls[i..][0] == calls[i] && calls[i..][1..] == calls[i + 1..];
    hide *;
  }

  /** Whatever else was offered in between, the messages sent are those of the accepted frames in a row. */
  method EncodeAll(encoder: MavlinkRtcmEncoder, calls: seq<seq<byte>>) returns (sent: seq<Fragment>)
    requires encoder.Valid()
    modifies encoder
    ensures encoder.Valid()
    ensures sent == AllFragments(old(encoder.sequence), Accepted(calls))
  {
    hide AllFragments, Accepted, Fragments, Encodable;
    sent := [];
    ghost var all := AllFragments(encoder.sequence, Accepted(calls));
    assert calls[0..] == calls && [] + all == all;
    for i := 0 to |calls|
      invariant encoder.Valid()
      invariant all == sent + AllFragments(encoder.sequence, Accepted(calls[i..]))
    {
      CallStep(sent, encoder.sequence, calls, i);
      var status, fragments := encoder.Encode(calls[i]);
      sent := sent + fragments;
    }
    NoCalls(encoder.sequence);
    assert calls[|calls|..] == [] && sent + [] == sent;
  }

  lemma NoCalls(sequence: nat)
    ensures AllFragments(sequence, Accepted([])) == []
  {
  }
}
