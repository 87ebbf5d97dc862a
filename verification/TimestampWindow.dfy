/**
 The pruned timestamp sets behind the correction rates, `gnss_protocols/src/rtcm_correction_monitor.cpp`.
 A `std::multiset` is its elements in ascending order.
 */
module TimestampWindow {
  import opened Bits
  import opened Framing

  const INT64_MIN := -0x8000_0000_0000_0000

  predicate Sorted(s: seq<int>) {
    forall i, j :: 0 <= i <= j < |s| ==> s[i] <= s[j]
  }

  /** The index of the first element not below `x`. */
  function LowerBound(s: seq<int>, x: int): (k: nat)
    ensures k <= |s|
    ensures forall i :: 0 <= i < k ==> s[i] < x
    ensures k < |s| ==> s[k] >= x
  {
    if s == [] || s[0] >= x then 0 else LowerBound(s[1..], x) + 1
  }

  /** The index of the first element above `x`. */
  function UpperBound(s: seq<int>, x: int): (k: nat)
    ensures k <= |s|
    ensures forall i :: 0 <= i < k ==> s[i] <= x
    ensures k < |s| ==> s[k] > x
  {
    if s == [] || s[0] > x then 0 else UpperBound(s[1..], x) + 1
  }

  /** `multiset::insert` puts a new element behind its equals. */
  function Insert(s: seq<int>, x: int): seq<int> {
    var k := UpperBound(s, x);
    s[..k] + [x] + s[k..]
  }

  /** Everything older than the last element minus the retention is erased, unless that start underflows. */
  function Prune(retention: nat, grown: seq<int>): seq<int>
    requires grown != []
  {
    var latest := grown[|grown| - 1];
    if latest <= INT64_MIN + retention then grown else grown[LowerBound(grown, latest - retention)..]
  }

  function Append(retention: nat, held: seq<int>, ts: Timestamp): seq<int> {
    match ts
    case None => held
    case Some(t) => Prune(retention, Insert(held, t))
  }

  method AppendTimestamp(retention: nat, ts: Timestamp, timestamps: seq<int>) returns (kept: seq<int>)
    ensures kept == Append(retention, timestamps, ts)
  {
    kept := timestamps;
    if ts == None {
      return;
    }
    kept := Insert(kept, ts.value);
    var latest := kept[|kept| - 1];
    if latest <= INT64_MIN + retention {
      return;
    }
    var start := latest - retention;
    kept := kept[LowerBound(kept, start)..];
  }

  /** How many elements lie in a closed window; independent of their order. */
  function Count(s: seq<int>, from: int, to: int): (n: nat)
    ensures n <= |s|
  {
    if s == [] then 0
    else Count(s[..|s| - 1], from, to) + (if from <= s[|s| - 1] <= to then 1 else 0)
  }

  method CountTimestampsInWindow(timestamps: seq<int>, end: int, duration: int) returns (count: nat)
    requires Sorted(timestamps) && duration >= 0
    ensures count == Count(timestamps, end - duration, end)
  {
    var start := end - duration;
    var first, last := LowerBound(timestamps, start), UpperBound(timestamps, end);
    BoundsCount(timestamps, start, end);
    count := last - first;
  }

  /** No rate for a window that is empty or longer than the retention. */
  method ComputeRateHz(retention: nat, timestamps: seq<int>, end: int, duration: int) returns (rate: Option<real>)
    requires Sorted(timestamps)
    ensures rate.Some? <==> 0 < duration <= retention && timestamps != []
    ensures rate.Some? ==>
              rate.value == Count(timestamps, end - duration, end) as real / (duration as real / 1000000000.0)
  {
    if duration <= 0 || duration > retention {
      return None;
    }
    if timestamps == [] {
      return None;
    }
    var seconds := duration as real / 1000000000.0;
    var count := CountTimestampsInWindow(timestamps, end, duration);
    return Some(count as real / seconds);
  }

  lemma {:induction false} CountConcat(a: seq<int>, b: seq<int>, from: int, to: int)
    ensures Count(a + b, from, to) == Count(a, from, to) + Count(b, from, to)
  {
    if b == [] {
      assert a + b == a;
    } else {
      var n := |b| - 1;
      assert (a + b)[..|a| + n] == a + b[..n];
      CountConcat(a, b[..n], from, to);
    }
  }

  lemma CountOne(x: int, from: int, to: int)
    ensures Count([x], from, to) == if from <= x <= to then 1 else 0
  {
    assert [x][..0] == [];
  }

  lemma {:induction false} CountAll(s: seq<int>, from: int, to: int)
    requires forall i :: 0 <= i < |s| ==> from <= s[i] <= to
    ensures Count(s, from, to) == |s|
  {
    if s != [] {
      CountAll(s[..|s| - 1], from, to);
    }
  }

  lemma {:induction false} CountNone(s: seq<int>, from: int, to: int)
    requires forall i :: 0 <= i < |s| ==> !(from <= s[i] <= to)
    ensures Count(s, from, to) == 0
  {
    if s != [] {
      CountNone(s[..|s| - 1], from, to);
    }
  }

  lemma CountSplit(s: seq<int>, k: nat, from: int, to: int)
    requires k <= |s|
    ensures Count(s, from, to) == Count(s[..k], from, to) + Count(s[k..], from, to)
  {
    CountConcat(s[..k], s[k..], from, to);
    assert s[..k] + s[k..] == s;
  }

  lemma {:induction false} BoundsInOrder(s: seq<int>, from: int, to: int)
    requires from <= to
    ensures LowerBound(s, from) <= UpperBound(s, to)
  {
    if s != [] {
      BoundsInOrder(s[1..], from, to);
    }
  }

  lemma WindowIndices(s: seq<int>, from: int, to: int)
    requires Sorted(s) && from <= to
    ensures forall i :: 0 <= i < LowerBound(s, from) ==> s[i] < from
    ensures forall i :: LowerBound(s, from) <= i < UpperBound(s, to) ==> from <= s[i] <= to
    ensures forall i :: UpperBound(s, to) <= i < |s| ==> to < s[i]
  {
    hide LowerBound, UpperBound;
    var a, b := LowerBound(s, from), UpperBound(s, to);
    assert forall i :: a <= i < |s| ==> s[a] <= s[i];
    assert forall i :: b <= i < |s| ==> s[b] <= s[i];
  }

  lemma CountMiddle(s: seq<int>, a: nat, b: nat, from: int, to: int)
    requires a <= b <= |s|
    requires forall i :: 0 <= i < a ==> s[i] < from
    requires forall i :: a <= i < b ==> from <= s[i] <= to
    requires forall i :: b <= i < |s| ==> to < s[i]
    ensures Count(s, from, to) == b - a
  {
    hide Count;
    CountSplit(s, a, from, to);
    CountNone(s[..a], from, to);
    CountFront(s[a..], b - a, from, to);
  }

  /** The distance between the two bounds is the number of elements in the window. */
  lemma BoundsCount(s: seq<int>, from: int, to: int)
    requires Sorted(s) && from <= to
    ensures LowerBound(s, from) <= UpperBound(s, to)
    ensures UpperBound(s, to) - LowerBound(s, from) == Count(s, from, to)
  {
    hide *;
    BoundsInOrder(s, from, to);
    WindowIndices(s, from, to);
    CountMiddle(s, LowerBound(s, from), UpperBound(s, to), from, to);
  }

  lemma CountFront(s: seq<int>, k: nat, from: int, to: int)
    requires k <= |s|
    requires forall i :: 0 <= i < k ==> from <= s[i] <= to
    requires forall i :: k <= i < |s| ==> to < s[i]
    ensures Count(s, from, to) == k
  {
    hide Count;
    CountSplit(s, k, from, to);
    CountAll(s[..k], from, to);
    CountNone(s[k..], from, to);
  }

  predicate Bounded(s: seq<int>) {
    forall i :: 0 <= i < |s| ==> INT64_MIN <= s[i]
  }

  lemma InsertFacts(s: seq<int>, x: int)
    requires Sorted(s)
    ensures Sorted(Insert(s, x)) && |Insert(s, x)| == |s| + 1
    ensures Insert(s, x)[|s|] == if s == [] || x >= s[|s| - 1] then x else s[|s| - 1]
    ensures Bounded(s) && INT64_MIN <= x ==> Bounded(Insert(s, x))
  {
    hide UpperBound;
  }

  lemma InsertCount(s: seq<int>, x: int, from: int, to: int)
    ensures Count(Insert(s, x), from, to) == Count(s, from, to) + (if from <= x <= to then 1 else 0)
  {
    var k := UpperBound(s, x);
    hide Count, UpperBound;
    CountSplit(s, k, from, to);
    CountOne(x, from, to);
    CountConcat(s[..k] + [x], s[k..], from, to);
    CountConcat(s[..k], [x], from, to);
  }

  function Raised(from: int, start: int): int {
    if from < start then start else from
  }

  lemma DropCount(s: seq<int>, start: int, from: int, to: int)
    requires Sorted(s)
    ensures Count(s[LowerBound(s, start)..], from, to) == Count(s, Raised(from, start), to)
  {
    var k := LowerBound(s, start);
    hide Count, LowerBound;
    CountSplit(s, k, Raised(from, start), to);
    CountNone(s[..k], Raised(from, start), to);
    SameCount(s[k..], from, Raised(from, start), to);
  }

  lemma {:induction false} SameCount(s: seq<int>, from: int, from': int, to: int)
    requires forall i :: 0 <= i < |s| ==> (from <= s[i] <==> from' <= s[i])
    ensures Count(s, from, to) == Count(s, from', to)
  {
    if s != [] {
      SameCount(s[..|s| - 1], from, from', to);
    }
  }

  // ----- The retained set against the full history -----------------------------------------

  /** Everything retained after a list of arrivals, in whatever order they came. */
  function AppendAll(retention: nat, arrivals: seq<Timestamp>): seq<int> {
    if arrivals == [] then []
    else Append(retention, AppendAll(retention, arrivals[..|arrivals| - 1]), arrivals[|arrivals| - 1])
  }

  /** The full history: the arrivals that carried a timestamp. */
  function History(arrivals: seq<Timestamp>): seq<int> {
    if arrivals == [] then []
    else
      var n := |arrivals| - 1;
      History(arrivals[..n]) + (if arrivals[n].Some? then [arrivals[n].value] else [])
  }

  /** The latest of a history that is not empty. */
  function Latest(history: seq<int>): int
    requires history != []
  {
    var n := |history| - 1;
    if n == 0 || history[n] >= Latest(history[..n]) then history[n] else Latest(history[..n])
  }

  lemma {:induction false} LatestIsMaximum(history: seq<int>)
    requires history != []
    ensures Latest(history) in history && forall i :: 0 <= i < |history| ==> history[i] <= Latest(history)
  {
    if |history| > 1 {
      LatestIsMaximum(history[..|history| - 1]);
    }
  }

  predicate In64Bits(arrivals: seq<Timestamp>) {
    forall i :: 0 <= i < |arrivals| && arrivals[i].Some? ==> INT64_MIN <= arrivals[i].value
  }

  lemma LatestStep(history: seq<int>, t: int)
    ensures Latest(history + [t]) == if history == [] || t >= Latest(history) then t else Latest(history)
  {
    assert (history + [t])[..|history|] == history;
  }

  lemma PruneFacts(retention: nat, grown: seq<int>)
    requires Sorted(grown) && Bounded(grown) && grown != []
    ensures var kept := Prune(retention, grown);
            && Sorted(kept) && Bounded(kept) && kept != []
            && kept[|kept| - 1] == grown[|grown| - 1]
  {
    hide LowerBound;
  }

  lemma PruneCases(retention: nat, grown: seq<int>, start: int)
    requires grown != [] && start == grown[|grown| - 1] - retention
    ensures start <= INT64_MIN ==> Prune(retention, grown) == grown
    ensures start > INT64_MIN ==> Prune(retention, grown) == grown[LowerBound(grown, start)..]
  {
  }

  lemma SameAbove(s: seq<int>, start: int, from: int, to: int)
    requires Bounded(s) && start <= INT64_MIN
    ensures Count(s, from, to) == Count(s, Raised(from, start), to)
  {
    hide Count;
    SameCount(s, from, Raised(from, start), to);
  }

  /** Pruning cuts every window off at the retention start. */
  lemma PruneCount(retention: nat, grown: seq<int>, start: int, from: int, to: int)
    requires Sorted(grown) && Bounded(grown) && grown != [] && start == grown[|grown| - 1] - retention
    ensures Count(Prune(retention, grown), from, to) == Count(grown, Raised(from, start), to)
  {
    hide *;
    PruneCases(retention, grown, start);
    if start <= INT64_MIN {
      SameAbove(grown, start, from, to);
    } else {
      DropCount(grown, start, from, to);
    }
  }

  /** What holds of a retained set and the history it comes from. */
  predicate Retains(held: seq<int>, history: seq<int>) {
    && Sorted(held) && Bounded(held)
    && (held == [] <==> history == [])
    && (history != [] ==> held[|held| - 1] == Latest(history))
  }

  lemma RetainsStep(retention: nat, held: seq<int>, history: seq<int>, t: int)
    requires Retains(held, history) && INT64_MIN <= t
    ensures Retains(Append(retention, held, Some(t)), history + [t])
    ensures Insert(held, t) != [] && Insert(held, t)[|held|] == Latest(history + [t])
    ensures |Insert(held, t)| == |held| + 1 && Sorted(Insert(held, t)) && Bounded(Insert(held, t))
  {
    InsertFacts(held, t);
    LatestStep(history, t);
    PruneFacts(retention, Insert(held, t));
    hide Insert, Prune, Latest, Sorted, Bounded;
  }

  lemma NothingRetained(held: seq<int>, history: seq<int>)
    requires Retains(held, history) && history == []
    ensures held == []
  {
  }

  lemma AppendSome(retention: nat, held: seq<int>, t: int)
    ensures Insert(held, t) != [] && Append(retention, held, Some(t)) == Prune(retention, Insert(held, t))
  {
  }

  lemma AppendNone(retention: nat, held: seq<int>)
    ensures Append(retention, held, None) == held
  {
  }

  /** The retained set is sorted, and it always holds the latest timestamp. */
  lemma {:induction false} RetainedFacts(retention: nat, arrivals: seq<Timestamp>)
    requires In64Bits(arrivals)
    ensures Retains(AppendAll(retention, arrivals), History(arrivals))
  {
    if arrivals != [] {
      var n := |arrivals| - 1;
      RetainedFacts(retention, arrivals[..n]);
      hide Append, Retains;
      if arrivals[n].Some? {
        RetainsStep(retention, AppendAll(retention, arrivals[..n]), History(arrivals[..n]), arrivals[n].value);
      } else {
        AppendNone(retention, AppendAll(retention, arrivals[..n]));
        assert History(arrivals[..n]) + [] == History(arrivals[..n]);
      }
    }
  }

  lemma CountStep(retention: nat, held: seq<int>, history: seq<int>, t: int, from: int, to: int)
    requires Retains(held, history) && INT64_MIN <= t
    requires var raised := Raised(from, Latest(history + [t]) - retention);
             Count(held, raised, to) == Count(history, raised, to)
    ensures Count(Append(retention, held, Some(t)), from, to)
         == Count(history + [t], Raised(from, Latest(history + [t]) - retention), to)
  {
    hide *;
    var raised := Raised(from, Latest(history + [t]) - retention);
    RetainsStep(retention, held, history, t);
    AppendSome(retention, held, t);
    PruneCount(retention, Insert(held, t), Latest(history + [t]) - retention, from, to);
    InsertCount(held, t, raised, to);
    ExtendedCount(history, t, raised, to);
  }

  lemma ExtendedCount(history: seq<int>, t: int, from: int, to: int)
    ensures Count(history + [t], from, to) == Count(history, from, to) + (if from <= t <= to then 1 else 0)
  {
    CountConcat(history, [t], from, to);
    CountOne(t, from, to);
  }

  /**
   Out-of-order arrivals included: the retained set has, in every window, exactly the timestamps of
   the whole history that are no older than the latest minus the retention.
   */
  lemma {:induction false} RetainedCount(retention: nat, arrivals: seq<Timestamp>, from: int, to: int)
    requires In64Bits(arrivals) && History(arrivals) != []
    ensures Count(AppendAll(retention, arrivals), from, to)
         == Count(History(arrivals), Raised(from, Latest(History(arrivals)) - retention), to)
    decreases |arrivals|
  {
    assert arrivals != [];
    In64BitsPrefix(arrivals);
    LastArrival(retention, arrivals);
    hide *;
    var n := |arrivals| - 1;
    var before := arrivals[..n];
    var held, history := AppendAll(retention, before), History(before);
    RetainedFacts(retention, before);
    if arrivals[n] == None {
      RetainedCount(retention, before, from, to);
    } else {
      var t := arrivals[n].value;
      if history == [] {
        NothingRetained(held, history);
      } else {
        var raised := Raised(from, Latest(history + [t]) - retention);
        RetainedCount(retention, before, raised, to);
        StartsRise(history, t, retention, from);
      }
      CountStep(retention, held, history, t, from, to);
    }
  }

  lemma In64BitsPrefix(arrivals: seq<Timestamp>)
    requires In64Bits(arrivals) && arrivals != []
    ensures In64Bits(arrivals[..|arrivals| - 1])
    ensures var last := arrivals[|arrivals| - 1]; last.Some? ==> INT64_MIN <= last.value
  {
  }

  lemma LastArrival(retention: nat, arrivals: seq<Timestamp>)
    requires arrivals != []
    ensures var before, last := arrivals[..|arrivals| - 1], arrivals[|arrivals| - 1];
            && AppendAll(retention, arrivals) == Append(retention, AppendAll(retention, before), last)
            && (last == None ==> AppendAll(retention, arrivals) == AppendAll(retention, before))
            && History(arrivals) == if last.Some? then History(before) + [last.value] else History(before)
  {
    hide Insert, Prune;
    var before := arrivals[..|arrivals| - 1];
    assert History(before) + [] == History(before);
  }

  lemma StartsRise(history: seq<int>, t: int, retention: nat, from: int)
    requires history != []
    ensures var raised := Raised(from, Latest(history + [t]) - retention);
            Raised(raised, Latest(history) - retention) == raised
  {
    LatestStep(history, t);
    hide Latest;
  }

  /** A window that starts inside the retained range has the same count as the unpruned history. */
  lemma WindowAgreesWithHistory(retention: nat, arrivals: seq<Timestamp>, from: int, to: int)
    requires In64Bits(arrivals) && History(arrivals) != []
    requires from >= Latest(History(arrivals)) - retention
    ensures Count(AppendAll(retention, arrivals), from, to) == Count(History(arrivals), from, to)
  {
    RetainedCount(retention, arrivals, from, to);
  }

  /**
   In general the counts agree exactly when the window holds nothing of the history that is older
   than the retained range.
   */
  lemma WindowAgreesIff(retention: nat, arrivals: seq<Timestamp>, from: int, to: int)
    requires In64Bits(arrivals) && History(arrivals) != []
    ensures var history := History(arrivals);
            Count(AppendAll(retention, arrivals), from, to) == Count(history, from, to)
            <==> NothingOlder(history, from, Latest(history) - retention, to)
  {
    var history, start := History(arrivals), Latest(History(arrivals)) - retention;
    RetainedCount(retention, arrivals, from, to);
    hide *;
    CountTail(history, from, start, to);
  }

  /** No element of the window is below `start`. */
  predicate NothingOlder(s: seq<int>, from: int, start: int, to: int) {
    forall i :: 0 <= i < |s| && from <= s[i] <= to ==> s[i] >= start
  }

  lemma {:induction false} CountTail(s: seq<int>, from: int, start: int, to: int)
    ensures Count(s, Raised(from, start), to) <= Count(s, from, to)
    ensures Count(s, Raised(from, start), to) == Count(s, from, to) <==> NothingOlder(s, from, start, to)
  {
    if s != [] {
      var n := |s| - 1;
      CountTail(s[..n], from, start, to);
      assert NothingOlder(s, from, start, to)
        <==> NothingOlder(s[..n], from, start, to) && (from <= s[n] <= to ==> s[n] >= start);
    }
  }

  /**
   As multisets: the retained elements are those of the history that are not older than the retention
   before the latest, which is the maximum of the history, whatever the order of arrival.
   */
  lemma RetainedMultiset(retention: nat, arrivals: seq<Timestamp>, x: int)
    requires In64Bits(arrivals) && History(arrivals) != []
    ensures multiset(AppendAll(retention, arrivals))[x]
         == if x >= Latest(History(arrivals)) - retention then multiset(History(arrivals))[x] else 0
    ensures Latest(History(arrivals)) in History(arrivals)
    ensures forall t :: t in History(arrivals) ==> t <= Latest(History(arrivals))
  {
    var history, start := History(arrivals), Latest(History(arrivals)) - retention;
    LatestIsMaximum(history);
    RetainedCount(retention, arrivals, x, x);
    hide *;
    MultiplicityFromCounts(AppendAll(retention, arrivals), history, start, x);
  }

  lemma MultiplicityFromCounts(held: seq<int>, history: seq<int>, start: int, x: int)
    requires Count(held, x, x) == Count(history, Raised(x, start), x)
    ensures multiset(held)[x] == if x >= start then multiset(history)[x] else 0
  {
    hide Count;
    CountIsMultiplicity(held, x);
    CountIsMultiplicity(history, x);
    if x < start {
      CountNone(history, start, x);
    }
  }

  lemma {:induction false} CountIsMultiplicity(s: seq<int>, x: int)
    ensures Count(s, x, x) == multiset(s)[x]
  {
    if s != [] {
      var n := |s| - 1;
      CountIsMultiplicity(s[..n], x);
      assert s == s[..n] + [s[n]];
    }
  }
}
