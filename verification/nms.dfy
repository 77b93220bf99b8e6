/**
  Greedy non-maximum suppression (`nms`). The candidates are sorted by
  descending score; then, while candidates remain, the first one is
  accepted and every other remaining candidate whose IoU with it is above
  the threshold is dropped. The source works on a list of indices into the
  sorted candidates; so does the model.
 */
module Nms {
  import opened Numeric
  import opened SeqUtil
  import opened Config

  // ----- Sorting -----

  /** Non-increasing by score: the order the comparator `a.score > b.score` sorts into. */
  predicate SortedByScore(s: seq<FaceInfo>)
  {
    forall i, j :: 0 <= i < j < |s| ==> s[i].score >= s[j].score
  }

  /** Insert a candidate into a score-sorted list, before the first entry
      whose score is not above its own. */
  function Insert(x: FaceInfo, t: seq<FaceInfo>): (r: seq<FaceInfo>)
    ensures |r| == |t| + 1
  {
    if |t| == 0 || x.score >= t[0].score then [x] + t
    else [t[0]] + Insert(x, t[1..])
  }

  /** Inserting adds exactly the one candidate. */
  lemma {:induction false} InsertPermutes(x: FaceInfo, t: seq<FaceInfo>)
    ensures multiset(Insert(x, t)) == multiset(t) + multiset{x}
  {
    if 0 < |t| && x.score < t[0].score {
      InsertPermutes(x, t[1..]);
      assert t == [t[0]] + t[1..];
      assert multiset(t) == multiset{t[0]} + multiset(t[1..]);
    }
  }

  /** Inserting into a sorted list keeps it sorted; the candidate lands in
      front or behind the old head. */
  lemma {:induction false} InsertSorted(x: FaceInfo, t: seq<FaceInfo>)
    requires SortedByScore(t)
    ensures SortedByScore(Insert(x, t))
    ensures Insert(x, t)[0] == x || (0 < |t| && Insert(x, t)[0] == t[0])
  {
    if |t| == 0 || x.score >= t[0].score {
      ConsSorted(x, t);
    } else {
      var tail := t[1..];
      SortedTail(t);
      InsertSorted(x, tail);
      ConsSorted(t[0], Insert(x, tail));
    }
  }

  /** The tail of a sorted list is sorted and starts no higher than the head. */
  lemma SortedTail(t: seq<FaceInfo>)
    requires 0 < |t| && SortedByScore(t)
    ensures SortedByScore(t[1..])
    ensures 1 < |t| ==> t[1..][0].score <= t[0].score
  {
    assert forall i :: 0 <= i < |t| - 1 ==> t[1..][i] == t[i + 1];
  }

  /** A candidate scoring at least the head of a sorted list can go in front. */
  lemma ConsSorted(h: FaceInfo, t: seq<FaceInfo>)
    requires SortedByScore(t) && (0 < |t| ==> t[0].score <= h.score)
    ensures SortedByScore([h] + t)
  {
    var r := [h] + t;
    forall i, j | 0 <= i < j < |r|
      ensures r[i].score >= r[j].score
    {
      if i == 0 {
        assert r[j] == t[j - 1];
        assert t[0].score >= t[j - 1].score || j == 1;
      } else {
        assert r[i] == t[i - 1] && r[j] == t[j - 1];
      }
    }
  }

  /** The sort of the candidates. `std::sort` leaves the order of equal
      scores unspecified; this sort fixes one choice (it is stable: of two
      equal scores, the earlier input comes first). Every property below
      that matters holds for ANY score-sorted permutation. */
  function SortByScore(s: seq<FaceInfo>): (r: seq<FaceInfo>)
    ensures |r| == |s|
  {
    if |s| == 0 then [] else Insert(s[0], SortByScore(s[1..]))
  }

  /** The sort returns a permutation of its input. */
  lemma {:induction false} SortPermutes(s: seq<FaceInfo>)
    ensures multiset(SortByScore(s)) == multiset(s)
  {
    if |s| > 0 {
      SortPermutes(s[1..]);
      InsertPermutes(s[0], SortByScore(s[1..]));
      assert s == [s[0]] + s[1..];
      assert multiset(s) == multiset{s[0]} + multiset(s[1..]);
    }
  }

  /** The sort's output is non-increasing in score. */
  lemma {:induction false} SortSorted(s: seq<FaceInfo>)
    ensures SortedByScore(SortByScore(s))
  {
    if |s| > 0 {
      SortSorted(s[1..]);
      InsertSorted(s[0], SortByScore(s[1..]));
    }
  }

  /** The sort returns a permutation of its input that is sorted by score. */
  lemma SortSpec(s: seq<FaceInfo>)
    ensures SortedByScore(SortByScore(s))
    ensures multiset(SortByScore(s)) == multiset(s)
  {
    SortPermutes(s);
    SortSorted(s);
  }

  /** Sorting an already sorted list changes nothing, ties included: the
      insertion sort is stable. */
  lemma {:induction false} SortOfSorted(s: seq<FaceInfo>)
    requires SortedByScore(s)
    ensures SortByScore(s) == s
  {
    if |s| > 0 {
      SortedTail(s);
      SortOfSorted(s[1..]);
      assert [s[0]] + s[1..] == s;
    }
  }

  // ----- Overlap -----

  /** Area of the overlap of two boxes (zero when they do not overlap). */
  function Intersection(a: FaceInfo, b: FaceInfo): real
  {
    var w := MaxReal(0.0, MinReal(a.x + a.width, b.x + b.width) - MaxReal(a.x, b.x));
    var h := MaxReal(0.0, MinReal(a.y + a.height, b.y + b.height) - MaxReal(a.y, b.y));
    w * h
  }

  function Area(a: FaceInfo): real
  {
    a.width * a.height
  }

  /** Whether accepting `good` drops `other`: the loop keeps `other` only
      when `iou <= threshold`, with `iou = inter / (area1 + area2 - inter)`.
      The overlap is never negative, so a zero denominator gives NaN (0 / 0)
      or +infinity, and neither compares `<=` the threshold: such a
      candidate is dropped. */
  function Suppresses(good: FaceInfo, other: FaceInfo, threshold: real): (drop: bool)
    ensures Area(good) + Area(other) - Intersection(good, other) != 0.0 ==>
              (drop <==> Intersection(good, other) / (Area(good) + Area(other) - Intersection(good, other)) > threshold)
    ensures Area(good) + Area(other) - Intersection(good, other) == 0.0 ==> drop
  {
    var inter := Intersection(good, other);
    var denom := Area(good) + Area(other) - inter;
    denom == 0.0 || inter / denom > threshold
  }

  /** A box of zero width or zero height overlaps nothing. */
  lemma FlatOverlapsNothing(a: FaceInfo, b: FaceInfo)
    requires Area(a) == 0.0
    ensures Intersection(a, b) == 0.0 && Intersection(b, a) == 0.0
  {
    assert a.width == 0.0 || a.height == 0.0;
  }

  /** Two boxes of zero area are always dropped against each other, wherever
      they lie: the IoU is 0 / 0, which never compares `<=` the threshold. */
  lemma FlatBoxesDropped(good: FaceInfo, other: FaceInfo, threshold: real)
    requires Area(good) == 0.0 && Area(other) == 0.0
    ensures Suppresses(good, other, threshold)
  {
    FlatOverlapsNothing(good, other);
  }

  /** A box of zero area next to an accepted box of positive area has IoU 0,
      so it is dropped exactly when the threshold is negative. */
  lemma FlatBoxKept(good: FaceInfo, other: FaceInfo, threshold: real)
    requires Area(good) > 0.0 && Area(other) == 0.0
    ensures Suppresses(good, other, threshold) <==> threshold < 0.0
  {
    FlatOverlapsNothing(other, good);
  }

  /** Overlap and hence suppression do not depend on which box was accepted. */
  lemma SuppressesSymmetric(a: FaceInfo, b: FaceInfo, threshold: real)
    ensures Suppresses(a, b, threshold) == Suppresses(b, a, threshold)
  {
    assert MinReal(a.x + a.width, b.x + b.width) == MinReal(b.x + b.width, a.x + a.width);
    assert MaxReal(a.x, b.x) == MaxReal(b.x, a.x);
    assert MinReal(a.y + a.height, b.y + b.height) == MinReal(b.y + b.height, a.y + a.height);
    assert MaxReal(a.y, b.y) == MaxReal(b.y, a.y);
    assert Intersection(a, b) == Intersection(b, a);
  }

  /** The suppression test of one threshold, as a relation. */
  function Drops(threshold: real): (FaceInfo, FaceInfo) -> bool
  {
    (good: FaceInfo, other: FaceInfo) => Suppresses(good, other, threshold)
  }

  // ----- The index rounds -----

  // The rounds are stated for any suppression relation `drop`: they only
  // ever ask whether the accepted candidate drops another one.

  predicate IndicesBelow(p: seq<nat>, n: nat)
  {
    forall k :: 0 <= k < |p| ==> p[k] < n
  }

  /** One round's survivors: the remaining indices, in order, whose
      candidate the accepted candidate `s[good]` does not drop. */
  function Survivors(s: seq<FaceInfo>, good: nat, rest: seq<nat>, drop: (FaceInfo, FaceInfo) -> bool): (r: seq<nat>)
    requires good < |s| && IndicesBelow(rest, |s|)
    ensures IndicesBelow(r, |s|)
    ensures 0 < |r| ==> 0 < |rest|
    ensures StrictlyIncreasing(rest) ==> StrictlyIncreasing(r)
    ensures StrictlyIncreasing(rest) && 0 < |r| ==> rest[0] <= r[0] && r[|r| - 1] <= rest[|rest| - 1]
    ensures |r| <= |rest|
  {
    if |rest| == 0 then []
    else
      var last := rest[|rest| - 1];
      var prev := Survivors(s, good, rest[..|rest| - 1], drop);
      if drop(s[good], s[last]) then prev else prev + [last]
  }

  /** An index survives the round exactly when it was remaining and the
      accepted candidate does not drop its candidate. */
  lemma {:induction false} SurvivorsMember(s: seq<FaceInfo>, good: nat, rest: seq<nat>, drop: (FaceInfo, FaceInfo) -> bool, x: nat)
    requires good < |s| && IndicesBelow(rest, |s|)
    ensures x in Survivors(s, good, rest, drop) <==> x in rest && x < |s| && !drop(s[good], s[x])
  {
    if |rest| > 0 {
      var init := rest[..|rest| - 1];
      SurvivorsMember(s, good, init, drop, x);
      assert rest == init + [rest[|rest| - 1]];
    }
  }

  /** The accepted indices: accept the first pending index, keep the
      survivors of its round, repeat until nothing is pending. Each round
      removes at least the accepted index, so the rounds end. */
  function Rounds(s: seq<FaceInfo>, pending: seq<nat>, drop: (FaceInfo, FaceInfo) -> bool): (acc: seq<nat>)
    requires IndicesBelow(pending, |s|) && StrictlyIncreasing(pending)
    ensures IndicesBelow(acc, |s|)
    ensures StrictlyIncreasing(acc)
    ensures |acc| <= |pending|
    ensures |pending| > 0 ==> |acc| > 0 && acc[0] == pending[0]
    decreases |pending|
  {
    if |pending| == 0 then []
    else
      var good := pending[0];
      [good] + Rounds(s, Survivors(s, good, pending[1..], drop), drop)
  }

  /** Only pending indices are accepted. */
  lemma {:induction false} RoundsSubset(s: seq<FaceInfo>, pending: seq<nat>, drop: (FaceInfo, FaceInfo) -> bool, x: nat)
    requires IndicesBelow(pending, |s|) && StrictlyIncreasing(pending)
    requires x in Rounds(s, pending, drop)
    ensures x in pending
    decreases |pending|
  {
    var good := pending[0];
    var surv := Survivors(s, good, pending[1..], drop);
    if x != good {
      assert x in Rounds(s, surv, drop);
      RoundsSubset(s, surv, drop, x);
      SurvivorsMember(s, good, pending[1..], drop, x);
    }
  }

  /** No accepted candidate drops a candidate accepted after it. */
  lemma {:induction false} RoundsNoSuppression(s: seq<FaceInfo>, pending: seq<nat>, drop: (FaceInfo, FaceInfo) -> bool)
    requires IndicesBelow(pending, |s|) && StrictlyIncreasing(pending)
    ensures forall i, j :: 0 <= i < j < |Rounds(s, pending, drop)| ==>
              !drop(s[Rounds(s, pending, drop)[i]], s[Rounds(s, pending, drop)[j]])
    decreases |pending|
  {
    if |pending| > 0 {
      var good := pending[0];
      var surv := Survivors(s, good, pending[1..], drop);
      var acc := Rounds(s, pending, drop);
      var tail := Rounds(s, surv, drop);
      RoundsNoSuppression(s, surv, drop);
      assert acc == [good] + tail;
      forall i, j | 0 <= i < j < |acc|
        ensures !drop(s[acc[i]], s[acc[j]])
      {
        assert acc[j] == tail[j - 1];
        if i > 0 {
          assert acc[i] == tail[i - 1];
          assert !drop(s[tail[i - 1]], s[tail[j - 1]]);
        } else {
          assert tail[j - 1] in tail;
          RoundsSubset(s, surv, drop, tail[j - 1]);
          SurvivorsMember(s, good, pending[1..], drop, tail[j - 1]);
          assert !drop(s[good], s[tail[j - 1]]);
        }
      }
    }
  }

  /** Every pending index that is not accepted was dropped by an accepted
      index that comes before it. */
  lemma {:induction false} RoundsDropJustified(s: seq<FaceInfo>, pending: seq<nat>, drop: (FaceInfo, FaceInfo) -> bool, d: nat)
    requires IndicesBelow(pending, |s|) && StrictlyIncreasing(pending)
    requires d in pending && d !in Rounds(s, pending, drop)
    ensures exists a :: a in Rounds(s, pending, drop) && a < d && drop(s[a], s[d])
    decreases |pending|
  {
    var good := pending[0];
    var rest := pending[1..];
    var surv := Survivors(s, good, rest, drop);
    var acc := Rounds(s, pending, drop);
    assert acc == [good] + Rounds(s, surv, drop);
    var k :| 0 <= k < |pending| && pending[k] == d;
    assert k != 0;
    assert rest[k - 1] == d;
    if drop(s[good], s[d]) {
      assert good in acc && good < d;
    } else {
      SurvivorsMember(s, good, rest, drop, d);
      RoundsDropJustified(s, surv, drop, d);
      var a :| a in Rounds(s, surv, drop) && a < d && drop(s[a], s[d]);
      assert a in acc;
    }
  }

  lemma {:induction false} SurvivorsKeepAll(s: seq<FaceInfo>, good: nat, rest: seq<nat>, drop: (FaceInfo, FaceInfo) -> bool)
    requires good < |s| && IndicesBelow(rest, |s|)
    requires forall k :: 0 <= k < |rest| ==> !drop(s[good], s[rest[k]])
    ensures Survivors(s, good, rest, drop) == rest
  {
    if |rest| > 0 {
      SurvivorsKeepAll(s, good, rest[..|rest| - 1], drop);
      assert rest[..|rest| - 1] + [rest[|rest| - 1]] == rest;
    }
  }

  /** No pending candidate drops a later one. */
  predicate Separated(s: seq<FaceInfo>, pending: seq<nat>, drop: (FaceInfo, FaceInfo) -> bool)
    requires IndicesBelow(pending, |s|)
  {
    forall i, j :: 0 <= i < j < |pending| ==> !drop(s[pending[i]], s[pending[j]])
  }

  /** Separation passes to the tail, and the head drops none of the tail. */
  lemma SeparatedTail(s: seq<FaceInfo>, pending: seq<nat>, drop: (FaceInfo, FaceInfo) -> bool)
    requires 0 < |pending| && IndicesBelow(pending, |s|) && StrictlyIncreasing(pending)
    requires Separated(s, pending, drop)
    ensures IndicesBelow(pending[1..], |s|) && StrictlyIncreasing(pending[1..])
    ensures Separated(s, pending[1..], drop)
    ensures forall k :: 0 <= k < |pending[1..]| ==> !drop(s[pending[0]], s[pending[1..][k]])
  {
    var rest := pending[1..];
    forall k | 0 <= k < |rest|
      ensures !drop(s[pending[0]], s[rest[k]])
    {
      assert rest[k] == pending[k + 1];
    }
    forall i, j | 0 <= i < j < |rest|
      ensures !drop(s[rest[i]], s[rest[j]])
    {
      assert rest[i] == pending[i + 1] && rest[j] == pending[j + 1];
    }
  }

  /** A round that keeps every other index, followed by rounds that accept
      all of them, accepts everything. */
  lemma KeepAllStep(s: seq<FaceInfo>, pending: seq<nat>, drop: (FaceInfo, FaceInfo) -> bool)
    requires 0 < |pending| && IndicesBelow(pending, |s|) && StrictlyIncreasing(pending)
    requires Survivors(s, pending[0], pending[1..], drop) == pending[1..]
    requires Rounds(s, pending[1..], drop) == pending[1..]
    ensures Rounds(s, pending, drop) == pending
  {
    assert [pending[0]] + pending[1..] == pending;
  }

  /** When no pending candidate drops a later one, every round keeps all
      the others and everything is accepted. */
  lemma {:induction false} RoundsKeepAll(s: seq<FaceInfo>, pending: seq<nat>, drop: (FaceInfo, FaceInfo) -> bool)
    requires IndicesBelow(pending, |s|) && StrictlyIncreasing(pending)
    requires Separated(s, pending, drop)
    ensures Rounds(s, pending, drop) == pending
    decreases |pending|
  {
    if |pending| > 0 {
      var rest := pending[1..];
      SeparatedTail(s, pending, drop);
      SurvivorsKeepAll(s, pending[0], rest, drop);
      RoundsKeepAll(s, rest, drop);
      KeepAllStep(s, pending, drop);
    }
  }

  // ----- The whole suppression -----

  /** The candidates at the given positions, in that order. */
  function Pick(s: seq<FaceInfo>, idx: seq<nat>): (r: seq<FaceInfo>)
    requires IndicesBelow(idx, |s|)
    ensures |r| == |idx|
  {
    seq(|idx|, k requires 0 <= k < |idx| => s[idx[k]])
  }

  /** The reference definition of `nms`: nothing for no input; otherwise
      the sorted candidates at the accepted positions. */
  function Suppress(inputs: seq<FaceInfo>, threshold: real): seq<FaceInfo>
  {
    if |inputs| == 0 then []
    else
      var s := SortByScore(inputs);
      Pick(s, Rounds(s, Range(|s|), Drops(threshold)))
  }

  /** A prefix of an index list is still an index list. */
  lemma SliceBelow(p: seq<nat>, n: nat, j: nat)
    requires IndicesBelow(p, n) && j <= |p|
    ensures IndicesBelow(p[..j], n)
  {
    assert forall k :: 0 <= k < j ==> p[..j][k] == p[k];
  }

  /** So is the list without its first index. */
  lemma TailBelow(p: seq<nat>, n: nat)
    requires IndicesBelow(p, n) && 0 < |p|
    ensures IndicesBelow(p[1..], n)
  {
    assert forall k :: 0 <= k < |p| - 1 ==> p[1..][k] == p[k + 1];
  }

  /** Extending the remaining prefix by one index keeps that index exactly
      when the accepted candidate does not drop it. */
  lemma SurvivorsExtend(s: seq<FaceInfo>, good: nat, rest: seq<nat>, j: nat, drop: (FaceInfo, FaceInfo) -> bool)
    requires good < |s| && IndicesBelow(rest, |s|) && j < |rest|
    ensures IndicesBelow(rest[..j], |s|) && IndicesBelow(rest[..j + 1], |s|)
    ensures Survivors(s, good, rest[..j + 1], drop) ==
            Survivors(s, good, rest[..j], drop) + (if drop(s[good], s[rest[j]]) then [] else [rest[j]])
  {
    assert forall k :: 0 <= k <= j ==> rest[..j + 1][k] == rest[k];
    assert rest[..j + 1][..j] == rest[..j];
  }

  /** One round of `nms` as written: walk the remaining indices after the
      accepted one and move those it does not drop into a fresh list. */
  method SurvivorsLoop(sorted: seq<FaceInfo>, tmp: seq<nat>, drop: (FaceInfo, FaceInfo) -> bool) returns (indexes: seq<nat>)
    requires 0 < |tmp| && IndicesBelow(tmp, |sorted|)
    ensures indexes == Survivors(sorted, tmp[0], tmp[1..], drop)
  {
    var good := tmp[0];
    ghost var rest := tmp[1..];
    TailBelow(tmp, |sorted|);
    SliceBelow(rest, |sorted|, 0);
    indexes := [];
    var j := 1;
    while j < |tmp|
      invariant 1 <= j <= |tmp|
      invariant IndicesBelow(rest[..j - 1], |sorted|)
      invariant indexes == Survivors(sorted, good, rest[..j - 1], drop)
    {
      var other := tmp[j];
      assert rest[j - 1] == other;
      SurvivorsExtend(sorted, good, rest, j - 1, drop);
      if !drop(sorted[good], sorted[other]) {
        indexes := indexes + [other];
      }
      j := j + 1;
    }
    assert rest[..j - 1] == rest;
  }

  /** One round of the reference rounds: accept the first pending index,
      then continue with its survivors. */
  lemma RoundsUnfold(s: seq<FaceInfo>, pending: seq<nat>, drop: (FaceInfo, FaceInfo) -> bool)
    requires 0 < |pending| && IndicesBelow(pending, |s|) && StrictlyIncreasing(pending)
    ensures Rounds(s, pending, drop) ==
            [pending[0]] + Rounds(s, Survivors(s, pending[0], pending[1..], drop), drop)
  {
  }

  lemma AppendAssoc(a: seq<nat>, b: seq<nat>, c: seq<nat>)
    ensures a + (b + c) == (a + b) + c
  {
  }

  /** One round moves the accepted index from the pending rounds to the
      accepted prefix. */
  lemma RoundsStep(s: seq<FaceInfo>, pending: seq<nat>, drop: (FaceInfo, FaceInfo) -> bool, accepted: seq<nat>)
    requires 0 < |pending| && IndicesBelow(pending, |s|) && StrictlyIncreasing(pending)
    ensures accepted + Rounds(s, pending, drop) ==
            (accepted + [pending[0]]) + Rounds(s, Survivors(s, pending[0], pending[1..], drop), drop)
  {
    RoundsUnfold(s, pending, drop);
    AppendAssoc(accepted, [pending[0]], Rounds(s, Survivors(s, pending[0], pending[1..], drop), drop));
  }

  lemma PickSnoc(s: seq<FaceInfo>, idx: seq<nat>, a: nat)
    requires IndicesBelow(idx, |s|) && a < |s|
    ensures IndicesBelow(idx + [a], |s|)
    ensures Pick(s, idx + [a]) == Pick(s, idx) + [s[a]]
  {
  }

  /** The rounds of `nms` as written, from a given index list: accept the
      first remaining index, copy its candidate to the output and keep the
      round's survivors, until none remain. */
  method AcceptLoop(sorted: seq<FaceInfo>, start: seq<nat>, drop: (FaceInfo, FaceInfo) -> bool) returns (result: seq<FaceInfo>)
    requires IndicesBelow(start, |sorted|) && StrictlyIncreasing(start)
    ensures result == Pick(sorted, Rounds(sorted, start, drop))
  {
    result := [];
    var indexes := start;
    ghost var accepted: seq<nat> := [];
    while |indexes| > 0
      invariant IndicesBelow(indexes, |sorted|) && StrictlyIncreasing(indexes)
      invariant IndicesBelow(accepted, |sorted|)
      invariant Rounds(sorted, start, drop) == accepted + Rounds(sorted, indexes, drop)
      invariant result == Pick(sorted, accepted)
      decreases |indexes|
    {
      var good := indexes[0];
      var next := SurvivorsLoop(sorted, indexes, drop);
      RoundsStep(sorted, indexes, drop, accepted);
      PickSnoc(sorted, accepted, good);
      accepted := accepted + [good];
      result := result + [sorted[good]];
      indexes := next;
    }
    assert accepted + [] == accepted;
  }

  /** The index list `0 .. n - 1`, filled in order. */
  method Numbering(n: nat) returns (indexes: seq<nat>)
    ensures indexes == Range(n)
  {
    indexes := [];
    var i := 0;
    while i < n
      invariant 0 <= i <= n
      invariant indexes == Range(i)
    {
      indexes := indexes + [i];
      i := i + 1;
    }
  }

  /** `nms` as written: nothing for no input; otherwise copy and sort the
      candidates, number them, and run the rounds. */
  method NmsLoop(inputs: seq<FaceInfo>, threshold: real) returns (result: seq<FaceInfo>)
    ensures result == Suppress(inputs, threshold)
  {
    if |inputs| == 0 {
      return [];
    }
    var sorted := SortByScore(inputs);
    var indexes := Numbering(|sorted|);
    result := AcceptLoop(sorted, indexes, Drops(threshold));
  }

  /** Picking at increasing positions keeps the candidates of the list, in
      the list's order. */
  lemma PickOrdered(s: seq<FaceInfo>, idx: seq<nat>)
    requires IndicesBelow(idx, |s|) && StrictlyIncreasing(idx)
    ensures forall k :: 0 <= k < |idx| ==> Pick(s, idx)[k] in s
    ensures SortedByScore(s) ==> SortedByScore(Pick(s, idx))
  {
    var r := Pick(s, idx);
    forall k | 0 <= k < |idx|
      ensures r[k] in s
    {
      assert r[k] == s[idx[k]];
    }
  }

  /** A permutation has the same elements, and the head of a score-sorted
      permutation scores at least as high as any of them. */
  lemma SortedPermutation(s: seq<FaceInfo>, inputs: seq<FaceInfo>)
    requires multiset(s) == multiset(inputs) && SortedByScore(s)
    ensures forall f :: f in s <==> f in inputs
    ensures 0 < |s| ==> forall f :: f in inputs ==> f.score <= s[0].score
  {
    forall f
      ensures f in s <==> f in inputs
    {
      assert f in s <==> f in multiset(s);
      assert f in inputs <==> f in multiset(inputs);
    }
  }

  /** The first a candidates and the candidate at a lie within the first m, for a < m. */
  lemma PrefixGrows(s: seq<FaceInfo>, a: nat, m: nat)
    requires a < m <= |s|
    ensures multiset(s[..a]) + multiset{s[a]} <= multiset(s[..m])
  {
    assert s[..a + 1] == s[..a] + [s[a]];
    assert s[..m] == s[..a + 1] + s[a + 1..m];
  }

  /** Dropping the last of ascending indices leaves indices below it. */
  lemma InitBelowLast(idx: seq<nat>)
    requires 0 < |idx| && StrictlyIncreasing(idx)
    ensures IndicesBelow(idx[..|idx| - 1], idx[|idx| - 1])
    ensures StrictlyIncreasing(idx[..|idx| - 1])
  {
  }

  /** The candidates at ascending positions below m form a sub-multiset of
      the first m candidates. */
  lemma {:induction false} PickWithin(s: seq<FaceInfo>, idx: seq<nat>, m: nat)
    requires m <= |s| && IndicesBelow(idx, m) && StrictlyIncreasing(idx)
    ensures IndicesBelow(idx, |s|)
    ensures multiset(Pick(s, idx)) <= multiset(s[..m])
    decreases |idx|
  {
    if |idx| > 0 {
      var a := idx[|idx| - 1];
      var init := idx[..|idx| - 1];
      InitBelowLast(idx);
      PickWithin(s, init, a);
      PickSnoc(s, init, a);
      assert idx == init + [a];
      PrefixGrows(s, a, m);
    }
  }

  /** `nms` returns each candidate at most as often as the input holds it. */
  lemma SuppressWithin(inputs: seq<FaceInfo>, threshold: real)
    ensures multiset(Suppress(inputs, threshold)) <= multiset(inputs)
  {
    if |inputs| > 0 {
      var s := SortByScore(inputs);
      SortSpec(inputs);
      PickWithin(s, Rounds(s, Range(|s|), Drops(threshold)), |s|);
      assert s[..|s|] == s;
    }
  }

  /** The order guarantees of `nms`. Nothing comes out of nothing.
      Otherwise the output is no longer than the input, takes each of its
      candidates from the input at most as often as the input holds it, starts with a highest-scoring one and is
      non-increasing in score. */
  lemma NmsOrder(inputs: seq<FaceInfo>, threshold: real)
    ensures |inputs| == 0 <==> |Suppress(inputs, threshold)| == 0
    ensures |Suppress(inputs, threshold)| <= |inputs|
    ensures forall k :: 0 <= k < |Suppress(inputs, threshold)| ==> Suppress(inputs, threshold)[k] in inputs
    ensures multiset(Suppress(inputs, threshold)) <= multiset(inputs)
    ensures 0 < |Suppress(inputs, threshold)| ==>
              forall f :: f in inputs ==> f.score <= Suppress(inputs, threshold)[0].score
    ensures SortedByScore(Suppress(inputs, threshold))
  {
    if |inputs| > 0 {
      var s := SortByScore(inputs);
      var acc := Rounds(s, Range(|s|), Drops(threshold));
      SortSpec(inputs);
      PickOrdered(s, acc);
      SortedPermutation(s, inputs);
      assert Pick(s, acc)[0] == s[0];
    }
    SuppressWithin(inputs, threshold);
  }

  /** No output box of `nms` suppresses another, in either order. */
  lemma NmsPairwise(inputs: seq<FaceInfo>, threshold: real)
    ensures forall i, j :: 0 <= i < |Suppress(inputs, threshold)| && 0 <= j < |Suppress(inputs, threshold)| && i != j ==>
              !Suppresses(Suppress(inputs, threshold)[i], Suppress(inputs, threshold)[j], threshold)
  {
    if |inputs| > 0 {
      var s := SortByScore(inputs);
      var drop := Drops(threshold);
      var acc := Rounds(s, Range(|s|), drop);
      var out := Pick(s, acc);
      RoundsNoSuppression(s, Range(|s|), drop);
      forall i, j | 0 <= i < |out| && 0 <= j < |out| && i != j
        ensures !Suppresses(out[i], out[j], threshold)
      {
        if i < j {
          assert !drop(s[acc[i]], s[acc[j]]);
        } else {
          assert !drop(s[acc[j]], s[acc[i]]);
          SuppressesSymmetric(out[i], out[j], threshold);
        }
      }
    }
  }

  /** An accepted position's candidate is in the output. */
  lemma PickMember(s: seq<FaceInfo>, idx: seq<nat>, a: nat)
    requires IndicesBelow(idx, |s|) && a in idx
    ensures exists k :: 0 <= k < |idx| && Pick(s, idx)[k] == s[a]
  {
    var k :| 0 <= k < |idx| && idx[k] == a;
    assert Pick(s, idx)[k] == s[a];
  }

  /** Every sorted candidate that `nms` leaves out overlaps an output box of
      at least its score by more than the threshold. */
  lemma NmsDropJustified(inputs: seq<FaceInfo>, threshold: real, d: nat)
    requires d < |inputs|
    requires SortByScore(inputs)[d] !in Suppress(inputs, threshold)
    ensures exists k :: 0 <= k < |Suppress(inputs, threshold)| &&
              Suppress(inputs, threshold)[k].score >= SortByScore(inputs)[d].score &&
              Suppresses(Suppress(inputs, threshold)[k], SortByScore(inputs)[d], threshold)
  {
    var s := SortByScore(inputs);
    var drop := Drops(threshold);
    var r := Range(|s|);
    var acc := Rounds(s, r, drop);
    var out := Pick(s, acc);
    SortSpec(inputs);
    assert out == Suppress(inputs, threshold);
    assert d !in acc by {
      if d in acc {
        PickMember(s, acc, d);
      }
    }
    assert r[d] == d;
    RoundsDropJustified(s, r, drop, d);
    var a :| a in acc && a < d && drop(s[a], s[d]);
    PickMember(s, acc, a);
    var k :| 0 <= k < |acc| && out[k] == s[a];
    assert out[k].score >= s[d].score;
  }

  /** A score-sorted list none of whose boxes suppresses a later one comes
      out of `nms` unchanged. */
  lemma SuppressSeparated(out: seq<FaceInfo>, threshold: real)
    requires SortedByScore(out)
    requires forall i, j :: 0 <= i < j < |out| ==> !Suppresses(out[i], out[j], threshold)
    ensures Suppress(out, threshold) == out
  {
    if |out| > 0 {
      SortOfSorted(out);
      var r := Range(|out|);
      var drop := Drops(threshold);
      forall i, j | 0 <= i < j < |r|
        ensures !drop(out[r[i]], out[r[j]])
      {
        assert !Suppresses(out[i], out[j], threshold);
      }
      RoundsKeepAll(out, r, drop);
      assert Pick(out, r) == out;
    }
  }

  /** Suppressing an already suppressed list changes nothing, with the
      stable sort; a sort that reorders equal scores may permute them. */
  lemma NmsIdempotent(inputs: seq<FaceInfo>, threshold: real)
    ensures Suppress(Suppress(inputs, threshold), threshold) == Suppress(inputs, threshold)
  {
    NmsOrder(inputs, threshold);
    NmsPairwise(inputs, threshold);
    SuppressSeparated(Suppress(inputs, threshold), threshold);
  }

  /** Two equal boxes with a positive area collapse to one. */
  lemma DuplicateCollapses(f: FaceInfo, threshold: real)
    requires f.width > 0.0 && f.height > 0.0 && threshold < 1.0
    ensures Suppress([f, f], threshold) == [f]
  {
    var s := SortByScore([f, f]);
    var drop := Drops(threshold);
    SortOfSorted([f, f]);
    assert s == [f, f];
    assert Intersection(f, f) == Area(f);
    assert Area(f) > 0.0;
    assert Intersection(f, f) / (Area(f) + Area(f) - Intersection(f, f)) == 1.0;
    assert Suppresses(f, f, threshold);
    assert drop(f, f);
    assert Survivors(s, 0, [1], drop) == [];
    assert Range(2) == [0, 1];
    assert Rounds(s, [0, 1], drop) == [0] + Rounds(s, [], drop);
  }
}
