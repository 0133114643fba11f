/** The tracker that smooths detections over frames and lets unmatched ones age (web/src/v2/ai/inference.ts). */
module Tracker {
  import opened Detector

  // ---------------------------------------------------------------------------------------------
  // Matching one detection

  /** The best match so far: an index, or -1, and its overlap. */
  datatype Match = Match(idx: int, iou: real)

  predicate Candidate(d: Det, ts: seq<Track>, matched: set<nat>, i: nat)
    requires i < |ts|
  {
    i !in matched && ts[i].box.classId == d.classId
  }

  /** The inner loop of applyEmaSmoothing over the first `n` tracks. */
  function Best(d: Det, ts: seq<Track>, matched: set<nat>, n: nat): Match
    requires InUnit(d) && TracksInUnit(ts) && n <= |ts|
  {
    if n == 0 then Match(-1, MATCH_THRESHOLD)
    else
      var m := Best(d, ts, matched, n - 1);
      if Candidate(d, ts, matched, n - 1) && Iou(d, ts[n - 1].box) > m.iou
      then Match(n - 1, Iou(d, ts[n - 1].box)) else m
  }

  /**
   The match is an unmatched track of the same class with the largest overlap above the threshold, the first of several,
   if there is one.
   */
  lemma {:induction false} BestIsBest(d: Det, ts: seq<Track>, matched: set<nat>, n: nat)
    requires InUnit(d) && TracksInUnit(ts) && n <= |ts|
    ensures var m := Best(d, ts, matched, n);
            && -1 <= m.idx < n && m.iou >= MATCH_THRESHOLD
            && (m.idx == -1 ==> m.iou == MATCH_THRESHOLD)
            && (m.idx >= 0 ==> Candidate(d, ts, matched, m.idx) && m.iou == Iou(d, ts[m.idx].box) > MATCH_THRESHOLD)
            && (forall i :: 0 <= i < n && Candidate(d, ts, matched, i) ==> Iou(d, ts[i].box) <= m.iou)
            && (forall i :: 0 <= i < m.idx && Candidate(d, ts, matched, i) ==> Iou(d, ts[i].box) < m.iou)
  {
    hide Iou;
    if n > 0 {
      BestIsBest(d, ts, matched, n - 1);
    }
  }

  // ---------------------------------------------------------------------------------------------
  // One frame

  datatype Matching = Matching(out: seq<Track>, matched: set<nat>)

  /** The first loop over the first `n` detections. */
  function MatchAll(ds: seq<Det>, ts: seq<Track>, alpha: real, n: nat): (m: Matching)
    requires AllInUnit(ds) && TracksInUnit(ts) && n <= |ds|
    ensures |m.out| == n
    ensures forall k :: 0 <= k < n ==> m.out[k].age == 0 && m.out[k].box.classId == ds[k].classId
  {
    if n == 0 then Matching([], {})
    else
      var m, d := MatchAll(ds, ts, alpha, n - 1), ds[n - 1];
      var b := Best(d, ts, m.matched, |ts|);
      BestIsBest(d, ts, m.matched, |ts|);
      if b.idx == -1 then Matching(m.out + [Track(d, 0)], m.matched)
      else Matching(m.out + [Track(Smooth(ts[b.idx].box, d, alpha), 0)], m.matched + {b.idx})
  }

  /** The second loop over the first `n` tracks: unmatched ones survive one frame older, up to `maxAge`. */
  function Survivors(ts: seq<Track>, matched: set<nat>, maxAge: nat, n: nat): seq<Track>
    requires n <= |ts|
  {
    if n == 0 then []
    else
      var s, t := Survivors(ts, matched, maxAge, n - 1), ts[n - 1];
      if n - 1 in matched || t.age + 1 > maxAge then s else s + [Track(t.box, t.age + 1)]
  }

  function Advance(ds: seq<Det>, ts: seq<Track>, alpha: real, maxAge: nat): seq<Track>
    requires AllInUnit(ds) && TracksInUnit(ts)
  {
    var m := MatchAll(ds, ts, alpha, |ds|);
    m.out + Survivors(ts, m.matched, maxAge, |ts|)
  }

  class EmaTracker {
    var smoothed: seq<Track>

    constructor ()
      ensures smoothed == []
    {
      smoothed := [];
    }

    /** applyEmaSmoothing */
    method ApplyEmaSmoothing(detections: seq<Det>, alpha: real, maxAge: nat) returns (newSmoothed: seq<Track>)
      requires AllInUnit(detections) && TracksInUnit(smoothed)
      modifies this
      ensures newSmoothed == smoothed == Advance(detections, old(smoothed), alpha, maxAge)
    {
      hide Best, Smooth;
      newSmoothed := [];
      var matchedOld: set<nat> := {};
      for n := 0 to |detections|
        invariant smoothed == old(smoothed)
        invariant Matching(newSmoothed, matchedOld) == MatchAll(detections, smoothed, alpha, n)
      {
        var det := detections[n];
        var best := FindMatch(det, smoothed, matchedOld);
        BestIsBest(det, smoothed, matchedOld, |smoothed|);
        if best != -1 {
          newSmoothed := newSmoothed + [Track(Smooth(smoothed[best].box, det, alpha), 0)];
          matchedOld := matchedOld + {best};
        } else {
          newSmoothed := newSmoothed + [Track(det, 0)];
        }
      }
      var kept := AgeUnmatched(smoothed, matchedOld, maxAge);
      newSmoothed := newSmoothed + kept;
      smoothed := newSmoothed;
    }
  }

  method FindMatch(det: Det, ts: seq<Track>, matchedOld: set<nat>) returns (bestMatchIdx: int)
    requires InUnit(det) && TracksInUnit(ts)
    ensures bestMatchIdx == Best(det, ts, matchedOld, |ts|).idx
  {
    hide Iou;
    bestMatchIdx := -1;
    var bestIou := MATCH_THRESHOLD;
    for i := 0 to |ts|
      invariant Match(bestMatchIdx, bestIou) == Best(det, ts, matchedOld, i)
    {
      if i in matchedOld {
        continue;
      }
      if ts[i].box.classId != det.classId {
        continue;
      }
      var iou := Iou(det, ts[i].box);
      if iou > bestIou {
        bestIou := iou;
        bestMatchIdx := i;
      }
    }
  }

  method AgeUnmatched(ts: seq<Track>, matchedOld: set<nat>, maxAge: nat) returns (kept: seq<Track>)
    ensures kept == Survivors(ts, matchedOld, maxAge, |ts|)
  {
    kept := [];
    for i := 0 to |ts|
      invariant kept == Survivors(ts, matchedOld, maxAge, i)
    {
      if i !in matchedOld {
        if ts[i].age + 1 <= maxAge {
          kept := kept + [Track(ts[i].box, ts[i].age + 1)];
        }
      }
    }
  }

  /** The track that detection `k` continues, or -1. */
  function Partner(ds: seq<Det>, ts: seq<Track>, alpha: real, k: nat): int
    requires AllInUnit(ds) && TracksInUnit(ts) && k < |ds|
  {
    Best(ds[k], ts, MatchAll(ds, ts, alpha, k).matched, |ts|).idx
  }

  /** A track is continued by at most one detection. */
  lemma {:induction false} MatchedOnce(ds: seq<Det>, ts: seq<Track>, alpha: real, n: nat)
    requires AllInUnit(ds) && TracksInUnit(ts) && n <= |ds|
    ensures var m := MatchAll(ds, ts, alpha, n); |m.matched| <= n && forall i :: i in m.matched ==> i < |ts|
    ensures forall k :: 0 <= k < n && Partner(ds, ts, alpha, k) != -1 ==>
              Partner(ds, ts, alpha, k) in MatchAll(ds, ts, alpha, n).matched
    ensures forall j, k :: 0 <= j < k < n && Partner(ds, ts, alpha, j) != -1 ==>
              Partner(ds, ts, alpha, j) != Partner(ds, ts, alpha, k)
  {
    hide Best, Smooth;
    if n > 0 {
      MatchedOnce(ds, ts, alpha, n - 1);
      var m := MatchAll(ds, ts, alpha, n - 1);
      BestIsBest(ds[n - 1], ts, m.matched, |ts|);
    }
  }

  /** `b` lies the fraction `alpha` of the way from `prev` to `d`. */
  ghost predicate Moved(prev: Det, d: Det, b: Det, alpha: real) {
    && b.x1 - prev.x1 == alpha * (d.x1 - prev.x1) && b.y1 - prev.y1 == alpha * (d.y1 - prev.y1)
    && b.x2 - prev.x2 == alpha * (d.x2 - prev.x2) && b.y2 - prev.y2 == alpha * (d.y2 - prev.y2)
    && b.score - prev.score == alpha * (d.score - prev.score)
  }

  /** What becomes of a detection: a track of its own, or the continuation of an overlapping track of its class. */
  ghost predicate Follows(d: Det, ts: seq<Track>, partner: int, b: Det, alpha: real)
    requires InUnit(d) && TracksInUnit(ts)
  {
    if partner == -1 then b == d
    else
      && 0 <= partner < |ts| && ts[partner].box.classId == d.classId == b.classId
      && Iou(d, ts[partner].box) > 0.3
      && Moved(ts[partner].box, d, b, alpha)
  }

  lemma MixMoves(prev: real, next: real, alpha: real)
    ensures Mix(prev, next, alpha) - prev == alpha * (next - prev)
  {
  }

  lemma SmoothMoves(prev: Det, d: Det, alpha: real)
    ensures Moved(prev, d, Smooth(prev, d, alpha), alpha) && Smooth(prev, d, alpha).classId == d.classId
  {
    MixMoves(prev.x1, d.x1, alpha);
    MixMoves(prev.y1, d.y1, alpha);
    MixMoves(prev.x2, d.x2, alpha);
    MixMoves(prev.y2, d.y2, alpha);
    MixMoves(prev.score, d.score, alpha);
    hide Mix;
  }

  lemma LastFollows(ds: seq<Det>, ts: seq<Track>, alpha: real, k: nat)
    requires AllInUnit(ds) && TracksInUnit(ts) && k < |ds|
    ensures var m := MatchAll(ds, ts, alpha, k + 1);
            && m.out[..k] == MatchAll(ds, ts, alpha, k).out
            && Follows(ds[k], ts, Partner(ds, ts, alpha, k), m.out[k].box, alpha)
  {
    hide Best, Iou, InUnit, Smooth, Moved;
    BestIsBest(ds[k], ts, MatchAll(ds, ts, alpha, k).matched, |ts|);
    var p := Partner(ds, ts, alpha, k);
    if p != -1 {
      SmoothMoves(ts[p].box, ds[k], alpha);
    }
  }

  lemma {:induction false} TracksFollow(ds: seq<Det>, ts: seq<Track>, alpha: real, n: nat)
    requires AllInUnit(ds) && TracksInUnit(ts) && n <= |ds|
    ensures forall k :: 0 <= k < n ==>
              Follows(ds[k], ts, Partner(ds, ts, alpha, k), MatchAll(ds, ts, alpha, n).out[k].box, alpha)
  {
    hide MatchAll, Follows, Partner, InUnit;
    if n > 0 {
      TracksFollow(ds, ts, alpha, n - 1);
      LastFollows(ds, ts, alpha, n - 1);
      var out := MatchAll(ds, ts, alpha, n).out;
      assert forall k :: 0 <= k < n - 1 ==> out[k] == out[..n - 1][k];
    }
  }

  lemma {:induction false} SurvivorsSurvive(ts: seq<Track>, matched: set<nat>, maxAge: nat, n: nat, i: nat)
    requires i < n <= |ts| && i !in matched && ts[i].age + 1 <= maxAge
    ensures Track(ts[i].box, ts[i].age + 1) in Survivors(ts, matched, maxAge, n)
  {
    if i < n - 1 {
      SurvivorsSurvive(ts, matched, maxAge, n - 1, i);
    }
  }

  /**
   Nothing disappears early: every detection has its track, of age 0 and in order, new or moved from the one track it
   continues, and every track that no detection continues and that may grow older stays where it was, one frame older.
   */
  lemma AdvanceKeeps(ds: seq<Det>, ts: seq<Track>, alpha: real, maxAge: nat)
    requires AllInUnit(ds) && TracksInUnit(ts)
    ensures var r := Advance(ds, ts, alpha, maxAge);
            var matched := MatchAll(ds, ts, alpha, |ds|).matched;
            && |ds| <= |r| && |matched| <= |ds|
            && (forall k :: 0 <= k < |ds| ==>
                  r[k].age == 0 && Follows(ds[k], ts, Partner(ds, ts, alpha, k), r[k].box, alpha))
            && (forall i :: 0 <= i < |ts| && i !in matched && ts[i].age + 1 <= maxAge ==>
                  Track(ts[i].box, ts[i].age + 1) in r)
  {
    hide Survivors;
    var m := MatchAll(ds, ts, alpha, |ds|);
    MatchedOnce(ds, ts, alpha, |ds|);
    TracksFollow(ds, ts, alpha, |ds|);
    hide MatchAll, Follows, Partner;
    forall i | 0 <= i < |ts| && i !in m.matched && ts[i].age + 1 <= maxAge
      ensures Track(ts[i].box, ts[i].age + 1) in Survivors(ts, m.matched, maxAge, |ts|)
    {
      SurvivorsSurvive(ts, m.matched, maxAge, |ts|, i);
    }
  }

  ghost predicate Increasing(idx: seq<nat>) {
    forall p, q :: 0 <= p < q < |idx| ==> idx[p] < idx[q]
  }

  /** `out` are the tracks of `ts` at `idx`, in order, one frame older. */
  ghost predicate Older(out: seq<Track>, ts: seq<Track>, idx: seq<nat>) {
    && |out| == |idx|
    && forall p :: 0 <= p < |idx| ==> idx[p] < |ts| && out[p] == Track(ts[idx[p]].box, ts[idx[p]].age + 1)
  }

  ghost predicate Survives(ts: seq<Track>, matched: set<nat>, maxAge: nat, i: nat)
    requires i < |ts|
  {
    i !in matched && ts[i].age + 1 <= maxAge
  }

  lemma {:induction false} SurvivorsExactly(ts: seq<Track>, matched: set<nat>, maxAge: nat, n: nat)
    returns (idx: seq<nat>)
    requires n <= |ts|
    ensures Increasing(idx) && Older(Survivors(ts, matched, maxAge, n), ts, idx)
    ensures forall i :: i in idx <==> 0 <= i < n && Survives(ts, matched, maxAge, i)
  {
    hide Increasing, Older;
    if n == 0 {
      idx := [];
      NoneOlder(ts);
    } else {
      var last := n - 1;
      var kept := Survivors(ts, matched, maxAge, last);
      idx := SurvivorsExactly(ts, matched, maxAge, last);
      if Survives(ts, matched, maxAge, last) {
        OlderAppend(kept, ts, idx, last);
        assert Survivors(ts, matched, maxAge, n) == kept + [Track(ts[last].box, ts[last].age + 1)];
        hide Survivors, Survives;
        idx := idx + [last];
      } else {
        assert Survivors(ts, matched, maxAge, n) == kept;
        hide Survivors, Survives;
      }
    }
  }

  lemma NoneOlder(ts: seq<Track>)
    ensures Increasing([]) && Older([], ts, [])
  {
  }

  lemma OlderAppend(out: seq<Track>, ts: seq<Track>, idx: seq<nat>, i: nat)
    requires Increasing(idx) && Older(out, ts, idx) && i < |ts| && forall j :: j in idx ==> j < i
    ensures Increasing(idx + [i]) && Older(out + [Track(ts[i].box, ts[i].age + 1)], ts, idx + [i])
  {
    assert forall p :: 0 <= p < |idx| ==> idx[p] in idx;
  }

  /** Some of the first `n` detections continues track `i`. */
  ghost predicate Continued(ds: seq<Det>, ts: seq<Track>, alpha: real, n: nat, i: nat)
    requires AllInUnit(ds) && TracksInUnit(ts) && n <= |ds|
  {
    exists k :: 0 <= k < n && Partner(ds, ts, alpha, k) == i
  }

  lemma {:induction false} MatchedArePartners(ds: seq<Det>, ts: seq<Track>, alpha: real, n: nat, i: nat)
    requires AllInUnit(ds) && TracksInUnit(ts) && n <= |ds| && i in MatchAll(ds, ts, alpha, n).matched
    ensures Continued(ds, ts, alpha, n, i)
  {
    hide Best, Smooth, InUnit;
    if i in MatchAll(ds, ts, alpha, n - 1).matched {
      MatchedArePartners(ds, ts, alpha, n - 1, i);
    } else {
      assert Partner(ds, ts, alpha, n - 1) == i;
    }
  }

  /**
   And nothing else is there: behind the tracks of the detections come, in order and each once, exactly the tracks that
   no detection continues and that may grow older.
   */
  lemma AdvanceExactly(ds: seq<Det>, ts: seq<Track>, alpha: real, maxAge: nat) returns (idx: seq<nat>)
    requires AllInUnit(ds) && TracksInUnit(ts)
    ensures var r := Advance(ds, ts, alpha, maxAge);
            && |r| == |ds| + |idx|
            && Increasing(idx) && Older(r[|ds|..], ts, idx)
            && forall i: nat :: i in idx <==>
                 i < |ts| && !Continued(ds, ts, alpha, |ds|, i) && ts[i].age + 1 <= maxAge
  {
    var m := MatchAll(ds, ts, alpha, |ds|);
    MatchedOnce(ds, ts, alpha, |ds|);
    forall i: nat ensures i in m.matched <==> Continued(ds, ts, alpha, |ds|, i) {
      if i in m.matched {
        MatchedArePartners(ds, ts, alpha, |ds|, i);
      }
    }
    hide MatchAll, Survivors, Continued, Partner, InUnit;
    idx := SurvivorsExactly(ts, m.matched, maxAge, |ts|);
    assert Advance(ds, ts, alpha, maxAge)[|ds|..] == Survivors(ts, m.matched, maxAge, |ts|);
  }

  // ---------------------------------------------------------------------------------------------
  // Every sequence of frames

  function CountAge(ts: seq<Track>, age: nat): nat {
    if ts == [] then 0 else CountAge(ts[..|ts| - 1], age) + if ts[|ts| - 1].age == age then 1 else 0
  }

  lemma {:induction false} CountConcat(a: seq<Track>, b: seq<Track>, age: nat)
    ensures CountAge(a + b, age) == CountAge(a, age) + CountAge(b, age)
  {
    if b == [] {
      assert a + b == a;
    } else {
      assert (a + b)[..|a + b| - 1] == a + b[..|b| - 1];
      CountConcat(a, b[..|b| - 1], age);
    }
  }

  lemma {:induction false} CountNewborn(ts: seq<Track>, age: nat)
    requires forall k :: 0 <= k < |ts| ==> ts[k].age == 0
    ensures CountAge(ts, age) == if age == 0 then |ts| else 0
  {
    if ts == [] {
    } else {
      CountNewborn(ts[..|ts| - 1], age);
    }
  }

  /** Survivors of age `age + 1` come from tracks of age `age`. */
  lemma {:induction false} CountSurvivors(ts: seq<Track>, matched: set<nat>, maxAge: nat, n: nat, age: nat)
    requires n <= |ts|
    ensures CountAge(Survivors(ts, matched, maxAge, n), 0) == 0
    ensures CountAge(Survivors(ts, matched, maxAge, n), age + 1) <= CountAge(ts[..n], age)
  {
    if n == 0 {
    } else {
      CountSurvivors(ts, matched, maxAge, n - 1, age);
      var s, t := Survivors(ts, matched, maxAge, n - 1), Track(ts[n - 1].box, ts[n - 1].age + 1);
      assert ts[..n] == ts[..n - 1] + [ts[n - 1]];
      CountOne(ts[..n - 1], ts[n - 1], age);
      CountOne(s, t, 0);
      CountOne(s, t, age + 1);
      hide CountAge;
    }
  }

  lemma CountOne(ts: seq<Track>, t: Track, age: nat)
    ensures CountAge(ts + [t], age) == CountAge(ts, age) + if t.age == age then 1 else 0
  {
    assert (ts + [t])[..|ts|] == ts;
  }

  /** Tracks in the unit square, none older than `maxAge`, at most 15 of each age. */
  ghost predicate Bounded(ts: seq<Track>, maxAge: nat) {
    && TracksInUnit(ts)
    && (forall k :: 0 <= k < |ts| ==> ts[k].age <= maxAge)
    && (forall age :: CountAge(ts, age) <= MAX_DETECTIONS)
  }

  lemma {:induction false} MatchInUnit(ds: seq<Det>, ts: seq<Track>, alpha: real, n: nat)
    requires AllInUnit(ds) && TracksInUnit(ts) && n <= |ds| && 0.0 <= alpha <= 1.0
    ensures TracksInUnit(MatchAll(ds, ts, alpha, n).out)
  {
    hide Best, Smooth, InUnit;
    if n > 0 {
      MatchInUnit(ds, ts, alpha, n - 1);
      var m, d := MatchAll(ds, ts, alpha, n - 1), ds[n - 1];
      BestIsBest(d, ts, m.matched, |ts|);
      var b := Best(d, ts, m.matched, |ts|);
      if b.idx != -1 {
        SmoothInUnit(ts[b.idx].box, d, alpha);
      }
    }
  }

  lemma {:induction false} SurvivorsBounded(ts: seq<Track>, matched: set<nat>, maxAge: nat, n: nat)
    requires TracksInUnit(ts) && n <= |ts|
    ensures var s := Survivors(ts, matched, maxAge, n);
            TracksInUnit(s) && forall k :: 0 <= k < |s| ==> s[k].age <= maxAge
  {
    hide InUnit;
    if n > 0 {
      SurvivorsBounded(ts, matched, maxAge, n - 1);
    }
  }

  lemma AdvanceBounded(ds: seq<Det>, ts: seq<Track>, alpha: real, maxAge: nat)
    requires AllInUnit(ds) && |ds| <= MAX_DETECTIONS && Bounded(ts, maxAge) && 0.0 <= alpha <= 1.0
    ensures Bounded(Advance(ds, ts, alpha, maxAge), maxAge)
  {
    hide MatchAll, Survivors, InUnit, CountAge;
    var m := MatchAll(ds, ts, alpha, |ds|);
    var s := Survivors(ts, m.matched, maxAge, |ts|);
    MatchInUnit(ds, ts, alpha, |ds|);
    SurvivorsBounded(ts, m.matched, maxAge, |ts|);
    assert ts[..|ts|] == ts;
    forall age: nat ensures CountAge(m.out + s, age) <= MAX_DETECTIONS {
      CountConcat(m.out, s, age);
      CountNewborn(m.out, age);
      CountSurvivors(ts, m.matched, maxAge, |ts|, if age == 0 then 0 else age - 1);
    }
  }

  /** Feeding frame after frame of raw detections through suppression and tracking. */
  function Tracks(frames: seq<seq<Det>>, threshold: real, alpha: real, maxAge: nat): (ts: seq<Track>)
    requires 0.0 <= alpha <= 1.0 && forall k :: 0 <= k < |frames| ==> AllInUnit(frames[k])
    ensures Bounded(ts, maxAge)
  {
    if frames == [] then []
    else
      var n := |frames| - 1;
      var before := Tracks(frames[..n], threshold, alpha, maxAge);
      NmsSelects(frames[n], threshold);
      AdvanceBounded(Nms(frames[n], threshold), before, alpha, maxAge);
      Advance(Nms(frames[n], threshold), before, alpha, maxAge)
  }

  /** The tracks of ages 0 to `age`. */
  function CountUpTo(ts: seq<Track>, age: nat): nat {
    CountAge(ts, age) + if age == 0 then 0 else CountUpTo(ts, age - 1)
  }

  lemma {:induction false} CountUpToAppend(ts: seq<Track>, t: Track, age: nat)
    ensures CountUpTo(ts + [t], age) == CountUpTo(ts, age) + if t.age <= age then 1 else 0
  {
    assert (ts + [t])[..|ts|] == ts;
    if age > 0 {
      CountUpToAppend(ts, t, age - 1);
    }
  }

  lemma {:induction false} CountUpToNone(age: nat)
    ensures CountUpTo([], age) == 0
  {
    if age > 0 {
      CountUpToNone(age - 1);
    }
  }

  lemma {:induction false} AllCounted(ts: seq<Track>, maxAge: nat)
    requires forall k :: 0 <= k < |ts| ==> ts[k].age <= maxAge
    ensures |ts| == CountUpTo(ts, maxAge)
  {
    if ts == [] {
      CountUpToNone(maxAge);
    } else {
      var init, last := ts[..|ts| - 1], ts[|ts| - 1];
      assert ts == init + [last];
      AllCounted(init, maxAge);
      CountUpToAppend(init, last, maxAge);
    }
  }

  lemma {:induction false} CountUpToBounded(ts: seq<Track>, age: nat)
    requires forall a :: CountAge(ts, a) <= MAX_DETECTIONS
    ensures CountUpTo(ts, age) <= MAX_DETECTIONS * (age + 1)
  {
    if age > 0 {
      CountUpToBounded(ts, age - 1);
    }
  }

  /**
   For every sequence of frames, every threshold and every smoothing factor in 0..1: all tracks stay in the unit
   square, none is older than `maxAge`, at most 15 have any given age, and there are never more than 15 * (maxAge +
   1) of them.
   */
  lemma TracksBounded(frames: seq<seq<Det>>, threshold: real, alpha: real, maxAge: nat)
    requires 0.0 <= alpha <= 1.0 && forall k :: 0 <= k < |frames| ==> AllInUnit(frames[k])
    ensures var ts := Tracks(frames, threshold, alpha, maxAge);
            Bounded(ts, maxAge) && |ts| <= MAX_DETECTIONS * (maxAge + 1)
  {
    hide Tracks;
    var ts := Tracks(frames, threshold, alpha, maxAge);
    AllCounted(ts, maxAge);
    CountUpToBounded(ts, maxAge);
  }
}
