/** Detector post-processing (web/src/v2/ai/inference.ts): non-maximum suppression and the smoothing tracker. */
module Detector {
  import opened Frames

  const MAX_DETECTIONS := 15
  const MATCH_THRESHOLD := 0.3

  /** A detection; coordinates are fractions of the picture's size. */
  datatype Det = Det(x1: real, y1: real, x2: real, y2: real, score: real, classId: int)

  /** What the decoder delivers: corners in order, inside the unit square. */
  predicate InUnit(d: Det) {
    0.0 <= d.x1 <= d.x2 <= 1.0 && 0.0 <= d.y1 <= d.y2 <= 1.0
  }

  predicate AllInUnit(ds: seq<Det>) {
    forall k :: 0 <= k < |ds| ==> InUnit(ds[k])
  }

  function Max(a: real, b: real): real { if a >= b then a else b }
  function Min(a: real, b: real): real { if a <= b then a else b }

  function Area(d: Det): real { (d.x2 - d.x1) * (d.y2 - d.y1) }

  /** The length two intervals have in common. */
  function Common(lo: real, hi: real, lo': real, hi': real): real {
    Max(0.0, Min(hi, hi') - Max(lo, lo'))
  }

  lemma CommonBounded(lo: real, hi: real, lo': real, hi': real)
    requires lo <= hi && lo' <= hi'
    ensures 0.0 <= Common(lo, hi, lo', hi') <= hi - lo && Common(lo, hi, lo', hi') <= hi' - lo'
    ensures Common(lo, hi, lo', hi') == Common(lo', hi', lo, hi) && Common(lo, hi, lo, hi) == hi - lo
  {
  }

  function Overlap(a: Det, b: Det): real {
    Common(a.x1, a.x2, b.x1, b.x2) * Common(a.y1, a.y2, b.y1, b.y2)
  }

  lemma ProductMonotone(a: real, b: real, c: real, d: real)
    requires 0.0 <= a <= c && 0.0 <= b <= d
    ensures 0.0 <= a * b <= c * d
  {
    assert a * b <= c * b;
    assert c * b <= c * d;
  }

  /** The overlap of two boxes is the same both ways and no larger than either. */
  lemma OverlapBounded(a: Det, b: Det)
    requires InUnit(a) && InUnit(b)
    ensures 0.0 <= Overlap(a, b) <= Area(a) && Overlap(a, b) <= Area(b)
    ensures Overlap(a, b) == Overlap(b, a) && Overlap(a, a) == Area(a)
  {
    hide Common;
    CommonBounded(a.x1, a.x2, b.x1, b.x2);
    CommonBounded(a.y1, a.y2, b.y1, b.y2);
    var w, h := Common(a.x1, a.x2, b.x1, b.x2), Common(a.y1, a.y2, b.y1, b.y2);
    ProductMonotone(w, h, a.x2 - a.x1, a.y2 - a.y1);
    ProductMonotone(w, h, b.x2 - b.x1, b.y2 - b.y1);
  }

  /** calculateIou */
  function Iou(a: Det, b: Det): real
    requires InUnit(a) && InUnit(b)
  {
    OverlapBounded(a, b);
    if Area(a) == 0.0 || Area(b) == 0.0 then 0.0 else Overlap(a, b) / (Area(a) + Area(b) - Overlap(a, b))
  }

  /** Intersection over union is symmetric, lies in 0..1, and is 1 for a box with itself. */
  lemma IouLaws(a: Det, b: Det)
    requires InUnit(a) && InUnit(b)
    ensures Iou(a, b) == Iou(b, a) && 0.0 <= Iou(a, b) <= 1.0
    ensures Area(a) != 0.0 ==> Iou(a, a) == 1.0
  {
    hide Overlap, Area;
    OverlapBounded(a, b);
    if Area(a) != 0.0 && Area(b) != 0.0 {
      QuotientBounded(Overlap(a, b), Area(a) + Area(b) - Overlap(a, b));
    }
  }

  /** The area between the inner corners of two boxes, zero when those are crossed. */
  function Inner(a: Det, b: Det): real {
    var left, right := Max(a.x1, b.x1), Min(a.x2, b.x2);
    var top, bottom := Max(a.y1, b.y1), Min(a.y2, b.y2);
    if left <= right && top <= bottom then (right - left) * (bottom - top) else 0.0
  }

  lemma CommonExactly(lo: real, hi: real, lo': real, hi': real)
    ensures var from, to := Max(lo, lo'), Min(hi, hi');
            Common(lo, hi, lo', hi') == if from <= to then to - from else 0.0
  {
  }

  lemma OverlapIsInner(a: Det, b: Det)
    ensures Overlap(a, b) == Inner(a, b)
  {
    hide Common, Max, Min;
    CommonExactly(a.x1, a.x2, b.x1, b.x2);
    CommonExactly(a.y1, a.y2, b.y1, b.y2);
    var w, h := Common(a.x1, a.x2, b.x1, b.x2), Common(a.y1, a.y2, b.y1, b.y2);
    if w == 0.0 || h == 0.0 {
      ZeroProduct(w, h);
    }
  }

  lemma ZeroProduct(x: real, y: real)
    requires x == 0.0 || y == 0.0
    ensures x * y == 0.0
  {
  }

  /**
   Intersection over union, by the corners: the result times the area of the union is the area of the intersection;
   a box without area overlaps nothing.
   */
  lemma IouExactly(a: Det, b: Det)
    requires InUnit(a) && InUnit(b)
    ensures if Area(a) == 0.0 || Area(b) == 0.0 then Iou(a, b) == 0.0
            else
              var union := Area(a) + Area(b) - Inner(a, b);
              union > 0.0 && Iou(a, b) * union == Inner(a, b)
  {
    OverlapBounded(a, b);
    OverlapIsInner(a, b);
    hide Overlap, Inner, Area;
    if Area(a) != 0.0 && Area(b) != 0.0 {
      QuotientTimes(Overlap(a, b), Area(a) + Area(b) - Overlap(a, b));
    }
  }

  lemma QuotientTimes(x: real, y: real)
    requires y != 0.0
    ensures (x / y) * y == x
  {
  }

  lemma QuotientBounded(x: real, y: real)
    requires 0.0 <= x <= y && y > 0.0
    ensures 0.0 <= x / y <= 1.0
  {
  }

  // ---------------------------------------------------------------------------------------------
  // Sorting by score

  ghost predicate ByScore(ds: seq<Det>) {
    forall i, j :: 0 <= i < j < |ds| ==> ds[i].score >= ds[j].score
  }

  /** Inserts behind all detections with at least its score, so that the sort is stable. */
  function Insert(ds: seq<Det>, d: Det): seq<Det> {
    if ds == [] || ds[|ds| - 1].score >= d.score then ds + [d]
    else Insert(ds[..|ds| - 1], d) + [ds[|ds| - 1]]
  }

  /** [...detections].sort((a, b) => b.score - a.score) */
  function SortByScore(ds: seq<Det>): seq<Det> {
    if ds == [] then [] else Insert(SortByScore(ds[..|ds| - 1]), ds[|ds| - 1])
  }

  lemma {:induction false} InsertAbove(ds: seq<Det>, d: Det, least: real)
    requires d.score >= least && forall i :: 0 <= i < |ds| ==> ds[i].score >= least
    ensures forall i :: 0 <= i < |Insert(ds, d)| ==> Insert(ds, d)[i].score >= least
  {
    if ds != [] && ds[|ds| - 1].score < d.score {
      InsertAbove(ds[..|ds| - 1], d, least);
    }
  }

  lemma {:induction false} InsertKeeps(ds: seq<Det>, d: Det)
    ensures multiset(Insert(ds, d)) == multiset(ds) + multiset{d}
  {
    if ds == [] {
    } else {
      var init, last := ds[..|ds| - 1], ds[|ds| - 1];
      assert ds == init + [last];
      if last.score < d.score {
        InsertKeeps(init, d);
      }
    }
  }

  lemma {:induction false} InsertSorts(ds: seq<Det>, d: Det)
    requires ByScore(ds)
    ensures ByScore(Insert(ds, d))
  {
    if ds == [] {
    } else {
      var init, last := ds[..|ds| - 1], ds[|ds| - 1];
      if last.score < d.score {
        InsertSorts(init, d);
        InsertAbove(init, d, last.score);
      }
    }
  }

  lemma {:induction false} SortSorts(ds: seq<Det>)
    ensures ByScore(SortByScore(ds)) && multiset(SortByScore(ds)) == multiset(ds)
  {
    hide Insert, ByScore;
    if ds == [] {
      NothingToSort();
    } else {
      SortSorts(ds[..|ds| - 1]);
      InsertSorts(SortByScore(ds[..|ds| - 1]), ds[|ds| - 1]);
      InsertKeeps(SortByScore(ds[..|ds| - 1]), ds[|ds| - 1]);
      assert ds == ds[..|ds| - 1] + [ds[|ds| - 1]];
    }
  }

  /** The detections of one score, in their order. */
  function WithScore(ds: seq<Det>, score: real): seq<Det> {
    if ds == [] then []
    else WithScore(ds[..|ds| - 1], score) + if ds[|ds| - 1].score == score then [ds[|ds| - 1]] else []
  }

  lemma WithScoreAppend(ds: seq<Det>, d: Det, score: real)
    ensures WithScore(ds + [d], score) == WithScore(ds, score) + if d.score == score then [d] else []
  {
    assert (ds + [d])[..|ds|] == ds;
  }

  lemma {:induction false} InsertStable(ds: seq<Det>, d: Det, score: real)
    ensures WithScore(Insert(ds, d), score) == WithScore(ds, score) + if d.score == score then [d] else []
  {
    hide WithScore;
    WithScoreAppend(ds, d, score);
    if ds != [] && ds[|ds| - 1].score < d.score {
      var init, last := ds[..|ds| - 1], ds[|ds| - 1];
      InsertStable(init, d, score);
      WithScoreAppend(Insert(init, d), last, score);
      WithScoreAppend(init, last, score);
      assert ds == init + [last];
    }
  }

  /** The sort is stable, as JavaScript's is: boxes of equal score keep their order. */
  lemma {:induction false} SortStable(ds: seq<Det>, score: real)
    ensures WithScore(SortByScore(ds), score) == WithScore(ds, score)
  {
    hide Insert;
    if ds == [] {
    } else {
      SortStable(ds[..|ds| - 1], score);
      InsertStable(SortByScore(ds[..|ds| - 1]), ds[|ds| - 1], score);
    }
  }

  lemma NothingToSort()
    ensures ByScore([])
  {
  }

  lemma SameMembers(a: seq<Det>, b: seq<Det>)
    requires multiset(a) == multiset(b)
    ensures forall d :: d in a <==> d in b
  {
    forall d ensures d in a <==> d in b {
      assert d in a <==> d in multiset(a);
      assert d in b <==> d in multiset(b);
    }
  }

  // ---------------------------------------------------------------------------------------------
  // Non-maximum suppression

  /** The boxes that overlap `best` no more than the threshold. */
  function Remaining(best: Det, ds: seq<Det>, threshold: real): (r: seq<Det>)
    requires InUnit(best) && AllInUnit(ds)
    ensures |r| <= |ds| && AllInUnit(r)
  {
    if ds == [] then []
    else
      var rest := Remaining(best, ds[1..], threshold);
      if Iou(best, ds[0]) <= threshold then [ds[0]] + rest else rest
  }

  /** The loop of applyNms: keep the best, drop what overlaps it, repeat. */
  function Suppress(ds: seq<Det>, threshold: real, limit: nat): seq<Det>
    requires AllInUnit(ds)
    decreases |ds|
  {
    if ds == [] || limit == 0 then []
    else [ds[0]] + Suppress(Remaining(ds[0], ds[1..], threshold), threshold, limit - 1)
  }

  /** Reference definition: one pass that keeps a box unless it overlaps a box already kept. */
  function OnePass(ds: seq<Det>, kept: seq<Det>, threshold: real): seq<Det>
    requires AllInUnit(ds) && AllInUnit(kept)
  {
    if ds == [] || |kept| >= MAX_DETECTIONS then kept
    else if Clear(ds[0], kept, threshold) then OnePass(ds[1..], kept + [ds[0]], threshold)
    else OnePass(ds[1..], kept, threshold)
  }

  /** No kept box overlaps `d` more than the threshold. */
  predicate Clear(d: Det, kept: seq<Det>, threshold: real)
    requires InUnit(d) && AllInUnit(kept)
  {
    forall k :: 0 <= k < |kept| ==> Iou(kept[k], d) <= threshold
  }

  function Nms(ds: seq<Det>, threshold: real): seq<Det>
    requires AllInUnit(ds)
  {
    SortedInUnit(ds);
    Suppress(SortByScore(ds), threshold, MAX_DETECTIONS)
  }

  lemma SortedInUnit(ds: seq<Det>)
    requires AllInUnit(ds)
    ensures AllInUnit(SortByScore(ds))
  {
    SortSorts(ds);
    SameMembers(SortByScore(ds), ds);
    forall k | 0 <= k < |SortByScore(ds)| ensures InUnit(SortByScore(ds)[k]) {
      assert SortByScore(ds)[k] in ds;
    }
  }

  /** applyNms */
  method ApplyNms(detections: seq<Det>, threshold: real) returns (kept: seq<Det>)
    requires AllInUnit(detections)
    ensures kept == Nms(detections, threshold)
  {
    SortedInUnit(detections);
    var sorted := SortByScore(detections);
    kept := [];
    ghost var goal := Suppress(sorted, threshold, MAX_DETECTIONS);
    while |sorted| > 0 && |kept| < MAX_DETECTIONS
      invariant |kept| <= MAX_DETECTIONS && AllInUnit(sorted)
      invariant goal == kept + Suppress(sorted, threshold, MAX_DETECTIONS - |kept|)
      decreases |sorted|
    {
      var best, rest := sorted[0], sorted[1..];
      var remaining := FilterRemaining(best, rest, threshold);
      ghost var later := Suppress(remaining, threshold, MAX_DETECTIONS - |kept| - 1);
      assert kept + ([best] + later) == (kept + [best]) + later;
      kept := kept + [best];
      sorted := remaining;
    }
  }

  method FilterRemaining(best: Det, ds: seq<Det>, threshold: real) returns (remaining: seq<Det>)
    requires InUnit(best) && AllInUnit(ds)
    ensures remaining == Remaining(best, ds, threshold)
  {
    hide Iou;
    remaining := [];
    assert ds[0..] == ds;
    for n := 0 to |ds|
      invariant remaining + Remaining(best, ds[n..], threshold) == Remaining(best, ds, threshold)
    {
      assert ds[n..][1..] == ds[n + 1..];
      if Iou(best, ds[n]) <= threshold {
        ghost var rest := Remaining(best, ds[n + 1..], threshold);
        assert remaining + ([ds[n]] + rest) == (remaining + [ds[n]]) + rest;
        remaining := remaining + [ds[n]];
      }
    }
  }

  /** The boxes no kept box suppresses, in order. */
  ghost function ClearOnly(ds: seq<Det>, kept: seq<Det>, threshold: real): (r: seq<Det>)
    requires AllInUnit(ds) && AllInUnit(kept)
    ensures |r| <= |ds| && AllInUnit(r)
  {
    if ds == [] then []
    else
      var rest := ClearOnly(ds[1..], kept, threshold);
      if Clear(ds[0], kept, threshold) then [ds[0]] + rest else rest
  }

  lemma ClearAppend(d: Det, kept: seq<Det>, best: Det, threshold: real)
    requires InUnit(d) && AllInUnit(kept) && InUnit(best)
    ensures AllInUnit(kept + [best])
    ensures Clear(d, kept + [best], threshold) <==> Clear(d, kept, threshold) && Iou(best, d) <= threshold
  {
    hide Iou;
    var more := kept + [best];
    assert more[|kept|] == best && more[..|kept|] == kept;
    if Clear(d, more, threshold) {
      forall k | 0 <= k < |kept| ensures Iou(kept[k], d) <= threshold {
        assert more[k] == kept[k];
      }
    }
  }

  lemma {:induction false} ClearOnlyAppend(ds: seq<Det>, kept: seq<Det>, best: Det, threshold: real)
    requires AllInUnit(ds) && AllInUnit(kept) && InUnit(best)
    ensures AllInUnit(kept + [best])
    ensures Remaining(best, ClearOnly(ds, kept, threshold), threshold) == ClearOnly(ds, kept + [best], threshold)
  {
    hide Iou, Clear;
    if ds == [] {
    } else {
      ClearAppend(ds[0], kept, best, threshold);
      ClearOnlyAppend(ds[1..], kept, best, threshold);
      var rest := ClearOnly(ds[1..], kept, threshold);
      assert ([ds[0]] + rest)[1..] == rest;
    }
  }

  /** Repeatedly dropping what overlaps the best box keeps the same boxes as one pass over them. */
  lemma {:induction false} PassIsSuppress(ds: seq<Det>, kept: seq<Det>, threshold: real)
    requires AllInUnit(ds) && AllInUnit(kept) && |kept| <= MAX_DETECTIONS
    ensures OnePass(ds, kept, threshold)
         == kept + Suppress(ClearOnly(ds, kept, threshold), threshold, MAX_DETECTIONS - |kept|)
  {
    hide Iou, Clear, Remaining;
    if ds != [] && |kept| < MAX_DETECTIONS {
      var d, rest := ds[0], ds[1..];
      if Clear(d, kept, threshold) {
        ClearOnlyAppend(rest, kept, d, threshold);
        PassIsSuppress(rest, kept + [d], threshold);
        var others := ClearOnly(rest, kept, threshold);
        assert ([d] + others)[1..] == others;
        var later := Suppress(ClearOnly(rest, kept + [d], threshold), threshold, MAX_DETECTIONS - |kept| - 1);
        assert kept + ([d] + later) == (kept + [d]) + later;
      } else {
        PassIsSuppress(rest, kept, threshold);
      }
    }
  }

  lemma {:induction false} ClearOfNone(ds: seq<Det>, threshold: real)
    requires AllInUnit(ds)
    ensures ClearOnly(ds, [], threshold) == ds
  {
    if ds == [] {
    } else {
      ClearOfNone(ds[1..], threshold);
    }
  }

  /** The suppression loop computes the one-pass greedy selection of the boxes in score order. */
  lemma NmsIsOnePass(ds: seq<Det>, threshold: real)
    requires AllInUnit(ds)
    ensures AllInUnit(SortByScore(ds)) && Nms(ds, threshold) == OnePass(SortByScore(ds), [], threshold)
  {
    hide Iou, Clear, Suppress, OnePass;
    SortedInUnit(ds);
    PassIsSuppress(SortByScore(ds), [], threshold);
    ClearOfNone(SortByScore(ds), threshold);
  }

  ghost predicate PairwiseClear(kept: seq<Det>, threshold: real)
    requires AllInUnit(kept)
  {
    forall i, j :: 0 <= i < j < |kept| ==> Iou(kept[i], kept[j]) <= threshold
  }

  /** `d` loses against a kept box of at least its score. */
  ghost predicate Suppressed(d: Det, kept: seq<Det>, threshold: real)
    requires InUnit(d) && AllInUnit(kept)
  {
    exists k :: 0 <= k < |kept| && kept[k].score >= d.score && Iou(kept[k], d) > threshold
  }

  lemma SuppressedByMore(d: Det, kept: seq<Det>, r: seq<Det>, threshold: real)
    requires InUnit(d) && AllInUnit(kept) && AllInUnit(r) && kept <= r && Suppressed(d, kept, threshold)
    ensures Suppressed(d, r, threshold)
  {
    hide Iou;
    var k :| 0 <= k < |kept| && kept[k].score >= d.score && Iou(kept[k], d) > threshold;
    assert r[k] == kept[k];
  }

  lemma PairwiseAppend(kept: seq<Det>, d: Det, threshold: real)
    requires AllInUnit(kept) && InUnit(d) && PairwiseClear(kept, threshold) && Clear(d, kept, threshold)
    ensures AllInUnit(kept + [d]) && PairwiseClear(kept + [d], threshold)
  {
    hide Iou;
    var more := kept + [d];
    forall i, j | 0 <= i < j < |more| ensures Iou(more[i], more[j]) <= threshold {
      if j < |kept| {
        assert more[i] == kept[i] && more[j] == kept[j];
      }
    }
  }

  lemma OnePassGrows(ds: seq<Det>, kept: seq<Det>, threshold: real)
    requires AllInUnit(ds) && AllInUnit(kept) && |kept| <= MAX_DETECTIONS
    ensures var r := OnePass(ds, kept, threshold); kept <= r && |r| <= MAX_DETECTIONS && AllInUnit(r)
  {
  }

  lemma {:induction false} OnePassSelects(ds: seq<Det>, kept: seq<Det>, threshold: real)
    requires AllInUnit(ds) && AllInUnit(kept) && |kept| <= MAX_DETECTIONS
    requires ByScore(kept + ds) && PairwiseClear(kept, threshold)
    ensures var r := OnePass(ds, kept, threshold);
            && AllInUnit(r) && ByScore(r) && PairwiseClear(r, threshold)
            && (forall d :: d in r ==> d in kept || d in ds)
            && (forall d :: d in ds ==> d in r || |r| == MAX_DETECTIONS || Suppressed(d, r, threshold))
  {
    hide Iou, Clear, PairwiseClear, Suppressed;
    OnePassGrows(ds, kept, threshold);
    if ds == [] {
      assert kept + ds == kept;
    } else if |kept| == MAX_DETECTIONS {
      assert (kept + ds)[..|kept|] == kept;
    } else {
      var d, rest := ds[0], ds[1..];
      assert kept + ds == (kept + [d]) + rest;
      var r := OnePass(ds, kept, threshold);
      if Clear(d, kept, threshold) {
        PairwiseAppend(kept, d, threshold);
        OnePassSelects(rest, kept + [d], threshold);
        OnePassGrows(rest, kept + [d], threshold);
        assert (kept + [d])[|kept|] == d && d in r;
      } else {
        DropFromMiddle(kept, d, rest);
        OnePassSelects(rest, kept, threshold);
        NotClearIsSuppressed(d, kept, rest, threshold);
        SuppressedByMore(d, kept, r, threshold);
      }
    }
  }

  lemma DropFromMiddle(kept: seq<Det>, d: Det, rest: seq<Det>)
    requires ByScore((kept + [d]) + rest)
    ensures ByScore(kept + rest)
  {
    var all, less := (kept + [d]) + rest, kept + rest;
    forall i, j | 0 <= i < j < |less| ensures less[i].score >= less[j].score {
      var i', j' := if i < |kept| then i else i + 1, if j < |kept| then j else j + 1;
      assert less[i] == all[i'] && less[j] == all[j'];
    }
  }

  lemma NotClearIsSuppressed(d: Det, kept: seq<Det>, rest: seq<Det>, threshold: real)
    requires InUnit(d) && AllInUnit(kept) && !Clear(d, kept, threshold) && ByScore((kept + [d]) + rest)
    ensures Suppressed(d, kept, threshold)
  {
    hide Iou;
    var all := (kept + [d]) + rest;
    var k :| 0 <= k < |kept| && !(Iou(kept[k], d) <= threshold);
    assert all[k] == kept[k] && all[|kept|] == d;
  }

  /**
   applyNms selects at most 15 of the given boxes, in score order, no two of them overlapping more than the
   threshold; and a box is left out only if it overlaps a kept box of at least its score, or 15 were kept.
   */
  lemma NmsSelects(ds: seq<Det>, threshold: real)
    requires AllInUnit(ds)
    ensures var kept := Nms(ds, threshold);
            && |kept| <= 15 && AllInUnit(kept) && ByScore(kept) && PairwiseClear(kept, threshold)
            && (forall d :: d in kept ==> d in ds)
            && (forall d :: d in ds ==> d in kept || |kept| == 15 || Suppressed(d, kept, threshold))
  {
    hide Iou, Clear, Suppressed, Nms, OnePass, ByScore, SortByScore;
    var sorted := SortByScore(ds);
    NmsIsOnePass(ds, threshold);
    SortSorts(ds);
    SameMembers(sorted, ds);
    assert [] + sorted == sorted;
    OnePassSelects(sorted, [], threshold);
    OnePassGrows(sorted, [], threshold);
  }

  // ---------------------------------------------------------------------------------------------
  // The smoothing tracker

  datatype Track = Track(box: Det, age: nat)

  ghost predicate TracksInUnit(ts: seq<Track>) {
    forall k :: 0 <= k < |ts| ==> InUnit(ts[k].box)
  }

  function Mix(prev: real, next: real, alpha: real): real {
    prev * (1.0 - alpha) + next * alpha
  }

  /** The exponential moving average of a track and the detection that matches it. */
  function Smooth(prev: Det, d: Det, alpha: real): Det {
    Det(Mix(prev.x1, d.x1, alpha), Mix(prev.y1, d.y1, alpha), Mix(prev.x2, d.x2, alpha), Mix(prev.y2, d.y2, alpha),
        Mix(prev.score, d.score, alpha), d.classId)
  }

  lemma MixOrdered(a: real, b: real, c: real, d: real, alpha: real)
    requires 0.0 <= alpha <= 1.0 && a <= b && c <= d
    ensures Mix(a, c, alpha) <= Mix(b, d, alpha)
  {
    assert a * (1.0 - alpha) <= b * (1.0 - alpha);
    assert c * alpha <= d * alpha;
  }

  lemma SmoothInUnit(prev: Det, d: Det, alpha: real)
    requires 0.0 <= alpha <= 1.0 && InUnit(prev) && InUnit(d)
    ensures InUnit(Smooth(prev, d, alpha))
  {
    assert Mix(0.0, 0.0, alpha) == 0.0 && Mix(1.0, 1.0, alpha) == 1.0;
    hide Mix;
    MixOrdered(0.0, prev.x1, 0.0, d.x1, alpha);
    MixOrdered(prev.x1, prev.x2, d.x1, d.x2, alpha);
    MixOrdered(prev.x2, 1.0, d.x2, 1.0, alpha);
    MixOrdered(0.0, prev.y1, 0.0, d.y1, alpha);
    MixOrdered(prev.y1, prev.y2, d.y1, d.y2, alpha);
    MixOrdered(prev.y2, 1.0, d.y2, 1.0, alpha);
  }
}
