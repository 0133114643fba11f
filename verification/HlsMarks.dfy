/** Which segments carry EXT-X-DISCONTINUITY, over every run, in terms of the calls alone (internal/hls/muxer.go). */
module HlsMarks {
  import opened Frames
  import opened HlsSpec
  import opened HlsOwnership
  import opened HlsWindow
  import opened HlsCut

  /** The number of segments cut from the stream, watchdog repeats left out. */
  function Cuts(store: seq<Segment>): nat {
    if store == [] then 0 else Cuts(store[..|store| - 1]) + if store[|store| - 1].genuine then 1 else 0
  }

  /** A call after which the timeline jumps: new codec parameters with a keyframe, or a watchdog repeat. */
  predicate Breaks(m: Muxer, op: Op) {
    match op
    case OnFrame(f, changed, _) => !m.stopped && f.isKeyFrame && changed
    case Watchdog(stale) => stale && m.segments != []
    case _ => false
  }

  ghost predicate BrokenAt(maxSegments: nat, ops: seq<Op>, n: nat) {
    n < |ops| && Breaks(Run(maxSegments, ops[..n]), ops[n])
  }

  /** Call `n` made the timeline jump, and no segment has been cut since. */
  ghost predicate Unmarked(maxSegments: nat, ops: seq<Op>, n: nat) {
    BrokenAt(maxSegments, ops, n) && Cuts(Run(maxSegments, ops[..n]).store) == Cuts(Run(maxSegments, ops).store)
  }

  ghost predicate MarkDue(maxSegments: nat, ops: seq<Op>) {
    exists n :: Unmarked(maxSegments, ops, n)
  }

  // ---------------------------------------------------------------------------------------------
  // One call

  lemma {:induction false} CutsExtend(a: seq<Segment>, b: seq<Segment>)
    requires |a| == |b| && Extends(a, b)
    ensures Cuts(a) == Cuts(b)
  {
    if a == [] {
    } else {
      CutsExtend(a[..|a| - 1], b[..|b| - 1]);
    }
  }

  lemma CutsOne(store: seq<Segment>, seg: Segment)
    ensures Cuts(store + [seg]) == Cuts(store) + if seg.genuine then 1 else 0
  {
    assert (store + [seg])[..|store|] == store;
  }

  lemma FinishCounts(maxSegments: nat, m: Muxer)
    requires InStore(m)
    ensures var r := Finish(maxSegments, m);
            && |r.store| == |m.store| && Extends(m.store, r.store) && Cuts(r.store) == Cuts(m.store)
            && r.needsDiscontinuity == m.needsDiscontinuity
  {
    hide Finish, Cuts, Extends;
    FinishExtends(maxSegments, m);
    FinishStoreLength(maxSegments, m);
    FinishFlag(maxSegments, m);
    CutsExtend(m.store, Finish(maxSegments, m).store);
  }

  /** A frame that closes a segment: the segment takes the mark that is due, and none is due afterwards. */
  lemma CloseMarks(maxSegments: nat, m: Muxer, f: Frame)
    requires InStore(m) && m.current.Some?
    ensures var r := CloseCurrent(maxSegments, m, f);
            && |r.store| == |m.store| + 1 && Cuts(r.store) == Cuts(m.store) + 1
            && r.store[|m.store|].isDiscontinuity == m.needsDiscontinuity && !r.needsDiscontinuity
  {
    var p := Cut(m, f);
    var seg := p.store[|m.store|];
    assert p.store == m.store + [seg] && seg.genuine && seg.isDiscontinuity == m.needsDiscontinuity;
    CutsOne(m.store, seg);
    FinishCounts(maxSegments, p);
    CloseIsFinish(maxSegments, m, f);
    hide Finish, Cut, CloseCurrent, Cuts;
  }

  lemma RepeatMarks(maxSegments: nat, m: Muxer)
    requires InStore(m) && m.segments != []
    ensures var r := RepeatLast(maxSegments, m); Cuts(r.store) == Cuts(m.store) && r.needsDiscontinuity
  {
    hide Finish, Cuts, Name;
    var last := m.segments[|m.segments| - 1];
    var data := Data(m, last);
    var p := Publish(m, m.store[last].duration, true, None, data, data);
    CutsOne(m.store, p.store[|m.store|]);
    FinishCounts(maxSegments, p);
  }

  /** A frame closes a segment exactly when it is a keyframe at least the target duration after the segment's start. */
  predicate Closes(m: Muxer, op: Op) {
    op.OnFrame? && !m.stopped && Due(m, op.f)
  }

  lemma HandleMarks(maxSegments: nat, m: Muxer, f: Frame, changed: bool, reuse: Option<nat>)
    requires InStore(m)
    ensures var r := HandleFrame(maxSegments, m, f, changed, reuse);
            var flag := m.needsDiscontinuity || (f.isKeyFrame && changed);
            && (if Due(m, f) then
                  && |r.store| == |m.store| + 1 && Cuts(r.store) == Cuts(m.store) + 1
                  && r.store[|m.store|].isDiscontinuity == flag && !r.needsDiscontinuity
                else r.store == m.store && r.needsDiscontinuity == flag)
  {
    hide CloseCurrent, TakeBuffer, MuxFrame, Cuts;
    var m0 := m.(received := m.received + [f],
                 needsDiscontinuity := m.needsDiscontinuity || (f.isKeyFrame && changed));
    if Due(m0, f) {
      CloseMarks(maxSegments, m0, f);
    }
    var m1 := if Due(m0, f) then CloseCurrent(maxSegments, m0, f) else m0;
    var m2 := if m1.current.None? && f.isKeyFrame then TakeBuffer(m1, f, reuse) else m1;
    MuxingKeepsStore(m1, f, reuse);
    MuxingKeepsFlag(m1, f, reuse);
    MuxingKeepsStore(m2, f, reuse);
    MuxingKeepsFlag(m2, f, reuse);
  }

  lemma QuietMarks(m: Muxer, r: Muxer)
    requires |r.store| == |m.store| && Extends(m.store, r.store)
    ensures Cuts(r.store) == Cuts(m.store)
  {
    CutsExtend(m.store, r.store);
  }

  lemma StepMarks(maxSegments: nat, m: Muxer, op: Op)
    requires InStore(m)
    ensures var r := Step(maxSegments, m, op);
            && (if Closes(m, op) then
                  && |r.store| == |m.store| + 1 && Cuts(r.store) == Cuts(m.store) + 1
                  && r.store[|m.store|].isDiscontinuity == (m.needsDiscontinuity || Breaks(m, op))
                  && !r.needsDiscontinuity
                else Cuts(r.store) == Cuts(m.store) && r.needsDiscontinuity == (m.needsDiscontinuity || Breaks(m, op)))
  {
    hide HandleFrame, RepeatLast, Find, LookupName, ReleaseAll, Retain, ReleaseHeld, RecycleIfDue, Extends, Cuts;
    var r := Step(maxSegments, m, op);
    match op
    case OnFrame(f, changed, reuse) => HandleMarks(maxSegments, m, f, changed, reuse);
    case Watchdog(stale) =>
      if stale && m.segments != [] {
        RepeatMarks(maxSegments, m);
      } else {
        NothingRepeated(maxSegments, m);
      }
    case Acquire(name) =>
      var id := Find(m, LookupName(name));
      if id.Some? && id.value < |m.store| {
        CountingQuiet(m, id.value);
        CountingKeepsFlag(m, id.value);
        QuietMarks(m, r);
      }
    case Drop(id) =>
      if id < |m.store| && m.held[id] > 0 {
        CountingQuiet(m, id);
        CountingKeepsFlag(m, id);
        QuietMarks(m, r);
      }
    case Recycle(id) =>
      CountingQuiet(m, id);
      CountingKeepsFlag(m, id);
      QuietMarks(m, r);
    case PoolForgets(b) =>
    case Stop =>
      ReleaseAllExtends(m);
      ReleaseAllWindow(m);
      ReleaseAllKeepsFlag(m);
      QuietMarks(m, r);
  }

  lemma NothingRepeated(maxSegments: nat, m: Muxer)
    requires InStore(m)
    ensures m.segments == [] ==> RepeatLast(maxSegments, m) == m
  {
  }

  // ---------------------------------------------------------------------------------------------
  // Every run

  lemma {:induction false} CutsGrow(maxSegments: nat, ops: seq<Op>, n: nat)
    requires n <= |ops|
    ensures Cuts(Run(maxSegments, ops[..n]).store) <= Cuts(Run(maxSegments, ops).store)
  {
    if n == |ops| {
      assert ops[..n] == ops;
    } else {
      var init := ops[..|ops| - 1];
      assert init[..n] == ops[..n];
      CutsGrow(maxSegments, init, n);
      hide Step, Cuts;
      StepMarks(maxSegments, Run(maxSegments, init), ops[|ops| - 1]);
    }
  }

  lemma MarkDueStep(maxSegments: nat, ops: seq<Op>)
    requires ops != []
    ensures var init, n := ops[..|ops| - 1], |ops| - 1;
            MarkDue(maxSegments, ops) <==>
              && !Closes(Run(maxSegments, init), ops[n])
              && (MarkDue(maxSegments, init) || Breaks(Run(maxSegments, init), ops[n]))
  {
    var init, last := ops[..|ops| - 1], |ops| - 1;
    var m := Run(maxSegments, init);
    hide Run, Unmarked, Breaks, Closes;
    if MarkDue(maxSegments, ops) {
      var n :| Unmarked(maxSegments, ops, n);
      UnmarkedStep(maxSegments, ops, n);
      assert n == last || Unmarked(maxSegments, init, n);
    }
    if !Closes(m, ops[last]) && MarkDue(maxSegments, init) {
      var n :| Unmarked(maxSegments, init, n);
      UnmarkedStep(maxSegments, ops, n);
    }
    if !Closes(m, ops[last]) && Breaks(m, ops[last]) {
      UnmarkedStep(maxSegments, ops, last);
    }
  }

  /** How one call changes what is unmarked. */
  lemma UnmarkedStep(maxSegments: nat, ops: seq<Op>, n: nat)
    requires ops != []
    ensures var init, last := ops[..|ops| - 1], |ops| - 1;
            var m := Run(maxSegments, init);
            Unmarked(maxSegments, ops, n) <==>
              !Closes(m, ops[last]) && (Unmarked(maxSegments, init, n) || (n == last && Breaks(m, ops[last])))
  {
    var init, last := ops[..|ops| - 1], |ops| - 1;
    var m := Run(maxSegments, init);
    assert Run(maxSegments, ops) == Step(maxSegments, m, ops[last]);
    CutsStep(maxSegments, m, ops[last]);
    hide Run, Step, Cuts, Breaks, Closes;
    if n < last {
      assert ops[..n] == init[..n] && ops[n] == init[n];
      CutsGrow(maxSegments, init, n);
    } else if n == last {
      assert ops[..n] == init;
    }
  }

  lemma CutsStep(maxSegments: nat, m: Muxer, op: Op)
    requires InStore(m)
    ensures Cuts(Step(maxSegments, m, op).store) == Cuts(m.store) + if Closes(m, op) then 1 else 0
  {
    hide Step, Cuts, Closes;
    StepMarks(maxSegments, m, op);
  }

  /** The muxer's flag, in every run: a mark is due exactly when the timeline has jumped since the last cut. */
  lemma {:induction false} FlagExactly(maxSegments: nat, ops: seq<Op>)
    ensures Run(maxSegments, ops).needsDiscontinuity <==> MarkDue(maxSegments, ops)
  {
    if ops == [] {
    } else {
      var init := ops[..|ops| - 1];
      FlagExactly(maxSegments, init);
      MarkDueStep(maxSegments, ops);
      StepMarks(maxSegments, Run(maxSegments, init), ops[|ops| - 1]);
      hide Step, MarkDue, Cuts;
    }
  }

  /**
   Exactly which cut segments are marked, in every run: the segment that a frame closes carries EXT-X-DISCONTINUITY
   if and only if since the segment before it was cut, up to and including that frame, the codec parameters changed
   or the watchdog repeated a segment.
   */
  lemma MarkedExactly(maxSegments: nat, ops: seq<Op>)
    requires ops != []
    ensures var m, op := Run(maxSegments, ops[..|ops| - 1]), ops[|ops| - 1];
            Closes(m, op) ==>
              && |Run(maxSegments, ops).store| == |m.store| + 1
              && (Run(maxSegments, ops).store[|m.store|].isDiscontinuity <==>
                    MarkDue(maxSegments, ops[..|ops| - 1]) || op.paramsChanged)
  {
    var init := ops[..|ops| - 1];
    FlagExactly(maxSegments, init);
    StepMarks(maxSegments, Run(maxSegments, init), ops[|ops| - 1]);
    hide Step, MarkDue, Cuts;
  }
}
