/** How the live muxer cuts the frame stream into segments. */
module HlsCut {
  import opened Frames
  import opened HlsSpec
  import opened HlsOwnership
  import opened HlsWindow

  /** The frames of the segments cut from the stream, watchdog repeats left out. */
  function CutFrames(store: seq<Segment>): seq<Frame> {
    if store == [] then []
    else
      var last := store[|store| - 1];
      CutFrames(store[..|store| - 1]) + if last.genuine then last.frames else []
  }

  function TotalDuration(store: seq<Segment>): int {
    if store == [] then 0
    else
      var last := store[|store| - 1];
      TotalDuration(store[..|store| - 1]) + if last.genuine then last.duration else 0
  }

  /** No keyframe inside comes so late that it should have started the next segment. */
  ghost predicate Uncut(frames: seq<Frame>) {
    forall j :: 0 < j < |frames| && frames[j].isKeyFrame ==> frames[j].timestamp - frames[0].timestamp < TARGET_DURATION
  }

  /** A block: starts at a keyframe, lasts at least the target duration, and holds no keyframe past it. */
  ghost predicate Block(seg: Segment) {
    seg.genuine ==>
      seg.frames != [] && seg.frames[0].isKeyFrame && seg.duration >= TARGET_DURATION && Uncut(seg.frames)
  }

  /** Each block lasts until the next one starts, the last one until `end`. */
  ghost predicate Chained(store: seq<Segment>, end: int) {
    if store == [] then true
    else
      var init, last := store[..|store| - 1], store[|store| - 1];
      if !last.genuine then Chained(init, end)
      else
        && last.frames != [] && last.duration == end - last.frames[0].timestamp
        && Chained(init, last.frames[0].timestamp)
  }

  /** The frames muxed into the buffer of the segment being built. */
  function OpenFrames(m: Muxer): seq<Frame> {
    if m.current.Some? && m.current.value.buf < |m.contents| then m.contents[m.current.value.buf] else []
  }

  ghost predicate Opened(m: Muxer) {
    && m.current.Some?
    && OpenFrames(m) != [] && OpenFrames(m)[0].isKeyFrame && OpenFrames(m)[0].timestamp == m.current.value.start
    && Uncut(OpenFrames(m))
    && Chained(m.store, m.current.value.start)
  }

  ghost predicate Blocks(m: Muxer) {
    && (forall id :: 0 <= id < |m.store| ==> Block(m.store[id]))
    && (!m.stopped ==>
          && CutFrames(m.store) + OpenFrames(m) == FromFirstKey(m.received)
          && (if FromFirstKey(m.received) == [] then m.current.None? else Opened(m)))
  }

  lemma {:induction false} CutSame(a: seq<Segment>, b: seq<Segment>, end: int)
    requires |a| == |b| && Extends(a, b)
    ensures CutFrames(a) == CutFrames(b) && (Chained(a, end) ==> Chained(b, end))
  {
    if a == [] {
    } else {
      CutSame(a[..|a| - 1], b[..|b| - 1], end);
      if a[|a| - 1].frames != [] {
        CutSame(a[..|a| - 1], b[..|b| - 1], a[|a| - 1].frames[0].timestamp);
      }
    }
  }

  /** A change that leaves the segments' identity, the open frames and the input alone. */
  lemma BlocksKept(m: Muxer, r: Muxer)
    requires Blocks(m)
    requires |r.store| == |m.store| && Extends(m.store, r.store)
    requires r.current == m.current && OpenFrames(r) == OpenFrames(m)
    requires r.received == m.received && r.stopped == m.stopped
    ensures Blocks(r)
  {
    hide CutFrames, Chained, FromFirstKey;
    CutSame(m.store, r.store, if m.current.Some? then m.current.value.start else 0);
    forall id | 0 <= id < |r.store| ensures Block(r.store[id]) {
      assert Block(m.store[id]);
    }
  }

  lemma RecycleKeepsOpen(m: Muxer, id: nat)
    requires Owned(m)
    ensures OpenFrames(RecycleIfDue(m, id)) == OpenFrames(m) && RecycleIfDue(m, id).current == m.current
    ensures RecycleIfDue(m, id).received == m.received && RecycleIfDue(m, id).stopped == m.stopped
  {
  }

  lemma EvictKeepsOpen(m: Muxer)
    requires Owned(m) && m.segments != []
    ensures OpenFrames(EvictAndRecycle(m)) == OpenFrames(m) && EvictAndRecycle(m).current == m.current
    ensures EvictAndRecycle(m).received == m.received && EvictAndRecycle(m).stopped == m.stopped
  {
    EvictOwned(m);
    RecycleKeepsOpen(Evict(m), m.segments[0]);
    hide Owned, RecycleIfDue;
    assert OpenFrames(Evict(m)) == OpenFrames(m);
  }

  lemma FinishBlocks(maxSegments: nat, m: Muxer)
    requires Owned(m) && Blocks(m)
    ensures Blocks(Finish(maxSegments, m))
  {
    hide Owned, Render, IndexOf, EvictAndRecycle, Blocks;
    var t := Trim(m, maxSegments);
    if |m.segments| > maxSegments {
      EvictKeepsOpen(m);
      EvictExtends(m);
      EvictQuiet(m);
      BlocksKept(m, t);
    }
    SelfExtends(t.store);
    BlocksKept(t, Rebuild(t));
  }

  // ---------------------------------------------------------------------------------------------
  // A frame

  lemma CutsAppend(store: seq<Segment>, seg: Segment, end: int)
    ensures CutFrames(store + [seg]) == CutFrames(store) + if seg.genuine then seg.frames else []
    ensures !seg.genuine ==> (Chained(store + [seg], end) <==> Chained(store, end))
    ensures (seg.genuine && seg.frames != [] && seg.duration == end - seg.frames[0].timestamp
             && Chained(store, seg.frames[0].timestamp)) ==> Chained(store + [seg], end)
  {
    assert (store + [seg])[..|store|] == store;
  }

  /** The blocks cut so far, when the segment just closed ends at `f`. */
  ghost predicate Closed(m: Muxer, f: Frame, before: seq<Frame>) {
    && (forall id :: 0 <= id < |m.store| ==> Block(m.store[id]))
    && CutFrames(m.store) == before && Chained(m.store, f.timestamp) && m.current.None?
  }

  lemma CutCloses(m: Muxer, f: Frame)
    requires InStore(m) && Opened(m) && Due(m, f)
    requires forall id :: 0 <= id < |m.store| ==> Block(m.store[id])
    ensures Closed(Cut(m, f), f, CutFrames(m.store) + OpenFrames(m))
    ensures Cut(m, f).received == m.received && Cut(m, f).stopped == m.stopped
  {
    hide CutFrames, Chained, Name;
    var r := Cut(m, f);
    var seg := r.store[|m.store|];
    assert r.store == m.store + [seg];
    CutsAppend(m.store, seg, f.timestamp);
  }

  lemma FinishCloses(maxSegments: nat, m: Muxer, f: Frame, before: seq<Frame>)
    requires InStore(m) && Closed(m, f, before)
    ensures Closed(Finish(maxSegments, m), f, before)
  {
    hide CutFrames, Chained;
    FinishExtends(maxSegments, m);
    FinishKeepsCurrent(maxSegments, m);
    FinishStoreLength(maxSegments, m);
    hide Finish;
    var r := Finish(maxSegments, m);
    CutSame(m.store, r.store, f.timestamp);
    forall id | 0 <= id < |r.store| ensures Block(r.store[id]) {
      assert Block(m.store[id]);
    }
  }

  lemma FinishStoreLength(maxSegments: nat, m: Muxer)
    requires InStore(m)
    ensures |Finish(maxSegments, m).store| == |m.store|
  {
    hide Render, IndexOf;
  }

  /** A new segment opens with the keyframe `f`. */
  lemma StartOpens(m: Muxer, f: Frame, reuse: Option<nat>, before: seq<Frame>)
    requires Closed(m, f, before) && f.isKeyFrame
    ensures var r := MuxFrame(TakeBuffer(m, f, reuse), f);
            && Opened(r) && OpenFrames(r) == [f]
            && r.store == m.store && r.received == m.received && r.stopped == m.stopped
  {
    hide CutFrames, Chained;
  }

  lemma ContinueOpen(m: Muxer, f: Frame)
    requires Opened(m) && !Due(m, f)
    ensures var r := MuxFrame(m, f);
            Opened(r) && OpenFrames(r) == OpenFrames(m) + [f] && r.store == m.store && r.received == m.received
            && r.stopped == m.stopped
  {
    hide Chained;
  }

  lemma NothingCutYet(m: Muxer)
    requires Blocks(m) && m.current.None? && !m.stopped
    ensures CutFrames(m.store) == [] && FromFirstKey(m.received) == []
  {
    hide CutFrames, FromFirstKey;
  }

  lemma {:induction false} NoFramesNoBlocks(store: seq<Segment>, end: int)
    requires CutFrames(store) == [] && forall id :: 0 <= id < |store| ==> Block(store[id])
    ensures Chained(store, end)
  {
    if store == [] {
    } else {
      assert Block(store[|store| - 1]);
      NoFramesNoBlocks(store[..|store| - 1], end);
    }
  }

  lemma HandleBlocks(maxSegments: nat, m: Muxer, f: Frame, changed: bool, reuse: Option<nat>)
    requires Owned(m) && Blocks(m) && !m.stopped
    ensures Blocks(HandleFrame(maxSegments, m, f, changed, reuse))
  {
    hide CutFrames, Chained, FromFirstKey, CloseCurrent, TakeBuffer, MuxFrame, Owned, Finish, Cut;
    var m0 := m.(received := m.received + [f],
                 needsDiscontinuity := m.needsDiscontinuity || (f.isKeyFrame && changed));
    FromFirstKeyAppend(m.received, f);
    if m.current.None? {
      NothingCutYet(m);
      if f.isKeyFrame {
        NoFramesNoBlocks(m.store, f.timestamp);
        StartOpens(m0, f, reuse, []);
      } else {
        NoMuxing(m0, f);
      }
    } else if Due(m0, f) {
      CutCloses(m0, f);
      FinishCloses(maxSegments, Cut(m0, f), f, FromFirstKey(m.received));
      FinishKeepsCurrent(maxSegments, Cut(m0, f));
      CloseIsFinish(maxSegments, m0, f);
      StartOpens(Finish(maxSegments, Cut(m0, f)), f, reuse, FromFirstKey(m.received));
    } else {
      ContinueOpen(m0, f);
    }
  }

  lemma NoMuxing(m: Muxer, f: Frame)
    requires m.current.None?
    ensures MuxFrame(m, f) == m
  {
  }

  lemma CloseIsFinish(maxSegments: nat, m: Muxer, f: Frame)
    requires InStore(m) && m.current.Some?
    ensures CloseCurrent(maxSegments, m, f) == Finish(maxSegments, Cut(m, f))
  {
    hide Finish, Cut;
  }

  // ---------------------------------------------------------------------------------------------
  // The other steps, and every run

  lemma PublishRepeatBlocks(m: Muxer, duration: int, data: seq<Frame>)
    requires Blocks(m)
    ensures Blocks(Publish(m, duration, true, None, data, data))
  {
    hide CutFrames, Chained, FromFirstKey, Name;
    var r := Publish(m, duration, true, None, data, data);
    var seg := r.store[|m.store|];
    assert r.store == m.store + [seg];
    CutsAppend(m.store, seg, if m.current.Some? then m.current.value.start else 0);
    assert OpenFrames(r) == OpenFrames(m);
  }

  lemma RepeatBlocks(maxSegments: nat, m: Muxer)
    requires Owned(m) && Blocks(m)
    ensures Blocks(RepeatLast(maxSegments, m))
  {
    hide Owned, Finish, Publish, Blocks;
    if m.segments != [] {
      var last := m.segments[|m.segments| - 1];
      var data := Data(m, last);
      var p := Publish(m, m.store[last].duration, true, None, data, data);
      PublishOwned(m, m.store[last].duration, true, None, data, data);
      PublishRepeatBlocks(m, m.store[last].duration, data);
      FinishBlocks(maxSegments, p);
      SelfExtends(Finish(maxSegments, p).store);
      BlocksKept(Finish(maxSegments, p), RepeatLast(maxSegments, m));
    }
  }

  lemma CountingKeepsOpen(m: Muxer, id: nat)
    requires InStore(m) && id < |m.store|
    ensures OpenFrames(Retain(m, id)) == OpenFrames(m) && Retain(m, id).current == m.current
    ensures Retain(m, id).received == m.received
    ensures m.held[id] > 0 ==>
              && OpenFrames(ReleaseHeld(m, id)) == OpenFrames(m) && ReleaseHeld(m, id).current == m.current
              && ReleaseHeld(m, id).received == m.received
  {
  }

  lemma StopBlocks(maxSegments: nat, m: Muxer)
    requires InStore(m) && Blocks(m)
    ensures Blocks(Step(maxSegments, m, Stop))
  {
    hide ReleaseAll, CutFrames, Chained, FromFirstKey;
    ReleaseAllExtends(m);
    ReleaseAllWindow(m);
    var r := Step(maxSegments, m, Stop);
    forall id | 0 <= id < |r.store| ensures Block(r.store[id]) {
      assert Block(m.store[id]);
    }
  }

  lemma StepBlocks(maxSegments: nat, m: Muxer, op: Op)
    requires Owned(m) && Blocks(m)
    ensures Blocks(Step(maxSegments, m, op))
  {
    hide Owned, Blocks, HandleFrame, RepeatLast, Find, LookupName, ReleaseAll, Retain;
    hide ReleaseHeld, RecycleIfDue, Extends;
    var r := Step(maxSegments, m, op);
    match op
    case OnFrame(f, changed, reuse) =>
      if !m.stopped {
        HandleBlocks(maxSegments, m, f, changed, reuse);
      }
    case Watchdog(stale) => RepeatBlocks(maxSegments, m);
    case Acquire(name) =>
      var id := Find(m, LookupName(name));
      if id.Some? && id.value < |m.store| {
        CountingQuiet(m, id.value);
        CountingKeepsOpen(m, id.value);
        BlocksKept(m, r);
      }
    case Drop(id) =>
      if id < |m.store| && m.held[id] > 0 {
        CountingQuiet(m, id);
        CountingKeepsOpen(m, id);
        BlocksKept(m, r);
      }
    case Recycle(id) =>
      CountingQuiet(m, id);
      RecycleKeepsOpen(m, id);
      BlocksKept(m, r);
    case PoolForgets(b) =>
      SelfExtends(m.store);
      BlocksKept(m, r);
    case Stop => StopBlocks(maxSegments, m);
  }

  /**
   Over every run, until Stop: the segments cut from the stream, in order and followed by the frames of the segment
   being built, are exactly the frames from the first keyframe on; each segment starts at a keyframe, lasts at least
   the target duration, holds no keyframe past it, and ends where the next one starts.
   */
  lemma {:induction false} EveryRunCuts(maxSegments: nat, ops: seq<Op>)
    requires maxSegments > 0
    ensures Blocks(Run(maxSegments, ops))
  {
    if ops == [] {
      assert FromFirstKey([]) == [];
    } else {
      EveryRunCuts(maxSegments, ops[..|ops| - 1]);
      EveryRun(maxSegments, ops[..|ops| - 1]);
      hide Blocks, Owned, Step, Windowed;
      StepBlocks(maxSegments, Run(maxSegments, ops[..|ops| - 1]), ops[|ops| - 1]);
    }
  }

  // ---------------------------------------------------------------------------------------------
  // The cut as a function of the stream

  /** The stream cut before every keyframe that comes at least two seconds after the last cut. */
  function Pieces(frames: seq<Frame>): (ps: seq<seq<Frame>>)
    ensures (ps == [] <==> frames == []) && forall k :: 0 <= k < |ps| ==> ps[k] != []
  {
    if frames == [] then []
    else
      var ps, f := Pieces(frames[..|frames| - 1]), frames[|frames| - 1];
      if ps == [] then [[f]]
      else
        var last := ps[|ps| - 1];
        if f.isKeyFrame && f.timestamp - last[0].timestamp >= 2_000_000_000 then ps + [[f]]
        else ps[..|ps| - 1] + [last + [f]]
  }

  /** The frames of each segment cut from the stream. */
  function CutBlocks(store: seq<Segment>): seq<seq<Frame>> {
    if store == [] then []
    else
      var last := store[|store| - 1];
      CutBlocks(store[..|store| - 1]) + if last.genuine then [last.frames] else []
  }

  lemma PieceGrows(frames: seq<Frame>, ps: seq<seq<Frame>>, last: seq<Frame>, f: Frame)
    requires last != [] && Pieces(frames) == ps + [last]
    ensures Pieces(frames + [f])
         == if f.isKeyFrame && f.timestamp - last[0].timestamp >= TARGET_DURATION then ps + [last] + [[f]]
            else ps + [last + [f]]
  {
    assert (frames + [f])[..|frames|] == frames;
    assert (ps + [last])[..|ps|] == ps;
  }

  /** Chained blocks up to an open one are the pieces of their frames: there is no other way to cut the stream. */
  lemma {:induction false} BlocksArePieces(store: seq<Segment>, open: seq<Frame>)
    requires open != [] && open[0].isKeyFrame && Uncut(open) && Chained(store, open[0].timestamp)
    requires forall id :: 0 <= id < |store| ==> Block(store[id])
    ensures CutBlocks(store) + [open] == Pieces(CutFrames(store) + open)
    decreases |store|, |open|
  {
    hide Pieces;
    var n := |open| - 1;
    if n > 0 {
      var init, f := open[..n], open[n];
      BlocksArePieces(store, init);
      PieceGrows(CutFrames(store) + init, CutBlocks(store), init, f);
      assert open == init + [f] && (CutFrames(store) + init) + [f] == CutFrames(store) + open;
    } else if store == [] {
      OnePiece(open[0]);
      assert open == [open[0]] && CutFrames(store) + open == open;
    } else {
      var init, last := store[..|store| - 1], store[|store| - 1];
      assert Block(last);
      if !last.genuine {
        BlocksArePieces(init, open);
        assert CutBlocks(store) == CutBlocks(init) && CutFrames(store) == CutFrames(init);
      } else {
        BlocksArePieces(init, last.frames);
        PieceGrows(CutFrames(store), CutBlocks(init), last.frames, open[0]);
        assert open == [open[0]];
      }
    }
  }

  lemma OnePiece(f: Frame)
    ensures Pieces([f]) == [[f]]
  {
    assert [f][..0] == [];
  }

  /** Over every run, until Stop: the segments cut, with the one being built, are the pieces of the stream. */
  lemma EveryRunPieces(maxSegments: nat, ops: seq<Op>)
    requires maxSegments > 0
    ensures var m := Run(maxSegments, ops);
            !m.stopped && m.current.Some? ==> CutBlocks(m.store) + [OpenFrames(m)] == Pieces(FromFirstKey(m.received))
  {
    EveryRunCuts(maxSegments, ops);
    hide Run, CutFrames, CutBlocks, Chained, Pieces, FromFirstKey;
    var m := Run(maxSegments, ops);
    if !m.stopped && m.current.Some? {
      BlocksArePieces(m.store, OpenFrames(m));
    }
  }

  lemma {:induction false} ChainTelescopes(store: seq<Segment>, end: int)
    requires Chained(store, end)
    ensures CutFrames(store) == [] ==> TotalDuration(store) == 0
    ensures CutFrames(store) != [] ==> TotalDuration(store) == end - CutFrames(store)[0].timestamp
  {
    if store == [] {
    } else {
      var init, last := store[..|store| - 1], store[|store| - 1];
      ChainTelescopes(init, if last.genuine then last.frames[0].timestamp else end);
    }
  }

  /** So the published durations of a run add up to the time between the first keyframe and the open segment. */
  lemma DurationsTelescope(maxSegments: nat, ops: seq<Op>)
    requires maxSegments > 0
    ensures var m := Run(maxSegments, ops);
            !m.stopped && m.current.Some? ==>
              && FromFirstKey(m.received) != []
              && TotalDuration(m.store) == m.current.value.start - FromFirstKey(m.received)[0].timestamp
  {
    EveryRunCuts(maxSegments, ops);
    hide Run;
    var m := Run(maxSegments, ops);
    if !m.stopped && m.current.Some? {
      ChainTelescopes(m.store, m.current.value.start);
      hide CutFrames, Chained, TotalDuration, FromFirstKey;
      assert FromFirstKey(m.received)[0]
          == if CutFrames(m.store) == [] then OpenFrames(m)[0] else CutFrames(m.store)[0];
    }
  }

  // ---------------------------------------------------------------------------------------------
  // Discontinuities around watchdog repeats

  /** A repeated segment is marked, and so is the first segment cut from the stream after it. */
  ghost predicate MarkedAt(store: seq<Segment>, id: nat)
    requires id < |store|
  {
    !store[id].genuine || (id > 0 && !store[id - 1].genuine) ==> store[id].isDiscontinuity
  }

  ghost predicate Marked(store: seq<Segment>) {
    forall id :: 0 <= id < |store| ==> MarkedAt(store, id)
  }

  ghost predicate Tagged(m: Muxer) {
    Marked(m.store) && (m.store != [] && !m.store[|m.store| - 1].genuine ==> m.needsDiscontinuity)
  }

  lemma TaggedKept(m: Muxer, r: Muxer)
    requires Tagged(m) && |r.store| == |m.store| && Extends(m.store, r.store)
    requires m.needsDiscontinuity ==> r.needsDiscontinuity
    ensures Tagged(r)
  {
    MarkedExtends(m.store, r.store);
  }

  lemma FinishFlag(maxSegments: nat, m: Muxer)
    requires InStore(m)
    ensures Finish(maxSegments, m).needsDiscontinuity == m.needsDiscontinuity
  {
    hide Render, IndexOf;
  }

  lemma FinishTagged(maxSegments: nat, m: Muxer)
    requires InStore(m) && Tagged(m)
    ensures Tagged(Finish(maxSegments, m))
  {
    FinishExtends(maxSegments, m);
    FinishStoreLength(maxSegments, m);
    FinishFlag(maxSegments, m);
    hide Finish;
    TaggedKept(m, Finish(maxSegments, m));
  }

  lemma CutTagged(m: Muxer, f: Frame)
    requires InStore(m) && m.current.Some? && Tagged(m)
    ensures Tagged(Cut(m, f))
  {
    hide Name;
    MarkedAppend(m.store, Cut(m, f).store[|m.store|]);
  }

  lemma MuxingKeepsFlag(m: Muxer, f: Frame, reuse: Option<nat>)
    ensures TakeBuffer(m, f, reuse).needsDiscontinuity == m.needsDiscontinuity == MuxFrame(m, f).needsDiscontinuity
  {
  }

  lemma HandleTagged(maxSegments: nat, m: Muxer, f: Frame, changed: bool, reuse: Option<nat>)
    requires InStore(m) && Tagged(m)
    ensures Tagged(HandleFrame(maxSegments, m, f, changed, reuse))
  {
    hide Finish, Cut, TakeBuffer, MuxFrame, Marked, Extends;
    var m0 := m.(received := m.received + [f],
                 needsDiscontinuity := m.needsDiscontinuity || (f.isKeyFrame && changed));
    SelfExtends(m.store);
    TaggedKept(m, m0);
    var m1 := if Due(m0, f) then CloseCurrent(maxSegments, m0, f) else m0;
    if Due(m0, f) {
      CutTagged(m0, f);
      FinishTagged(maxSegments, Cut(m0, f));
    }
    var m2 := if m1.current.None? && f.isKeyFrame then TakeBuffer(m1, f, reuse) else m1;
    MuxingKeepsStore(m1, f, reuse);
    MuxingKeepsFlag(m1, f, reuse);
    SelfExtends(m1.store);
    TaggedKept(m1, m2);
    MuxingKeepsStore(m2, f, reuse);
    MuxingKeepsFlag(m2, f, reuse);
    TaggedKept(m2, MuxFrame(m2, f));
  }

  lemma PublishRepeatTagged(m: Muxer, duration: int, data: seq<Frame>)
    requires Tagged(m)
    ensures Marked(Publish(m, duration, true, None, data, data).store)
  {
    hide Name;
    MarkedAppend(m.store, Publish(m, duration, true, None, data, data).store[|m.store|]);
  }

  lemma MarkedExtends(a: seq<Segment>, b: seq<Segment>)
    requires Marked(a) && |a| == |b| && Extends(a, b)
    ensures Marked(b)
  {
    forall id | 0 <= id < |b| ensures MarkedAt(b, id) {
      assert MarkedAt(a, id);
    }
  }

  lemma MarkedAppend(store: seq<Segment>, seg: Segment)
    requires Marked(store)
    requires !seg.genuine || (store != [] && !store[|store| - 1].genuine) ==> seg.isDiscontinuity
    ensures Marked(store + [seg])
  {
    forall id | 0 <= id < |store + [seg]| ensures MarkedAt(store + [seg], id) {
      if id < |store| {
        assert MarkedAt(store, id);
      }
    }
  }

  /** The watchdog repeats the newest segment: same frames and duration, marked, under the next number. */
  lemma WatchdogRepeats(maxSegments: nat, m: Muxer)
    requires Windowed(maxSegments, m) && Owned(m) && m.segments != []
    ensures var r := RepeatLast(maxSegments, m);
            var last, repeat := m.store[|m.store| - 1], r.store[|m.store|];
            && |r.store| == |m.store| + 1 && r.seqCount == m.seqCount + 1
            && repeat.frames == last.frames && repeat.duration == last.duration
            && repeat.isDiscontinuity && !repeat.genuine
  {
    hide Finish, Name, Render, IndexOf;
    var last := m.segments[|m.segments| - 1];
    assert last == |m.store| - 1;
    assert SegmentSound(m, last);
    var data := Data(m, last);
    var p := Publish(m, m.store[last].duration, true, None, data, data);
    FinishExtends(maxSegments, p);
    FinishStoreLength(maxSegments, p);
    FinishLength(maxSegments, p);
  }

  lemma RepeatTagged(maxSegments: nat, m: Muxer)
    requires InStore(m) && Tagged(m)
    ensures Tagged(RepeatLast(maxSegments, m))
  {
    hide Finish, Publish, Marked, Extends;
    if m.segments != [] {
      var last := m.segments[|m.segments| - 1];
      var data := Data(m, last);
      var p := Publish(m, m.store[last].duration, true, None, data, data);
      PublishRepeatTagged(m, m.store[last].duration, data);
      FinishExtends(maxSegments, p);
      FinishStoreLength(maxSegments, p);
      MarkedExtends(p.store, Finish(maxSegments, p).store);
    }
  }

  lemma StepTagged(maxSegments: nat, m: Muxer, op: Op)
    requires InStore(m) && Tagged(m)
    ensures Tagged(Step(maxSegments, m, op))
  {
    hide Tagged, HandleFrame, RepeatLast, Find, LookupName, ReleaseAll, Retain, ReleaseHeld, RecycleIfDue, Extends;
    var r := Step(maxSegments, m, op);
    SelfExtends(m.store);
    match op
    case OnFrame(f, changed, reuse) => HandleTagged(maxSegments, m, f, changed, reuse);
    case Watchdog(stale) => RepeatTagged(maxSegments, m);
    case Acquire(name) =>
      var id := Find(m, LookupName(name));
      if id.Some? && id.value < |m.store| {
        CountingQuiet(m, id.value);
        CountingKeepsFlag(m, id.value);
        TaggedKept(m, r);
      }
    case Drop(id) =>
      if id < |m.store| && m.held[id] > 0 {
        CountingQuiet(m, id);
        CountingKeepsFlag(m, id);
        TaggedKept(m, r);
      }
    case Recycle(id) =>
      CountingQuiet(m, id);
      CountingKeepsFlag(m, id);
      TaggedKept(m, r);
    case PoolForgets(b) => TaggedKept(m, r);
    case Stop =>
      ReleaseAllExtends(m);
      ReleaseAllWindow(m);
      ReleaseAllKeepsFlag(m);
      TaggedKept(m, r);
  }

  lemma CountingKeepsFlag(m: Muxer, id: nat)
    requires InStore(m)
    ensures RecycleIfDue(m, id).needsDiscontinuity == m.needsDiscontinuity
    ensures id < |m.store| ==> Retain(m, id).needsDiscontinuity == m.needsDiscontinuity
    ensures id < |m.store| && m.held[id] > 0 ==> ReleaseHeld(m, id).needsDiscontinuity == m.needsDiscontinuity
  {
  }

  lemma {:induction false} ReleaseAllKeepsFlag(m: Muxer)
    requires InStore(m)
    ensures ReleaseAll(m).needsDiscontinuity == m.needsDiscontinuity
    decreases |m.segments|
  {
    if m.segments == [] {
    } else {
      EvictShrinks(m);
      assert EvictAndRecycle(m).needsDiscontinuity == m.needsDiscontinuity;
      ReleaseAllKeepsFlag(EvictAndRecycle(m));
    }
  }

  /**
   Over every run, the jump in time that a watchdog repeat makes is announced on both sides: the repeat carries
   EXT-X-DISCONTINUITY, and so does the first segment cut from the stream after it.
   */
  lemma {:induction false} EveryRunTagged(maxSegments: nat, ops: seq<Op>)
    ensures Tagged(Run(maxSegments, ops))
  {
    hide Step;
    if ops == [] {
    } else {
      EveryRunTagged(maxSegments, ops[..|ops| - 1]);
      StepTagged(maxSegments, Run(maxSegments, ops[..|ops| - 1]), ops[|ops| - 1]);
    }
  }
}
