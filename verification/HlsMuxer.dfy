/**
 The live HLS muxer, updating its state in place (internal/hls/muxer.go).

 Each method is one lock-protected call, or the part of the run loop that handles one frame. Segments and buffers are
 named by their positions, as in module HlsSpec, whose steps these methods are proved to make. A Release runs to its
 end here; HlsSpec also covers the interleavings in which it is interrupted after its decrement.
 */
module HlsMuxer {
  import opened Frames
  import opened HlsSpec
  import opened HlsOwnership

  class LiveMuxer {
    const maxSegments: nat
    var store: seq<Segment>
    var segments: seq<nat>
    var segIndex: map<string, nat>
    var seqCount: nat
    var needsDiscontinuity: bool
    var cachedPlaylist: Option<seq<Line>>
    var cachedSubsPlaylist: Option<seq<Line>>
    var currentBuf: Option<nat>
    var segmentStart: int
    var contents: seq<seq<Frame>>
    var bufferPool: multiset<nat>
    ghost var held: seq<nat>
    ghost var stopped: bool
    ghost var received: seq<Frame>

    ghost function View(): Muxer
      reads this
    {
      Muxer(store, segments, segIndex, seqCount, needsDiscontinuity, cachedPlaylist, cachedSubsPlaylist,
            if currentBuf.Some? then Some(Current(currentBuf.value, segmentStart)) else None,
            contents, bufferPool, held, {}, stopped, received)
    }

    /** NewMuxer: fewer than three segments, or no limit given, means three. */
    constructor (limit: Option<int>)
      ensures View() == INITIAL
      ensures maxSegments == if limit.Some? && limit.value >= 3 then limit.value else 3
    {
      maxSegments := if limit.Some? && limit.value >= 3 then limit.value else 3;
      store, segments, segIndex, seqCount, needsDiscontinuity := [], [], map[], 0, false;
      cachedPlaylist, cachedSubsPlaylist, currentBuf, segmentStart := None, None, None, 0;
      contents, bufferPool, held, stopped, received := [], multiset{}, [], false, [];
    }

    /** rebuildPlaylistsLocked */
    method RebuildPlaylists()
      requires InStore(View())
      modifies this`segIndex, this`cachedPlaylist, this`cachedSubsPlaylist
      ensures View() == Rebuild(old(View()))
    {
      hide Entries, MaxSeconds, IndexOf;
      ghost var w := Window(View());
      if |segments| == 0 {
        segIndex := map[];
        return;
      }
      var ids, all := segments, store;
      var segs := seq(|ids|, k requires 0 <= k < |ids| => all[ids[k]]);
      assert segs == w;
      var index := BuildIndex(segs, segments);
      var maxDuration := LongestSeconds(segs);
      var first := seqCount - |segs| + 1;
      var video := RenderEntries(segs, false);
      var subs := RenderEntries(segs, true);
      segIndex := index;
      cachedPlaylist := Some([ExtM3U, Version(3), TargetLine(maxDuration + 1), MediaSequence(first)] + video);
      cachedSubsPlaylist := Some([ExtM3U, Version(3), TargetLine(maxDuration + 1), MediaSequence(first)] + subs);
    }

    /** Release: the last one resets the buffer and puts it back into the pool. */
    method Release(id: nat)
      requires id < |store|
      modifies this`store, this`contents, this`bufferPool
      ensures View() == RecycleIfDue(Decrement(old(View()), id), id)
    {
      var seg := store[id].(refCount := store[id].refCount - 1);
      store := store[id := seg];
      if seg.refCount == 0 {
        if seg.buf.Some? {
          if seg.buf.value < |contents| {
            contents := contents[seg.buf.value := []];
          }
          bufferPool := bufferPool + multiset{seg.buf.value};
          store := store[id := seg.(buf := None)];
        }
      }
      ghost var m := Decrement(old(View()), id);
      assert m.recycling - {id} == {};
      assert store == RecycleIfDue(m, id).store;
    }

    /** The end of publishing a segment: the window is cut to size and the playlists are rendered again. */
    method TrimAndRebuild()
      requires InStore(View())
      modifies this
      ensures View() == Finish(maxSegments, old(View()))
    {
      hide Rebuild, RecycleIfDue, Decrement;
      if |segments| > maxSegments {
        var oldSeg := segments[0];
        segments := segments[1..];
        Release(oldSeg);
      }
      assert View() == Trim(old(View()), maxSegments);
      RebuildPlaylists();
    }

    method Append(seg: Segment)
      modifies this`seqCount, this`store, this`held, this`segments
      ensures View() == old(View()).(seqCount := old(seqCount) + 1,
                                     store := old(store) + [seg], held := old(held) + [0],
                                     segments := old(segments) + [|old(store)|])
    {
      seqCount := seqCount + 1;
      segments := segments + [|store|];
      store := store + [seg];
      held := held + [0];
    }

    /** The segment reached its target length and a keyframe arrived. */
    method CloseSegment(f: Frame)
      requires InStore(View()) && currentBuf.Some?
      modifies this
      ensures View() == CloseCurrent(maxSegments, old(View()), f)
    {
      hide Finish, Name;
      var data := if currentBuf.value < |contents| then contents[currentBuf.value] else [];
      var name, duration := Name(seqCount + 1), f.timestamp - segmentStart;
      var seg := Segment(name, duration, needsDiscontinuity, 1, currentBuf, [], true, data);
      currentBuf := None;
      Append(seg);
      needsDiscontinuity := false;
      assert View() == Cut(old(View()), f);
      TrimAndRebuild();
    }

    /** One frame of the run loop; `reuse` is the buffer the pool hands out, if any. */
    method OnFrame(f: Frame, paramsChanged: bool, reuse: Option<nat>)
      requires InStore(View())
      modifies this
      ensures View() == HandleFrame(maxSegments, old(View()), f, paramsChanged, reuse)
    {
      hide CloseCurrent, TakeBuffer, MuxFrame;
      received := received + [f];
      if f.isKeyFrame && paramsChanged {
        needsDiscontinuity := true;
      }
      if currentBuf.Some? && f.isKeyFrame && f.timestamp - segmentStart >= TARGET_DURATION {
        CloseSegment(f);
      }
      if currentBuf.None? {
        if !f.isKeyFrame {
          NothingMuxed(View(), f);
          return;
        }
        BeginSegment(f, reuse);
      }
      WriteFrame(f);
    }

    /** bufferPool.Get and a new segment start. */
    method BeginSegment(f: Frame, reuse: Option<nat>)
      modifies this`bufferPool, this`contents, this`currentBuf, this`segmentStart
      ensures View() == TakeBuffer(old(View()), f, reuse) && currentBuf.Some?
    {
      if reuse.Some? && reuse.value in bufferPool && reuse.value < |contents| {
        bufferPool := bufferPool - multiset{reuse.value};
        contents := contents[reuse.value := []];
        currentBuf := reuse;
      } else {
        currentBuf := Some(|contents|);
        contents := contents + [[]];
      }
      segmentStart := f.timestamp;
    }

    /** tsWriter.WriteH26x into the current buffer. */
    method WriteFrame(f: Frame)
      requires currentBuf.Some?
      modifies this`contents
      ensures View() == MuxFrame(old(View()), f)
    {
      if currentBuf.value < |contents| {
        contents := contents[currentBuf.value := contents[currentBuf.value] + [f]];
      }
    }

    /** CheckWatchdog; `stale` is the test that no frame has come for five seconds. */
    method CheckWatchdog(stale: bool)
      requires InStore(View())
      modifies this
      ensures View() == Step(maxSegments, old(View()), Watchdog(stale))
    {
      hide Finish, Name;
      if stale && |segments| > 0 {
        var last := segments[|segments| - 1];
        var lastSeg := store[last];
        var dataCopy := if lastSeg.buf.None? then lastSeg.copied
                        else if lastSeg.buf.value < |contents| then contents[lastSeg.buf.value] else [];
        assert dataCopy == Data(View(), last);
        Append(Segment(Name(seqCount + 1), lastSeg.duration, true, 1, None, dataCopy, false, dataCopy));
        assert View() == Publish(old(View()), lastSeg.duration, true, None, dataCopy, dataCopy);
        TrimAndRebuild();
        needsDiscontinuity := true;
      }
    }

    method ScanWindow(tsName: string) returns (id: Option<nat>)
      requires InStore(View())
      ensures id == FindIn(Window(View()), segments, tsName) && (id.Some? ==> id.value < |store|)
    {
      ghost var w := Window(View());
      assert w[0..] == w && segments[0..] == segments;
      for n := 0 to |segments|
        invariant FindIn(w, segments, tsName) == FindIn(w[n..], segments[n..], tsName)
      {
        assert w[n..][0] == store[segments[n]] && w[n..][1..] == w[n + 1..] && segments[n..][1..] == segments[n + 1..];
        if store[segments[n]].name == tsName {
          return Some(segments[n]);
        }
      }
      return None;
    }

    /** AcquireSegment: the index, then a scan of the window; what is found is retained for the caller. */
    method AcquireSegment(name: string) returns (id: Option<nat>, isVTT: bool)
      requires InStore(View()) && forall n :: n in segIndex ==> segIndex[n] < |store|
      modifies this`store, this`held
      ensures View() == Step(maxSegments, old(View()), Acquire(name))
      ensures id == Find(old(View()), LookupName(name))
      ensures isVTT <==> |name| > 4 && name[|name| - 4..] == ".vtt"
    {
      hide FindIn;
      isVTT := |name| > 4 && name[|name| - 4..] == ".vtt";
      var tsName := if isVTT then name[..|name| - 4] + ".ts" else name;
      if tsName in segIndex {
        id := Some(segIndex[tsName]);
      } else {
        id := ScanWindow(tsName);
      }
      if id.Some? {
        store := store[id.value := store[id.value].(refCount := store[id.value].refCount + 1)];
        held := held[id.value := held[id.value] + 1];
      }
    }

    /** Release by a holder of a segment. */
    method ReleaseAcquired(id: nat)
      requires InStore(View()) && id < |store| && held[id] > 0
      modifies this`store, this`held, this`contents, this`bufferPool
      ensures View() == RecycleIfDue(ReleaseHeld(old(View()), id), id)
    {
      held := held[id := held[id] - 1];
      Release(id);
    }

    method StopMuxer()
      requires InStore(View())
      modifies this
      ensures View() == Step(maxSegments, old(View()), Stop)
    {
      hide RecycleIfDue, Decrement, EvictAndRecycle;
      ghost var goal := ReleaseAll(View());
      while |segments| > 0
        invariant InStore(View()) && ReleaseAll(View()) == goal
        decreases |segments|
      {
        var seg := segments[0];
        ghost var before := View();
        segments := segments[1..];
        assert View() == before.(segments := before.segments[1..]);
        Release(seg);
        EvictIsRelease(before);
        EvictShrinks(before);
      }
      segIndex, currentBuf, stopped := map[], None, true;
    }
  }

  lemma NothingMuxed(m: Muxer, f: Frame)
    requires m.current.None?
    ensures MuxFrame(m, f) == m
  {
  }

  lemma EvictIsRelease(m: Muxer)
    requires InStore(m) && m.segments != []
    ensures var id := m.segments[0];
            EvictAndRecycle(m) == RecycleIfDue(Decrement(m.(segments := m.segments[1..]), id), id)
  {
    hide RecycleIfDue, Decrement;
  }

  method BuildIndex(segs: seq<Segment>, ids: seq<nat>) returns (index: map<string, nat>)
    requires |segs| == |ids|
    ensures index == IndexOf(segs, ids)
  {
    index := map[];
    for n := 0 to |segs|
      invariant index == IndexOf(segs[..n], ids[..n])
    {
      assert segs[..n + 1][..n] == segs[..n] && ids[..n + 1][..n] == ids[..n];
      index := index[segs[n].name := ids[n]];
    }
    assert segs[..|segs|] == segs && ids[..|ids|] == ids;
  }

  method LongestSeconds(segs: seq<Segment>) returns (maxDuration: int)
    ensures maxDuration == MaxSeconds(segs)
  {
    maxDuration := 2;
    for n := 0 to |segs|
      invariant maxDuration == MaxSeconds(segs[..n])
    {
      assert segs[..n + 1][..n] == segs[..n];
      var d := Seconds(segs[n].duration);
      if d > maxDuration {
        maxDuration := d;
      }
    }
    assert segs[..|segs|] == segs;
  }

  method RenderEntry(seg: Segment, subs: bool) returns (lines: seq<Line>)
    ensures lines == Entry(seg, if subs then SubsName(seg.name) else seg.name)
  {
    lines := [];
    if seg.isDiscontinuity {
      lines := lines + [Discontinuity];
    }
    lines := lines + [ExtInf(seg.duration)];
    if subs {
      lines := lines + [Uri(SubsName(seg.name))];
    } else {
      lines := lines + [Uri(seg.name)];
    }
  }

  method RenderEntries(segs: seq<Segment>, subs: bool) returns (lines: seq<Line>)
    ensures lines == Entries(segs, subs)
  {
    hide Entry, SubsName;
    lines := [];
    assert segs[0..] == segs;
    ghost var goal := Entries(segs, subs);
    for n := 0 to |segs|
      invariant lines + Entries(segs[n..], subs) == goal
    {
      assert segs[n..][1..] == segs[n + 1..];
      var entry := RenderEntry(segs[n], subs);
      assert lines + (entry + Entries(segs[n + 1..], subs)) == (lines + entry) + Entries(segs[n + 1..], subs);
      lines := lines + entry;
    }
  }

  // ---------------------------------------------------------------------------------------------
  // WebVTT cues

  /** A cue time as it is printed: hours, minutes, seconds, milliseconds. */
  datatype Stamp = Stamp(hr: int, minutes: int, sec: int, ms: int)

  function Millis(s: Stamp): int {
    s.hr * 3600000 + s.minutes * 60000 + s.sec * 1000 + s.ms
  }

  predicate Normal(s: Stamp) {
    0 <= s.hr && 0 <= s.minutes < 60 && 0 <= s.sec < 60 && 0 <= s.ms < 1000
  }

  method SplitMillis(total: nat) returns (s: Stamp)
    ensures Normal(s) && Millis(s) == total
  {
    var sec, ms := total / 1000, total % 1000;
    var minutes, secLeft := sec / 60, sec % 60;
    var hr, minutesLeft := minutes / 60, minutes % 60;
    s := Stamp(hr, minutesLeft, secLeft, ms);
  }

  /**
   The cue of a metadata message at `pts` in a segment that starts at `segmentStartPts`: it starts at the message's
   offset into the segment (0 for earlier messages) in milliseconds, ends 300 milliseconds later, and both times are
   well-formed, across every carry into seconds, minutes and hours.
   */
  method CueTimes(pts: int, segmentStartPts: int) returns (start: Stamp, end: Stamp)
    ensures Normal(start) && Normal(end)
    ensures Millis(start) == if pts > segmentStartPts then (pts - segmentStartPts) / 90 else 0
    ensures Millis(end) == Millis(start) + 300
  {
    var localPts := 0;
    if pts > segmentStartPts {
      localPts := pts - segmentStartPts;
    }
    start := SplitMillis(localPts / 90);
    var msEnd, secEnd := start.ms + 300, start.sec;
    if msEnd >= 1000 {
      msEnd := msEnd - 1000;
      secEnd := secEnd + 1;
    }
    var minEnd := start.minutes;
    if secEnd >= 60 {
      secEnd := secEnd - 60;
      minEnd := minEnd + 1;
    }
    var hrEnd := start.hr;
    if minEnd >= 60 {
      minEnd := minEnd - 60;
      hrEnd := hrEnd + 1;
    }
    end := Stamp(hrEnd, minEnd, secEnd, msEnd);
  }
}
