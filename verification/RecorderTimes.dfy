/**
 The duration and the base time of everything the recorder writes, whatever the frames' times and whatever the storage
 does, against a reference that knows only the frames handled in each file (internal/recorder/recorder.go).
 */
module RecorderTimes {
  import opened Frames
  import opened Timestamps
  import opened RecorderSpec
  import opened RecorderRuns
  import opened RecorderGops

  // ---------------------------------------------------------------------------------------------
  // The reference

  /** The frames handled in each file so far, in order, and whether the last of these files is still open. */
  datatype Takes = Takes(open: bool, streams: seq<seq<Frame>>)

  /** One frame: it goes to the open file, or opens one, or is passed over. */
  function Handle(h: Takes, i: Input): Takes {
    var rotates := h.open && i.frame.isKeyFrame && i.expired;
    if rotates && !i.rotateOk then Takes(false, h.streams)
    else if h.open && !rotates && h.streams != [] then
      var n := |h.streams| - 1;
      Takes(!i.frame.isKeyFrame || i.writeOk, h.streams[n := h.streams[n] + [i.frame]])
    else if i.frame.isKeyFrame && i.createOk && i.initOk then Takes(true, h.streams + [[i.frame]])
    else Takes(false, h.streams)
  }

  function Handled(inputs: seq<Input>): Takes {
    if inputs == [] then Takes(false, []) else Handle(Handled(inputs[..|inputs| - 1]), inputs[|inputs| - 1])
  }

  /** The time from frame `k - 1` to frame `k`, in 90 kHz ticks. */
  function StepAt(frames: seq<Frame>, k: nat): int
    requires 0 < k < |frames|
  {
    Pts(frames[k]) - Pts(frames[k - 1])
  }

  predicate Good(step: int) {
    1 <= step <= 450_000
  }

  /** The latest step in range among the first `n` frames, `base` if there is none. */
  function LatestIn(frames: seq<Frame>, n: nat, base: nat): (d: nat)
    requires n <= |frames|
    ensures || (d == base && forall k :: 0 < k < n ==> !Good(StepAt(frames, k)))
            || (exists k :: 0 < k < n && Good(StepAt(frames, k)) && d == StepAt(frames, k)
                            && forall l :: k < l < n ==> !Good(StepAt(frames, l)))
  {
    if n < 2 then base
    else if Good(StepAt(frames, n - 1)) then StepAt(frames, n - 1)
    else LatestIn(frames, n - 1, base)
  }

  /** The latest step in range of all files so far; 3600 ticks, one 25th of a second, before the first. */
  function LatestOf(streams: seq<seq<Frame>>): nat {
    if streams == [] then 3600
    else
      var last := streams[|streams| - 1];
      LatestIn(last, |last|, LatestOf(streams[..|streams| - 1]))
  }

  /**
   The duration of frame `k` of file `j`: the step to the next frame handled in that file if it is in range,
   otherwise the latest earlier step in range. The last frame of a file has no next frame.
   */
  function DurationAt(streams: seq<seq<Frame>>, j: nat, k: nat): nat
    requires j < |streams| && k < |streams[j]|
  {
    var n := if k + 1 < |streams[j]| then k + 2 else k + 1;
    LatestIn(streams[j], n, LatestOf(streams[..j]))
  }

  /** The first `n` frames of file `j` with their durations. */
  function TimedPrefix(streams: seq<seq<Frame>>, j: nat, n: nat): seq<Sample>
    requires j < |streams| && n <= |streams[j]|
  {
    seq(n, k requires 0 <= k < n => Sample(streams[j][k], DurationAt(streams, j, k)))
  }

  function AllSamples(fs: seq<Fragment>): seq<Sample> {
    if fs == [] then [] else AllSamples(fs[..|fs| - 1]) + fs[|fs| - 1].samples
  }

  /** The time from `first` to `f` in ticks, as a uint64. */
  function TimeFrom(first: Frame, f: Frame): nat {
    (Pts(f) - Pts(first)) % 0x1_0000_0000_0000_0000
  }

  /** Each fragment's base time is that of its first frame, counted from the first frame of the file. */
  ghost predicate Based(fs: seq<Fragment>, first: Frame) {
    forall k :: 0 <= k < |fs| && fs[k].samples != [] ==>
      fs[k].baseTime == TimeFrom(first, fs[k].samples[0].frame)
  }

  ghost predicate TimedBy(fs: seq<Fragment>, streams: seq<seq<Frame>>, j: nat) {
    && j < |streams| && streams[j] != []
    && |AllSamples(fs)| <= |streams[j]|
    && AllSamples(fs) == TimedPrefix(streams, j, |AllSamples(fs)|)
    && Based(fs, streams[j][0])
  }

  /** A closed file belongs to one of the first `bound` streams, and holds all of it unless a write failed. */
  ghost predicate TimedFile(f: File, streams: seq<seq<Frame>>, bound: nat) {
    f.fragments != [] ==>
      exists j: nat :: j < bound && TimedBy(f.fragments, streams, j)
                       && (!f.failed ==> |AllSamples(f.fragments)| == |streams[j]|)
  }

  ghost predicate AllTimed(files: seq<File>, streams: seq<seq<Frame>>, bound: nat) {
    forall k :: 0 <= k < |files| ==> TimedFile(files[k], streams, bound)
  }

  // ---------------------------------------------------------------------------------------------
  // The reference only looks at what is there

  lemma {:induction false} LatestSame(a: seq<Frame>, b: seq<Frame>, n: nat, base: nat)
    requires n <= |a| && n <= |b| && a[..n] == b[..n]
    ensures LatestIn(a, n, base) == LatestIn(b, n, base)
  {
    hide Pts, TimeFrom;
    if n >= 2 {
      assert a[n - 1] == a[..n][n - 1] == b[n - 1] && a[n - 2] == a[..n][n - 2] == b[n - 2];
      assert a[..n - 1] == a[..n][..n - 1] == b[..n - 1];
      LatestSame(a, b, n - 1, base);
    }
  }

  lemma DurationSame(a: seq<seq<Frame>>, b: seq<seq<Frame>>, j: nat, k: nat)
    requires j < |a| && j < |b| && a[..j] == b[..j] && k < |a[j]| && k < |b[j]|
    requires a[j] == b[j] || (k + 2 <= |a[j]| && k + 2 <= |b[j]| && a[j][..k + 2] == b[j][..k + 2])
    ensures a[j][k] == b[j][k] && DurationAt(a, j, k) == DurationAt(b, j, k)
  {
    hide LatestIn, LatestOf;
    if a[j] != b[j] {
      assert a[j][k] == a[j][..k + 2][k] == b[j][k];
      LatestSame(a[j], b[j], k + 2, LatestOf(a[..j]));
    }
  }

  lemma PrefixSame(a: seq<seq<Frame>>, b: seq<seq<Frame>>, j: nat, n: nat)
    requires j < |a| && j < |b| && a[..j] == b[..j] && n <= |a[j]| && n <= |b[j]|
    requires a[j] == b[j] || (n < |a[j]| && n < |b[j]| && a[j][..n + 1] == b[j][..n + 1])
    ensures TimedPrefix(a, j, n) == TimedPrefix(b, j, n)
  {
    hide DurationAt;
    forall k | 0 <= k < n ensures a[j][k] == b[j][k] && DurationAt(a, j, k) == DurationAt(b, j, k) {
      if a[j] != b[j] {
        assert a[j][..k + 2] == a[j][..n + 1][..k + 2] && b[j][..k + 2] == b[j][..n + 1][..k + 2];
      }
      DurationSame(a, b, j, k);
    }
  }

  lemma TimedByKept(fs: seq<Fragment>, a: seq<seq<Frame>>, b: seq<seq<Frame>>, j: nat)
    requires TimedBy(fs, a, j) && j < |b| && a[..j] == b[..j] && a[j] == b[j]
    ensures TimedBy(fs, b, j)
  {
    hide AllSamples, Based;
    PrefixSame(a, b, j, |AllSamples(fs)|);
  }

  /** Streams that keep the first `bound` keep the timing of the files that belong to them. */
  lemma AllTimedKept(files: seq<File>, a: seq<seq<Frame>>, b: seq<seq<Frame>>, bound: nat, bound': nat)
    requires AllTimed(files, a, bound) && bound <= |a| && bound <= |b| && a[..bound] == b[..bound] && bound <= bound'
    ensures AllTimed(files, b, bound')
  {
    hide AllSamples, TimedBy;
    forall k | 0 <= k < |files| ensures TimedFile(files[k], b, bound') {
      var fs := files[k].fragments;
      if fs != [] {
        assert TimedFile(files[k], a, bound);
        var j: nat :| j < bound && TimedBy(fs, a, j) && (!files[k].failed ==> |AllSamples(fs)| == |a[j]|);
        assert a[j] == a[..bound][j] == b[j] && a[..j] == a[..bound][..j] == b[..j];
        TimedByKept(fs, a, b, j);
      }
    }
  }

  lemma AllTimedAppend(files: seq<File>, f: File, streams: seq<seq<Frame>>, bound: nat)
    requires AllTimed(files, streams, bound) && TimedFile(f, streams, bound)
    ensures AllTimed(files + [f], streams, bound)
  {
    hide TimedFile;
  }

  // ---------------------------------------------------------------------------------------------
  // The state against the reference

  /** The clock of the open file, whose frames are `st`. */
  ghost predicate Clocked(s: Rec, st: seq<Frame>) {
    && st != [] && s.pending == Some(st[|st| - 1])
    && s.initialPts == Pts(st[0]) && s.lastPts == Pts(st[|st| - 1]) - Pts(st[0])
  }

  /** What is written to the open file and buffered for it: all frames of its stream but the pending one. */
  ghost predicate Sampled(s: Rec, streams: seq<seq<Frame>>) {
    && s.file.Some? && !s.file.value.failed && streams != []
    && var j := |streams| - 1;
       streams[j] != []
       && AllSamples(s.file.value.fragments) + s.partSamples == TimedPrefix(streams, j, |streams[j]| - 1)
  }

  /** The base times of the open file's fragments, and of the next one. */
  ghost predicate BasedNext(s: Rec, st: seq<Frame>)
    requires s.file.Some?
  {
    var fs := s.file.value.fragments;
    && |AllSamples(fs)| < |st| && Based(fs, st[0])
    && s.partStartBaseTime == TimeFrom(st[0], st[|AllSamples(fs)|])
  }

  /** The open file and what is buffered for it, against the last stream. */
  ghost predicate InTime(s: Rec, streams: seq<seq<Frame>>) {
    Sampled(s, streams) && Clocked(s, streams[|streams| - 1]) && BasedNext(s, streams[|streams| - 1])
  }

  ghost predicate Timing(s: Rec, h: Takes) {
    && s.file.Some? == h.open
    && s.lastGoodDuration == LatestOf(h.streams)
    && (h.open ==> InTime(s, h.streams))
    && AllTimed(s.closed, h.streams, if h.open then |h.streams| - 1 else |h.streams|)
  }

  lemma SamplesAppend(fs: seq<Fragment>, f: Fragment)
    ensures AllSamples(fs + [f]) == AllSamples(fs) + f.samples
  {
    assert (fs + [f])[..|fs|] == fs;
  }

  lemma BasedAppend(fs: seq<Fragment>, f: Fragment, first: Frame)
    requires Based(fs, first)
    requires f.samples != [] ==> f.baseTime == TimeFrom(first, f.samples[0].frame)
    ensures Based(fs + [f], first)
  {
    hide TimeFrom;
  }

  lemma PrefixParts(streams: seq<seq<Frame>>, j: nat, a: seq<Sample>, b: seq<Sample>, n: nat)
    requires j < |streams| && n <= |streams[j]| && a + b == TimedPrefix(streams, j, n)
    ensures a == TimedPrefix(streams, j, |a|)
    ensures b != [] ==> |a| < |streams[j]| && b[0].frame == streams[j][|a|]
  {
    hide DurationAt;
    assert a == (a + b)[..|a|];
    if b != [] {
      assert b[0] == (a + b)[|a|];
    }
  }

  /** All but the newest frame are in the samples, and that one gets the latest step in range. */
  lemma TailTimed(s: Rec, streams: seq<seq<Frame>>)
    requires InTime(s, streams)
    ensures var j := |streams| - 1;
            s.lastGoodDuration == LatestOf(streams) ==>
              AllSamples(s.file.value.fragments) + Tail(s) == TimedPrefix(streams, j, |streams[j]|)
  {
    hide AllSamples, LatestIn, TimedPrefix, Pts, BasedNext;
    var j := |streams| - 1;
    var st, fs := streams[j], AllSamples(s.file.value.fragments);
    var last := Sample(st[|st| - 1], s.lastGoodDuration);
    assert fs + Tail(s) == (fs + s.partSamples) + [last];
    assert DurationAt(streams, j, |st| - 1) == LatestIn(st, |st|, LatestOf(streams[..j])) == LatestOf(streams);
    PrefixLast(streams, j, |st|);
  }

  /** The file as it is, without what is buffered. */
  lemma WrittenTimed(s: Rec, streams: seq<seq<Frame>>)
    requires InTime(s, streams)
    ensures TimedBy(s.file.value.fragments, streams, |streams| - 1)
  {
    hide AllSamples, Pts, TimeFrom, Based, TimedPrefix;
    var j := |streams| - 1;
    PrefixParts(streams, j, AllSamples(s.file.value.fragments), s.partSamples, |streams[j]| - 1);
    PrefixLength(streams, j, |streams[j]| - 1);
  }

  lemma PrefixLength(streams: seq<seq<Frame>>, j: nat, n: nat)
    requires j < |streams| && n <= |streams[j]|
    ensures |TimedPrefix(streams, j, n)| == n
  {
  }

  /** A write of `samples`, which continue the file's fragments up to `n` frames of its stream. */
  lemma PartTimed(s: Rec, samples: seq<Sample>, streams: seq<seq<Frame>>, n: nat)
    requires InTime(s, streams) && n <= |streams[|streams| - 1]|
    requires AllSamples(s.file.value.fragments) + samples == TimedPrefix(streams, |streams| - 1, n)
    ensures var fs := WritePart(s, samples).file.value.fragments;
            TimedBy(fs, streams, |streams| - 1) && |AllSamples(fs)| == n
  {
    var fs, j := s.file.value.fragments, |streams| - 1;
    var part := Fragment(s.sequence, s.partStartBaseTime, samples);
    SamplesAppend(fs, part);
    hide AllSamples, Pts, TimeFrom, TimedPrefix;
    PrefixParts(streams, j, AllSamples(fs), samples, n);
    PrefixLength(streams, j, n);
    BasedAppend(fs, part, streams[j][0]);
  }

  // ---------------------------------------------------------------------------------------------
  // The stages of one frame

  lemma FinalizeTimed(s: Rec, isError: bool, streams: seq<seq<Frame>>)
    requires s.file.Some? && AllTimed(s.closed, streams, |streams|)
    requires TimedFile(s.file.value, streams, |streams|)
    ensures AllTimed(Finalize(s, isError).closed, streams, |streams|)
  {
    hide TimedFile;
    var f := Finalize(s, isError).closed[|s.closed|];
    SameFile(s.file.value, f, streams);
    AllTimedAppend(s.closed, f, streams, |streams|);
  }

  lemma SameFile(f: File, g: File, streams: seq<seq<Frame>>)
    requires TimedFile(f, streams, |streams|) && g.fragments == f.fragments && g.failed == f.failed
    ensures TimedFile(g, streams, |streams|)
  {
    hide TimedBy, AllSamples;
  }

  lemma OpenTimed(f: File, streams: seq<seq<Frame>>)
    requires streams != [] && (f.fragments != [] ==> TimedBy(f.fragments, streams, |streams| - 1))
    requires f.fragments != [] && !f.failed ==> |AllSamples(f.fragments)| == |streams[|streams| - 1]|
    ensures TimedFile(f, streams, |streams|)
  {
    hide TimedBy, AllSamples;
  }

  /** Closing the open file, with the buffered samples written, lost to a failed write, or dropped. */
  lemma CloseTimed(s: Rec, h: Takes)
    requires Timing(s, h) && h.open
    ensures AllTimed(Finalize(WritePart(s, Tail(s)), false).closed, h.streams, |h.streams|)
    ensures forall e :: AllTimed(Finalize(FailWrite(s), e).closed, h.streams, |h.streams|)
  {
    var streams := h.streams;
    var n := |streams[|streams| - 1]|;
    AllTimedKept(s.closed, streams, streams, |streams| - 1, |streams|);
    TailTimed(s, streams);
    PartTimed(s, Tail(s), streams, n);
    WrittenTimed(s, streams);
    hide InTime, TimedBy, AllSamples, AllTimed, Tail, TimedPrefix;
    OpenTimed(WritePart(s, Tail(s)).file.value, streams);
    OpenTimed(FailWrite(s).file.value, streams);
    FinalizeTimed(WritePart(s, Tail(s)), false, streams);
    forall e ensures AllTimed(Finalize(FailWrite(s), e).closed, streams, |streams|) {
      FinalizeTimed(FailWrite(s), e, streams);
    }
  }

  /** Rotation ends the stream. */
  lemma RotateTimed(s: Rec, i: Input, h: Takes)
    requires Timing(s, h) && Sound(s)
    ensures var r := Rotate(s, i);
            var rotates := h.open && i.frame.isKeyFrame && i.expired;
            && Timing(r.s, if rotates then Takes(false, h.streams) else h)
            && (r.skip <==> rotates && !i.rotateOk)
  {
    if h.open && i.frame.isKeyFrame && i.expired {
      CloseTimed(s, h);
      SoundTail(s);
      hide InTime, AllTimed, Tail, Sound, LatestOf;
    } else {
      hide InTime, AllTimed, Sound, LatestOf;
    }
  }

  lemma SoundTail(s: Rec)
    requires Sound(s) && s.file.Some?
    ensures Tail(s) != []
  {
  }

  /** Opening a file and taking its first frame starts a stream. */
  lemma StartTimed(s: Rec, i: Input, h: Takes)
    requires Timing(s, h) && !h.open
    ensures var o := Open(s, i);
            var starts := i.frame.isKeyFrame && i.createOk && i.initOk;
            && (o.skip <==> !starts)
            && (if starts then Timing(Account(o.s, i.frame), Takes(true, h.streams + [[i.frame]]))
                               && Account(o.s, i.frame).partSamples == []
                else Timing(o.s, h))
  {
    var o := Open(s, i);
    if i.frame.isKeyFrame && i.createOk {
      if i.initOk {
        NewStream(s, i, h);
      } else {
        var created := s.(file := Some(File([], Ongoing, true)));
        assert TimedFile(File([], Ongoing, true), h.streams, |h.streams|);
        FinalizeTimed(created, true, h.streams);
        hide AllTimed, LatestOf;
      }
    }
  }

  lemma NewStream(s: Rec, i: Input, h: Takes)
    requires Timing(s, h) && !h.open && s.file.None? && i.frame.isKeyFrame && i.createOk && i.initOk
    ensures Timing(Account(Open(s, i).s, i.frame), Takes(true, h.streams + [[i.frame]]))
    ensures Account(Open(s, i).s, i.frame).partSamples == []
  {
    var streams := h.streams + [[i.frame]];
    assert streams[..|h.streams|] == h.streams && streams[|h.streams|] == [i.frame];
    AllTimedKept(s.closed, h.streams, streams, |h.streams|, |h.streams|);
    hide AllTimed, Pts;
    var t := Account(Open(s, i).s, i.frame);
    assert AllSamples([]) == [] && TimedPrefix(streams, |h.streams|, 0) == [];
    assert t.file.value.fragments == [] && t.partSamples == [];
    assert LatestOf(streams) == LatestIn([i.frame], 1, LatestOf(h.streams)) == LatestOf(h.streams);
  }

  /** A frame for the open file: the one before it gets its duration. */
  lemma TakeTimed(s: Rec, f: Frame, h: Takes)
    requires Timing(s, h) && h.open
    ensures var n := |h.streams| - 1;
            h.streams != [] && Timing(Account(s, f), Takes(true, h.streams[n := h.streams[n] + [f]]))
    ensures Account(s, f).partSamples != []
  {
    hide InTime, AllTimed, LatestOf;
    OpenIsTimed(s, h);
    var n := |h.streams| - 1;
    var streams := h.streams[n := h.streams[n] + [f]];
    assert streams[..n] == h.streams[..n];
    AllTimedKept(s.closed, h.streams, streams, n, n);
    TakeInTime(s, f, h.streams);
    AccountKeepsFile(s, f);
    AccountKeepsClosed(s, f);
  }

  lemma AccountKeepsClosed(s: Rec, f: Frame)
    ensures Account(s, f).closed == s.closed
  {
  }

  lemma TakeInTime(s: Rec, f: Frame, streams: seq<seq<Frame>>)
    requires InTime(s, streams)
    ensures var n := |streams| - 1;
            var longer := streams[n := streams[n] + [f]];
            s.lastGoodDuration == LatestOf(streams) ==>
              && InTime(Account(s, f), longer) && Account(s, f).lastGoodDuration == LatestOf(longer)
              && Account(s, f).partSamples != []
  {
    if s.lastGoodDuration == LatestOf(streams) {
      TakeOnTime(s, f, streams);
    }
  }

  lemma TakeOnTime(s: Rec, f: Frame, streams: seq<seq<Frame>>)
    requires Sampled(s, streams) && Clocked(s, streams[|streams| - 1]) && BasedNext(s, streams[|streams| - 1])
    requires s.lastGoodDuration == LatestOf(streams)
    ensures var n := |streams| - 1;
            var longer := streams[n := streams[n] + [f]];
            && InTime(Account(s, f), longer) && Account(s, f).lastGoodDuration == LatestOf(longer)
            && Account(s, f).partSamples != []
  {
    var n := |streams| - 1;
    var st := streams[n];
    NextIsLatest(s, f, streams);
    TakeClocked(s, f, st);
    TakeSampled(s, f, streams);
    TakeBased(s, f, st);
    AccountDuration(s, f);
    hide Sampled, Clocked, BasedNext, LatestOf, NextDuration, Account;
    assert streams[n := st + [f]][n] == st + [f];
  }

  lemma AccountDuration(s: Rec, f: Frame)
    requires s.pending.Some?
    ensures var t, dur := Account(s, f), NextDuration(s, Pts(f) - s.initialPts);
            && t.lastGoodDuration == dur && t.partSamples == s.partSamples + [Sample(s.pending.value, dur)]
            && t.file == s.file
  {
    hide Pts;
  }

  lemma TakeClocked(s: Rec, f: Frame, st: seq<Frame>)
    requires Clocked(s, st)
    ensures Clocked(Account(s, f), st + [f])
  {
    hide Pts;
  }

  lemma TakeBased(s: Rec, f: Frame, st: seq<Frame>)
    requires s.file.Some? && BasedNext(s, st)
    ensures Account(s, f).file.Some? && BasedNext(Account(s, f), st + [f])
  {
    hide Pts, TimeFrom, AllSamples, Based;
  }

  lemma TakeSampled(s: Rec, f: Frame, streams: seq<seq<Frame>>)
    requires Sampled(s, streams) && Clocked(s, streams[|streams| - 1]) && s.lastGoodDuration == LatestOf(streams)
    ensures var n := |streams| - 1; Sampled(Account(s, f), streams[n := streams[n] + [f]])
  {
    hide LatestOf, AllSamples, TimedPrefix, NextDuration, Pts, Account;
    var n := |streams| - 1;
    var st := streams[n];
    var longer := streams[n := st + [f]];
    NextIsLatest(s, f, streams);
    AccountDuration(s, f);
    SampleTimed(s, f, streams);
    Regroup(AllSamples(s.file.value.fragments), s.partSamples, Sample(st[|st| - 1], LatestOf(longer)));
    LongerLast(streams, f);
  }

  lemma Regroup(a: seq<Sample>, b: seq<Sample>, x: Sample)
    ensures (a + b) + [x] == a + (b + [x])
  {
  }

  lemma LongerLast(streams: seq<seq<Frame>>, f: Frame)
    requires streams != []
    ensures var n := |streams| - 1;
            var longer := streams[n := streams[n] + [f]];
            && |longer| == |streams| && longer[n] == streams[n] + [f] && longer[..n] == streams[..n]
            && streams == streams[..n] + [streams[n]] && longer == streams[..n] + [streams[n] + [f]]
  {
  }

  /** The latest step in range after one more frame. */
  lemma LatestGrows(before: seq<seq<Frame>>, st: seq<Frame>, f: Frame)
    requires st != []
    ensures var step := Pts(f) - Pts(st[|st| - 1]);
            LatestOf(before + [st + [f]]) == if Good(step) then step else LatestOf(before + [st])
  {
    var longer := before + [st + [f]];
    assert longer[..|before|] == before && longer[|before|] == st + [f] && (before + [st])[..|before|] == before;
    hide Pts;
    assert (st + [f])[..|st|] == st[..|st|];
    LatestSame(st + [f], st, |st|, LatestOf(before));
    assert LatestOf(longer) == LatestIn(st + [f], |st| + 1, LatestOf(before));
    hide LatestOf;
  }

  lemma NextIsLatest(s: Rec, f: Frame, streams: seq<seq<Frame>>)
    requires streams != [] && Clocked(s, streams[|streams| - 1]) && s.lastGoodDuration == LatestOf(streams)
    ensures var n := |streams| - 1;
            NextDuration(s, Pts(f) - s.initialPts) == LatestOf(streams[n := streams[n] + [f]])
  {
    hide Pts, LatestOf;
    var n := |streams| - 1;
    LongerLast(streams, f);
    LatestGrows(streams[..n], streams[n], f);
  }

  /** The samples, with the one that has just got its duration. */
  lemma SampleTimed(s: Rec, f: Frame, streams: seq<seq<Frame>>)
    requires Sampled(s, streams)
    ensures var n := |streams| - 1; var st := streams[n];
            var longer := streams[n := st + [f]];
            (AllSamples(s.file.value.fragments) + s.partSamples) + [Sample(st[|st| - 1], LatestOf(longer))]
            == TimedPrefix(longer, n, |st|)
  {
    var n := |streams| - 1;
    var st := streams[n];
    var longer := streams[n := st + [f]];
    hide AllSamples, DurationAt, TimedPrefix, LatestOf;
    LongerLast(streams, f);
    assert (st + [f])[..|st|] == st[..|st|] && (st + [f])[|st| - 1] == st[|st| - 1];
    PrefixSame(streams, longer, n, |st| - 1);
    LastDuration(longer);
    PrefixLast(longer, n, |st|);
  }

  /** The frame before the newest one of the last stream has the latest duration of all. */
  lemma LastDuration(streams: seq<seq<Frame>>)
    requires streams != [] && |streams[|streams| - 1]| >= 2
    ensures DurationAt(streams, |streams| - 1, |streams[|streams| - 1]| - 2) == LatestOf(streams)
  {
    hide LatestIn;
  }

  lemma PrefixLast(streams: seq<seq<Frame>>, j: nat, n: nat)
    requires j < |streams| && 0 < n <= |streams[j]|
    ensures TimedPrefix(streams, j, n)
         == TimedPrefix(streams, j, n - 1) + [Sample(streams[j][n - 1], DurationAt(streams, j, n - 1))]
  {
    hide DurationAt;
  }

  /** The flush: a fragment more, or the file is given up. */
  lemma FlushTimed(s: Rec, i: Input, h: Takes)
    requires Timing(s, h) && h.open && s.pending == Some(i.frame)
    ensures Timing(Flush(s, i), Takes(s.partSamples == [] || !i.frame.isKeyFrame || i.writeOk, h.streams))
  {
    if i.frame.isKeyFrame && s.partSamples != [] {
      if i.writeOk {
        FragmentTimed(s, i, h);
      } else {
        CloseTimed(s, h);
        hide InTime, AllTimed, LatestOf;
      }
    }
  }

  lemma FragmentTimed(s: Rec, i: Input, h: Takes)
    requires Timing(s, h) && h.open && i.writeOk
    ensures s.pending == Some(i.frame) ==> Timing(Flush(s, i), h)
  {
    if s.pending == Some(i.frame) && i.frame.isKeyFrame && s.partSamples != [] {
      PartKept(s, i, h);
    }
  }

  lemma PartKept(s: Rec, i: Input, h: Takes)
    requires Timing(s, h) && h.open && s.partSamples != [] && i.writeOk && i.frame.isKeyFrame
    ensures s.pending == Some(i.frame) ==> Timing(Flush(s, i), h)
  {
    var j := |h.streams| - 1;
    var st, fs := h.streams[j], s.file.value.fragments;
    PartTimed(s, s.partSamples, h.streams, |st| - 1);
    hide AllTimed, LatestOf, AllSamples, TimedPrefix, Pts;
    var t := Flush(s, i);
    var fs' := t.file.value.fragments;
    assert TimedBy(fs', h.streams, j) && |AllSamples(fs')| == |st| - 1;
    assert AllSamples(fs') + t.partSamples == AllSamples(fs');
    assert t.partStartBaseTime == s.lastPts % 0x1_0000_0000_0000_0000;
  }

  lemma OnFrameTimed(s: Rec, i: Input, h: Takes)
    requires Timing(s, h) && Sound(s)
    ensures Timing(OnFrame(s, i), Handle(h, i))
  {
    var s0 := s.(received := s.received + [i.frame]);
    ReceivedIrrelevant(s, s0);
    TimingIgnores(s, s0, h);
    RotateTimed(s0, i, h);
    var r := Rotate(s0, i);
    var rotates := h.open && i.frame.isKeyFrame && i.expired;
    var h1 := if rotates then Takes(false, h.streams) else h;
    hide Timing, Rotate, Open, Account, Flush, Sound;
    if !r.skip {
      OpenedAs(r.s, h1);
      if h1.open {
        OpenKeeps(r.s, i);
        TakeTimed(r.s, i.frame, h1);
        AccountShape(r.s, i.frame);
        var n := |h.streams| - 1;
        FlushTimed(Account(r.s, i.frame), i, Takes(true, h.streams[n := h.streams[n] + [i.frame]]));
      } else {
        StartTimed(r.s, i, h1);
        var o := Open(r.s, i);
        if !o.skip {
          AccountShape(o.s, i.frame);
          FlushTimed(Account(o.s, i.frame), i, Takes(true, h.streams + [[i.frame]]));
        }
      }
    }
  }

  lemma TimingIgnores(s: Rec, t: Rec, h: Takes)
    requires Timing(s, h) && t == s.(received := t.received)
    ensures Timing(t, h)
  {
    hide AllTimed, LatestOf, AllSamples, TimedPrefix, Pts, TimeFrom, Based;
  }

  lemma OpenedAs(s: Rec, h: Takes)
    requires Timing(s, h)
    ensures s.file.Some? == h.open
  {
  }

  lemma OpenKeeps(s: Rec, i: Input)
    ensures s.file.Some? ==> Open(s, i) == Stage(s, false)
  {
  }

  lemma {:induction false} EveryRunTiming(inputs: seq<Input>)
    ensures Timing(Run(inputs), Handled(inputs))
  {
    hide OnFrame, Handle;
    if inputs == [] {
    } else {
      var init := inputs[..|inputs| - 1];
      EveryRunTiming(init);
      EveryRunSound(init);
      hide Timing, Sound;
      OnFrameTimed(Run(init), inputs[|inputs| - 1], Handled(init));
    }
  }

  lemma ExitTimed(s: Rec, writeOk: bool, h: Takes)
    requires Timing(s, h) && Sound(s)
    ensures AllTimed(OnExit(s, writeOk).closed, h.streams, |h.streams|)
  {
    if h.open {
      CloseTimed(s, h);
      SoundTail(s);
    }
    hide AllTimed, InTime, Sound, Tail;
  }

  // ---------------------------------------------------------------------------------------------
  // Every run

  /**
   For every input, whatever the frames' times and whatever fails: the samples of every file of the run, open or
   closed, are the first frames handled in one file, in order, each with the step to the next frame as its duration
   if that lies in 1..450000 ticks and otherwise with the latest such step earlier in the run, 3600 if there was
   none; each fragment's base time is that of its first frame; and a final file whose writes succeeded holds all its
   frames.
   */
  lemma EveryFileTimed(inputs: seq<Input>, exitOk: bool, f: File) returns (j: nat)
    requires FileOf(inputs, exitOk, f) && f.fragments != []
    ensures TimedBy(f.fragments, Handled(inputs).streams, j)
    ensures f.fate == Final && !f.failed ==> |AllSamples(f.fragments)| == |Handled(inputs).streams[j]|
  {
    var s, h := Run(inputs), Handled(inputs);
    EveryRunTiming(inputs);
    EveryRunSound(inputs);
    ExitTimed(s, exitOk, h);
    OngoingOpen(inputs);
    hide Run, Handled, Sound, OnExit, TimedBy, InTime, AllSamples, LatestOf;
    if s.file == Some(f) {
      j := |h.streams| - 1;
      OpenIsTimed(s, h);
    } else {
      var files := if f in s.closed then s.closed else OnExit(s, exitOk).closed;
      var k :| 0 <= k < |files| && files[k] == f;
      var bound := if f in s.closed && h.open then |h.streams| - 1 else |h.streams|;
      assert TimedFile(files[k], h.streams, bound);
      j :| j < bound && TimedBy(f.fragments, h.streams, j)
           && (!f.failed ==> |AllSamples(f.fragments)| == |h.streams[j]|);
    }
  }

  /** Every file that is not empty is timed by the frames handled in one file. */
  ghost predicate FilesTimed(files: seq<File>, inputs: seq<Input>) {
    forall k :: 0 <= k < |files| ==> TimedFile(files[k], Handled(inputs).streams, |Handled(inputs).streams|)
  }

  lemma ExitFilesTimed(inputs: seq<Input>, exitOk: bool)
    ensures FilesTimed(OnExit(Run(inputs), exitOk).closed, inputs)
  {
    EveryRunTiming(inputs);
    EveryRunSound(inputs);
    ExitTimed(Run(inputs), exitOk, Handled(inputs));
    hide Run, Handled, OnExit, TimedFile;
  }

  lemma OpenIsTimed(s: Rec, h: Takes)
    requires Timing(s, h) && s.file.Some?
    ensures h.streams != [] && TimedBy(s.file.value.fragments, h.streams, |h.streams| - 1)
  {
    WrittenTimed(s, h.streams);
    hide InTime;
  }

  /** An open file is not yet final. */
  lemma {:induction false} OngoingOpen(inputs: seq<Input>)
    ensures Run(inputs).file.Some? ==> Run(inputs).file.value.fate == Ongoing
  {
    if inputs == [] {
    } else {
      OngoingOpen(inputs[..|inputs| - 1]);
      OnFrameOngoing(Run(inputs[..|inputs| - 1]), inputs[|inputs| - 1]);
      hide OnFrame;
    }
  }

  lemma OnFrameOngoing(s: Rec, i: Input)
    requires s.file.Some? ==> s.file.value.fate == Ongoing
    ensures OnFrame(s, i).file.Some? ==> OnFrame(s, i).file.value.fate == Ongoing
  {
    hide Tail, Pts, TimeFrom, NextDuration;
  }

  /** Each stream is a stretch of what was received, from a keyframe on; that of an open file is its end. */
  ghost predicate StreamsIn(h: Takes, received: seq<Frame>) {
    && (h.open ==> h.streams != [] && Suffix(h.streams[|h.streams| - 1], received))
    && forall j :: 0 <= j < |h.streams| ==>
         h.streams[j] != [] && h.streams[j][0].isKeyFrame && Stretch(h.streams[j], received)
  }

  lemma HandleStreams(h: Takes, i: Input, received: seq<Frame>)
    requires StreamsIn(h, received)
    ensures StreamsIn(Handle(h, i), received + [i.frame])
  {
    hide Stretch, Suffix;
    SuffixLast(received, i.frame);
    SuffixIsStretch([i.frame], received + [i.frame]);
    if h.open {
      SuffixGrows(h.streams[|h.streams| - 1], received, i.frame);
      SuffixIsStretch(h.streams[|h.streams| - 1] + [i.frame], received + [i.frame]);
    }
    forall j | 0 <= j < |h.streams| ensures Stretch(h.streams[j], received + [i.frame]) {
      StretchExtends(h.streams[j], received, [i.frame]);
    }
  }

  lemma {:induction false} StreamsReceived(inputs: seq<Input>)
    ensures StreamsIn(Handled(inputs), Run(inputs).received)
  {
    if inputs == [] {
    } else {
      var init, i := inputs[..|inputs| - 1], inputs[|inputs| - 1];
      StreamsReceived(init);
      OnFrameReceives(Run(init), i);
      hide OnFrame, Handle, StreamsIn;
      HandleStreams(Handled(init), i, Run(init).received);
    }
  }
}
