/** Whole runs of the recorder: which frames end up in which fragment, and at which time. */
module RecorderRuns {
  import opened Frames
  import opened Timestamps
  import opened RecorderSpec

  // ---------------------------------------------------------------------------------------------
  // Conservation of frames

  function FramesOf(samples: seq<Sample>): seq<Frame> {
    seq(|samples|, k requires 0 <= k < |samples| => samples[k].frame)
  }

  function FragmentFrames(fs: seq<Fragment>): seq<Frame> {
    if fs == [] then [] else FragmentFrames(fs[..|fs| - 1]) + FramesOf(fs[|fs| - 1].samples)
  }

  function FileFrames(files: seq<File>): seq<Frame> {
    if files == [] then [] else FileFrames(files[..|files| - 1]) + FragmentFrames(files[|files| - 1].fragments)
  }

  /** The frames in the fragments of all files, in the order they were written. */
  function Written(s: Rec): seq<Frame> {
    FileFrames(s.closed) + if s.file.Some? then FragmentFrames(s.file.value.fragments) else []
  }

  /** The frames held in memory. */
  function Buffered(s: Rec): seq<Frame> {
    FramesOf(s.partSamples) + if s.pending.Some? then [s.pending.value] else []
  }

  function Stored(s: Rec): seq<Frame> {
    Written(s) + Buffered(s)
  }

  ghost predicate Idle(s: Rec) {
    s.file.None? ==> s.pending.None? && s.partSamples == []
  }

  lemma WrittenAfterPart(s: Rec, samples: seq<Sample>)
    requires s.file.Some?
    ensures Written(WritePart(s, samples)) == Written(s) + FramesOf(samples)
  {
    hide FileFrames, FramesOf;
    var fs := s.file.value.fragments;
    var fs' := WritePart(s, samples).file.value.fragments;
    assert fs'[..|fs|] == fs;
    assert FragmentFrames(fs') == FragmentFrames(fs) + FramesOf(samples);
  }

  lemma WrittenAfterFinalize(s: Rec, isError: bool)
    ensures Written(Finalize(s, isError)) == Written(s)
  {
    if s.file.Some? {
      var t := Finalize(s, isError);
      assert t.closed[..|s.closed|] == s.closed;
    }
  }

  lemma WrittenAfterFail(s: Rec)
    requires s.file.Some?
    ensures Written(FailWrite(s)) == Written(s)
    ensures Written(Finalize(FailWrite(s), true)) == Written(s)
  {
    WrittenAfterFinalize(FailWrite(s), true);
  }

  lemma TailFrames(s: Rec)
    ensures FramesOf(Tail(s)) == Buffered(s)
  {
  }

  lemma NothingBuffered(s: Rec)
    requires s.pending.None? && s.partSamples == []
    ensures Stored(s) == Written(s)
  {
  }

  /** Rotation moves the buffered frames into the file; a failed write loses exactly those. */
  lemma RotateStored(s: Rec, i: Input)
    requires Sound(s) && Idle(s)
    ensures Idle(Rotate(s, i).s)
    ensures Stored(Rotate(s, i).s) == if Rotate(s, i).skip then Written(s) else Stored(s)
  {
    hide Written, Sound;
    var t := Rotate(s, i).s;
    if s.file.Some? && i.frame.isKeyFrame && i.expired {
      NothingBuffered(t);
      TailFrames(s);
      WrittenIgnores(Finalize(FailWrite(s), true), t);
      if Tail(s) == [] {
        WrittenAfterFinalize(s, false);
        WrittenIgnores(Finalize(s, false), t);
      } else if i.rotateOk {
        var w := WritePart(s, Tail(s));
        WrittenAfterPart(s, Tail(s));
        WrittenAfterFinalize(w, false);
        WrittenIgnores(Finalize(w, false), t);
      } else {
        WrittenAfterFail(s);
      }
    }
  }

  /** Written looks at the files only. */
  lemma WrittenIgnores(s: Rec, t: Rec)
    ensures s.file == t.file && s.closed == t.closed ==> Written(s) == Written(t)
  {
  }

  lemma OpenStored(s: Rec, i: Input)
    requires Idle(s)
    ensures Stored(Open(s, i).s) == Stored(s) && Idle(Open(s, i).s)
  {
    var t := Open(s, i).s;
    if s.file.None? {
      var created := s.(file := Some(File([], Ongoing, false)));
      assert Written(created) == Written(s);
      WrittenAfterFail(created);
      if t.file.Some? {
        WrittenIgnores(created, t);
      }
    }
  }

  lemma AccountStored(s: Rec, f: Frame)
    requires s.file.Some?
    ensures Stored(Account(s, f)) == Stored(s) + [f] && Account(s, f).file == s.file
  {
    hide Written, Pts;
    var t := Account(s, f);
    WrittenIgnores(s, t);
    if s.pending.Some? {
      assert FramesOf(t.partSamples) == FramesOf(s.partSamples) + [s.pending.value];
    }
  }

  lemma FlushStored(s: Rec, i: Input)
    requires s.file.Some? && s.pending == Some(i.frame)
    ensures Idle(Flush(s, i))
    ensures Stored(Flush(s, i)) == if Flush(s, i).file.Some? then Stored(s) else Written(s)
  {
    hide Written, ToUint64;
    var t := Flush(s, i);
    if i.frame.isKeyFrame && s.partSamples != [] {
      if i.writeOk {
        WrittenAfterPart(s, s.partSamples);
        WrittenIgnores(WritePart(s, s.partSamples), t);
        assert FramesOf(t.partSamples) == [];
      } else {
        WrittenAfterFail(s);
        WrittenIgnores(Finalize(FailWrite(s), true), t);
        NothingBuffered(t);
      }
    }
  }

  /** No storage call fails while this input is handled. */
  ghost predicate Smooth(i: Input) {
    i.rotateOk && i.createOk && i.initOk && i.writeOk
  }

  /**
   One frame: with working storage it is appended to the stored frames unless no file is open and it is not a
   keyframe; with failing storage the stored frames lose at most a tail and gain at most this frame.
   */
  lemma OnFrameStored(s: Rec, i: Input)
    requires Sound(s) && Idle(s)
    ensures var t := OnFrame(s, i);
            && Idle(t) && t.received == s.received + [i.frame]
            && (Smooth(i) ==> (t.file.None? <==> s.file.None? && !i.frame.isKeyFrame))
            && (Smooth(i) ==> Stored(t) == if t.file.None? then Stored(s) else Stored(s) + [i.frame])
            && (Stored(t) == Stored(s) + [i.frame] || Stored(t) <= Stored(s))
  {
    hide Stored, Sound, Rotate, Open, Flush, Account;
    var s0 := s.(received := s.received + [i.frame]);
    ReceivedIrrelevant(s, s0);
    StoredIgnoresReceived(s, s0);
    var r := Rotate(s0, i);
    RotateStored(s0, i);
    RotateShape(s0, i);
    if !r.skip {
      var o := Open(r.s, i);
      OpenStored(r.s, i);
      OpenShape(r.s, i);
      if !o.skip {
        var a := Account(o.s, i.frame);
        AccountStored(o.s, i.frame);
        AccountShape(o.s, i.frame);
        FlushStored(a, i);
        FlushShape(a, i);
        WrittenPrefix(a, Stored(s), i.frame);
      }
    } else {
      PrefixWritten(s0);
    }
  }

  lemma StoredIgnoresReceived(s: Rec, t: Rec)
    requires t == s.(received := t.received)
    ensures Stored(t) == Stored(s) && Written(t) == Written(s)
  {
  }

  lemma PrefixWritten(s: Rec)
    ensures Written(s) <= Stored(s)
  {
  }

  /** When a flush fails with the new frame still pending, what remains is a prefix of what was stored before it. */
  lemma WrittenPrefix(a: Rec, before: seq<Frame>, f: Frame)
    requires Stored(a) == before + [f] && a.pending == Some(f)
    ensures Written(a) <= before
  {
    hide Written;
    assert Stored(a) == (Written(a) + FramesOf(a.partSamples)) + [f];
    assert (Written(a) + FramesOf(a.partSamples)) == Stored(a)[..|Stored(a)| - 1] == before;
  }

  lemma RotateShape(s: Rec, i: Input)
    ensures var r := Rotate(s, i);
            && r.s.received == s.received
            && (r.skip ==> !i.rotateOk)
            && (s.file.None? ==> r.s.file.None? && !r.skip)
            && (s.file.Some? && !i.frame.isKeyFrame ==> r.s.file.Some? && !r.skip)
  {
  }

  lemma OpenShape(s: Rec, i: Input)
    ensures var o := Open(s, i);
            && o.s.received == s.received
            && (Smooth(i) ==> (o.skip <==> s.file.None? && !i.frame.isKeyFrame))
            && (o.skip ==> o.s.file.None?)
            && (!o.skip ==> o.s.file.Some?)
  {
  }

  lemma AccountShape(s: Rec, f: Frame)
    ensures Account(s, f).pending == Some(f) && Account(s, f).received == s.received
  {
  }

  lemma FlushShape(s: Rec, i: Input)
    requires s.file.Some?
    ensures Flush(s, i).received == s.received && (i.writeOk ==> Flush(s, i).file.Some?)
  {
  }

  /**
   Conservation without storage failures, over every run and any number of rotations: the frames in all written
   fragments, followed by the buffered ones, are the frames received from the first keyframe on, each once and in
   order.
   */
  lemma {:induction false} NothingLost(inputs: seq<Input>)
    requires forall k :: 0 <= k < |inputs| ==> Smooth(inputs[k])
    ensures var s := Run(inputs);
            Stored(s) == FromFirstKey(s.received) && Idle(s) && (s.file.None? <==> FromFirstKey(s.received) == [])
  {
    hide OnFrame, Stored, FromFirstKey;
    if inputs == [] {
      InitiallyEmpty();
    } else {
      var init, i := inputs[..|inputs| - 1], inputs[|inputs| - 1];
      var s := Run(init);
      NothingLost(init);
      EveryRunSound(init);
      OnFrameStored(s, i);
      FromFirstKeyAppend(s.received, i.frame);
    }
  }

  lemma InitiallyEmpty()
    ensures Stored(START) == [] && FromFirstKey(START.received) == [] && FromFirstKey([]) == []
  {
  }

  /** After a final flush that succeeds, the fragments hold exactly the frames from the first keyframe on. */
  lemma NothingLostAtExit(inputs: seq<Input>)
    requires forall k :: 0 <= k < |inputs| ==> Smooth(inputs[k])
    ensures var s := Run(inputs);
            FileFrames(OnExit(s, true).closed) == FromFirstKey(s.received)
  {
    hide FileFrames, FromFirstKey, Run, FragmentFrames;
    var s := Run(inputs);
    NothingLost(inputs);
    EveryRunSound(inputs);
    if s.file.None? {
      NothingBuffered(s);
    } else {
      var w := WritePart(s, Tail(s));
      TailFrames(s);
      WrittenAfterPart(s, Tail(s));
      WrittenAfterFinalize(w, false);
    }
  }

  ghost predicate FinalOnly(files: seq<File>) {
    forall k :: 0 <= k < |files| ==> files[k].fate == Final && !files[k].failed
  }

  lemma FinalJoins(a: seq<File>, files: seq<File>)
    requires |a| <= |files| && files[..|a|] == a && FinalOnly(a) && FinalOnly(files[|a|..])
    ensures FinalOnly(files)
  {
    assert files == a + files[|a|..];
  }

  lemma SoundNotCorrupted(files: seq<File>)
    requires forall k :: 0 <= k < |files| ==> SoundClosed(files[k])
    requires forall f :: f in files ==> f.fate == Final
    ensures FinalOnly(files)
  {
    hide SoundFragments;
  }

  /** With working storage every file the loop closes is final. */
  lemma {:induction false} AllFinal(inputs: seq<Input>)
    requires forall k :: 0 <= k < |inputs| ==> Smooth(inputs[k])
    ensures FinalOnly(Run(inputs).closed)
  {
    hide OnFrame, Sound, FinalOnly;
    if inputs == [] {
      NoneFinal();
    } else {
      var init, i := inputs[..|inputs| - 1], inputs[|inputs| - 1];
      var s := Run(init);
      AllFinal(init);
      EveryRunSound(init);
      EveryRunSound(inputs);
      ClosedSound(Run(inputs));
      FatesExact(s, i);
      SoundNotCorrupted(OnFrame(s, i).closed[|s.closed|..]);
      FinalJoins(s.closed, OnFrame(s, i).closed);
    }
  }

  lemma NoneFinal()
    ensures FinalOnly([])
  {
  }

  /** A run with working storage to the end leaves final files only. */
  lemma AllFinalAtExit(inputs: seq<Input>)
    requires forall k :: 0 <= k < |inputs| ==> Smooth(inputs[k])
    ensures FinalOnly(OnExit(Run(inputs), true).closed)
  {
    hide Run, OnExit, Sound, SoundFragments;
    var s := Run(inputs);
    AllFinal(inputs);
    EveryRunSound(inputs);
    ExitSound(s, true);
    FinalJoins(s.closed, OnExit(s, true).closed);
  }

  /**
   Whatever fails: the frames stored are a subsequence of the frames received. Nothing is duplicated and nothing is
   reordered.
   */
  lemma {:induction false} NothingInvented(inputs: seq<Input>)
    ensures Subsequence(Stored(Run(inputs)), Run(inputs).received) && Idle(Run(inputs))
  {
    hide OnFrame, Stored;
    if inputs == [] {
      InitiallyEmpty();
    } else {
      var init, i := inputs[..|inputs| - 1], inputs[|inputs| - 1];
      var s := Run(init);
      var t := OnFrame(s, i);
      NothingInvented(init);
      EveryRunSound(init);
      OnFrameStored(s, i);
      hide Subsequence;
      if Stored(t) == Stored(s) + [i.frame] {
        SubsequenceKeep(Stored(s), s.received, i.frame);
      } else {
        var cut := Stored(s)[|Stored(t)|..];
        assert Stored(s) == Stored(t) + cut;
        SubsequenceDropTail(Stored(t), cut, s.received);
        SubsequenceSkip(Stored(t), s.received, i.frame);
      }
    }
  }

  // ---------------------------------------------------------------------------------------------
  // Continuity of time

  function Total(samples: seq<Sample>): nat {
    if samples == [] then 0 else Total(samples[..|samples| - 1]) + samples[|samples| - 1].duration
  }

  function End(f: Fragment): nat {
    f.baseTime + Total(f.samples)
  }

  /** Each fragment starts, in decode time, where the one before it ends. */
  ghost predicate Gapless(fs: seq<Fragment>) {
    forall k :: 0 < k < |fs| ==> fs[k].baseTime == End(fs[k - 1])
  }

  /** 64-bit timestamps whose consecutive 90 kHz times differ by 1 to 450000 ticks. */
  ghost predicate Steady(frames: seq<Frame>) {
    && (forall k :: 0 <= k < |frames| ==> -MAX_INT64 <= frames[k].timestamp <= MAX_INT64)
    && (forall k :: 0 < k < |frames| ==> 1 <= Pts(frames[k]) - Pts(frames[k - 1]) <= MAX_STEP)
  }

  const PTS_BOUND := 0x4_0000_0000_0000

  lemma PtsBounded(f: Frame)
    requires -MAX_INT64 <= f.timestamp <= MAX_INT64
    ensures -PTS_BOUND <= Pts(f) <= PTS_BOUND
  {
    TicksOf(f.timestamp);
  }

  /** The open file is gapless up to the buffered samples, and those up to `prev`, the frame handled last. */
  ghost predicate OnTimeOpen(s: Rec, prev: Frame) {
    && s.file.Some?
    && -PTS_BOUND <= s.initialPts <= PTS_BOUND
    && s.lastPts == Pts(prev) - s.initialPts
    && s.partStartBaseTime + Total(s.partSamples) == s.lastPts
    && Gapless(s.file.value.fragments)
    && var fs := s.file.value.fragments;
       (fs != [] ==> End(fs[|fs| - 1]) == s.partStartBaseTime)
  }

  ghost predicate OnTimeClosed(s: Rec) {
    forall k :: 0 <= k < |s.closed| ==> Gapless(s.closed[k].fragments)
  }

  ghost predicate OnTime(s: Rec) {
    && OnTimeClosed(s)
    && (s.file.Some? ==> s.received != [] && s.pending.Some? && OnTimeOpen(s, s.received[|s.received| - 1]))
  }

  lemma GaplessGrows(fs: seq<Fragment>, f: Fragment)
    requires Gapless(fs) && (fs != [] ==> f.baseTime == End(fs[|fs| - 1]))
    ensures Gapless(fs + [f])
  {
    hide End;
  }

  lemma RotateOnTime(s: Rec, prev: Frame, i: Input)
    requires OnTimeClosed(s) && (s.file.Some? ==> OnTimeOpen(s, prev))
    ensures OnTimeClosed(Rotate(s, i).s)
    ensures Rotate(s, i).s.file.Some? ==> Rotate(s, i).s == s
  {
    hide Gapless, Tail;
    if s.file.Some? {
      GaplessGrows(s.file.value.fragments, Fragment(s.sequence, s.partStartBaseTime, Tail(s)));
    }
  }

  lemma OpenOnTime(s: Rec, prev: Frame, i: Input)
    requires OnTimeClosed(s) && (s.file.Some? ==> s.pending.Some? && OnTimeOpen(s, prev))
    requires -PTS_BOUND <= Pts(i.frame) <= PTS_BOUND
    ensures OnTimeClosed(Open(s, i).s)
    ensures !Open(s, i).skip && s.file.Some? ==> Open(s, i).s == s
    ensures !Open(s, i).skip && s.file.None? ==>
              OnTimeOpen(Open(s, i).s, i.frame) && Open(s, i).s.pending.None? && Open(s, i).s.partSamples == []
    ensures Open(s, i).skip ==> Open(s, i).s.file.None?
  {
    hide Pts;
    assert Gapless([]);
  }

  lemma AccountOnTime(s: Rec, prev: Frame, f: Frame)
    requires OnTimeClosed(s) && OnTimeOpen(s, prev)
    requires s.pending.None? ==> prev == f
    requires s.pending.Some? ==> 1 <= Pts(f) - Pts(prev) <= MAX_STEP
    ensures OnTimeClosed(Account(s, f)) && OnTimeOpen(Account(s, f), f) && Account(s, f).pending.Some?
  {
    hide Pts, Gapless, End;
    if s.pending.Some? {
      var t := Account(s, f);
      assert t.partSamples[..|s.partSamples|] == s.partSamples;
    }
  }

  lemma FlushOnTime(s: Rec, i: Input)
    requires OnTimeClosed(s) && OnTimeOpen(s, i.frame) && s.pending.Some?
    requires -PTS_BOUND <= Pts(i.frame) <= PTS_BOUND
    ensures OnTimeClosed(Flush(s, i))
    ensures Flush(s, i).file.Some? ==> OnTimeOpen(Flush(s, i), i.frame) && Flush(s, i).pending.Some?
  {
    hide Pts, Gapless;
    var fs := s.file.value.fragments;
    GaplessGrows(fs, Fragment(s.sequence, s.partStartBaseTime, s.partSamples));
    assert ToUint64(s.lastPts) == s.lastPts;
  }

  lemma OnFrameOnTime(s: Rec, i: Input)
    requires OnTime(s) && Steady(s.received + [i.frame])
    ensures OnTime(OnFrame(s, i))
  {
    hide Rotate, Open, Account, Flush, OnTimeClosed, OnTimeOpen, Pts;
    var frames := s.received + [i.frame];
    assert frames[|frames| - 1] == i.frame;
    PtsBounded(i.frame);
    var s0 := s.(received := frames);
    var prev := if s.received == [] then i.frame else s.received[|s.received| - 1];
    assert s.received != [] ==> prev == frames[|frames| - 2];
    OnTimeIgnores(s, s0, prev);
    RotateOnTime(s0, prev, i);
    RotateShape(s0, i);
    var r := Rotate(s0, i);
    if r.skip {
      RotateSkipCloses(s0, i);
    } else {
      OpenOnTime(r.s, prev, i);
      OpenShape(r.s, i);
      var o := Open(r.s, i);
      if !o.skip {
        AccountOnTime(o.s, if r.s.file.None? then i.frame else prev, i.frame);
        AccountShape(o.s, i.frame);
        var a := Account(o.s, i.frame);
        AccountKeepsFile(o.s, i.frame);
        FlushOnTime(a, i);
        FlushShape(a, i);
      }
    }
  }

  lemma OnTimeIgnores(s: Rec, t: Rec, prev: Frame)
    requires t == s.(received := t.received) && OnTimeClosed(s)
    ensures OnTimeClosed(t) && (OnTimeOpen(s, prev) ==> OnTimeOpen(t, prev))
  {
  }

  lemma RotateSkipCloses(s: Rec, i: Input)
    ensures Rotate(s, i).skip ==> Rotate(s, i).s.file.None?
  {
  }

  lemma AccountKeepsFile(s: Rec, f: Frame)
    ensures Account(s, f).file == s.file
  {
  }

  lemma OnFrameReceives(s: Rec, i: Input)
    ensures OnFrame(s, i).received == s.received + [i.frame]
  {
    hide Rotate, Open, Account, Flush;
    var s0 := s.(received := s.received + [i.frame]);
    RotateShape(s0, i);
    var r := Rotate(s0, i);
    if !r.skip {
      OpenShape(r.s, i);
      var o := Open(r.s, i);
      if !o.skip {
        AccountShape(o.s, i.frame);
        AccountKeepsFile(o.s, i.frame);
        FlushShape(Account(o.s, i.frame), i);
      }
    }
  }

  lemma {:induction false} ReceivedIsInput(inputs: seq<Input>)
    ensures |Run(inputs).received| == |inputs|
    ensures forall k :: 0 <= k < |inputs| ==> Run(inputs).received[k] == inputs[k].frame
  {
    hide OnFrame;
    if inputs == [] {
    } else {
      var init, i := inputs[..|inputs| - 1], inputs[|inputs| - 1];
      ReceivedIsInput(init);
      OnFrameReceives(Run(init), i);
    }
  }

  lemma SteadyPrefix(frames: seq<Frame>, n: nat)
    requires Steady(frames) && n <= |frames|
    ensures Steady(frames[..n])
  {
  }

  /**
   When all time steps lie in 1..450000 ticks, decode time is continuous in every file of every run, whatever the
   storage does: each fragment's base time plus the sum of its durations is the next fragment's base time.
   */
  lemma {:induction false} TimeIsContinuous(inputs: seq<Input>)
    requires Steady(Run(inputs).received)
    ensures OnTime(Run(inputs))
  {
    hide OnFrame, Steady, OnTimeClosed;
    if inputs == [] {
      NothingClosed();
    } else {
      var init, i := inputs[..|inputs| - 1], inputs[|inputs| - 1];
      var s := Run(init);
      OnFrameReceives(s, i);
      SteadyPrefix(s.received + [i.frame], |s.received|);
      assert (s.received + [i.frame])[..|s.received|] == s.received;
      TimeIsContinuous(init);
      OnFrameOnTime(s, i);
    }
  }

  lemma NothingClosed()
    ensures OnTimeClosed(START)
  {
  }

  /** The final flush keeps it so. */
  lemma ExitOnTime(s: Rec, writeOk: bool)
    requires OnTime(s)
    ensures OnTimeClosed(OnExit(s, writeOk))
  {
    hide Gapless, Tail;
    if s.file.Some? {
      GaplessGrows(s.file.value.fragments, Fragment(s.sequence, s.partStartBaseTime, Tail(s)));
    }
  }
}
