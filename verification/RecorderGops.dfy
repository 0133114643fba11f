/**
 Fragments against the frames received, whatever the storage does: every fragment ever written is one unbroken
 stretch of what the recorder received.
 */
module RecorderGops {
  import opened Frames
  import opened RecorderSpec
  import opened RecorderRuns

  ghost predicate Unbroken(fs: seq<Fragment>, received: seq<Frame>) {
    forall k :: 0 <= k < |fs| ==> Stretch(FramesOf(fs[k].samples), received)
  }

  ghost predicate AllUnbroken(files: seq<File>, received: seq<Frame>) {
    forall j :: 0 <= j < |files| ==> Unbroken(files[j].fragments, received)
  }

  /** All written fragments are stretches of `received`; what an open file has buffered is the end of `handled`. */
  ghost predicate Intact(s: Rec, received: seq<Frame>, handled: seq<Frame>) {
    && AllUnbroken(s.closed, received)
    && (s.file.Some? ==> Unbroken(s.file.value.fragments, received) && Suffix(Buffered(s), handled))
  }

  lemma UnbrokenGrows(fs: seq<Fragment>, f: Fragment, received: seq<Frame>)
    requires Unbroken(fs, received) && Stretch(FramesOf(f.samples), received)
    ensures Unbroken(fs + [f], received)
  {
    hide Stretch, FramesOf;
  }

  lemma UnbrokenExtends(fs: seq<Fragment>, received: seq<Frame>, f: Frame)
    requires Unbroken(fs, received)
    ensures Unbroken(fs, received + [f])
  {
    hide Stretch, FramesOf;
    forall k | 0 <= k < |fs| ensures Stretch(FramesOf(fs[k].samples), received + [f]) {
      StretchExtends(FramesOf(fs[k].samples), received, [f]);
    }
  }

  lemma AllUnbrokenExtends(files: seq<File>, received: seq<Frame>, f: Frame)
    requires AllUnbroken(files, received)
    ensures AllUnbroken(files, received + [f])
  {
    hide Unbroken;
    forall j | 0 <= j < |files| ensures Unbroken(files[j].fragments, received + [f]) {
      UnbrokenExtends(files[j].fragments, received, f);
    }
  }

  lemma FinalizeIntact(s: Rec, isError: bool, received: seq<Frame>)
    requires AllUnbroken(s.closed, received)
    requires s.file.Some? ==> Unbroken(s.file.value.fragments, received)
    ensures AllUnbroken(Finalize(s, isError).closed, received)
  {
    hide Unbroken;
  }

  /** A write of what is buffered, or of all but the newest frame of it. */
  lemma WriteIntact(s: Rec, samples: seq<Sample>, received: seq<Frame>)
    requires s.file.Some? && Unbroken(s.file.value.fragments, received) && Stretch(FramesOf(samples), received)
    ensures Unbroken(WritePart(s, samples).file.value.fragments, received)
  {
    hide Stretch, FramesOf, Unbroken;
    UnbrokenGrows(s.file.value.fragments, Fragment(s.sequence, s.partStartBaseTime, samples), received);
  }

  lemma RotateIntact(s: Rec, i: Input, handled: seq<Frame>)
    requires Intact(s, handled + [i.frame], handled)
    ensures Intact(Rotate(s, i).s, handled + [i.frame], handled)
    ensures Rotate(s, i).s.file.Some? ==> Rotate(s, i).s == s
  {
    if s.file.Some? && i.frame.isKeyFrame && i.expired {
      var received := handled + [i.frame];
      TailFrames(s);
      SuffixIsStretch(Buffered(s), handled);
      StretchExtends(Buffered(s), handled, [i.frame]);
      hide Stretch, FramesOf, Unbroken, AllUnbroken, Suffix, Tail;
      WriteIntact(s, Tail(s), received);
      FinalizeIntact(s, false, received);
      FinalizeIntact(FailWrite(s), true, received);
      FinalizeIntact(WritePart(s, Tail(s)), false, received);
    }
  }

  lemma OpenIntact(s: Rec, i: Input, handled: seq<Frame>)
    requires Intact(s, handled + [i.frame], handled)
    ensures Intact(Open(s, i).s, handled + [i.frame], handled)
  {
    if s.file.None? {
      var received := handled + [i.frame];
      var created := s.(file := Some(File([], Ongoing, false)));
      assert Unbroken([], received);
      EmptySuffix(handled);
      hide Unbroken, AllUnbroken, Suffix, Pts;
      FinalizeIntact(FailWrite(created), true, received);
    }
  }

  lemma AccountIntact(s: Rec, f: Frame, handled: seq<Frame>)
    requires s.file.Some? && Intact(s, handled + [f], handled)
    ensures Intact(Account(s, f), handled + [f], handled + [f])
  {
    AccountBuffers(s, f);
    SuffixGrows(Buffered(s), handled, f);
    hide Unbroken, AllUnbroken, Suffix, Buffered, Pts;
  }

  lemma AccountBuffers(s: Rec, f: Frame)
    ensures Buffered(Account(s, f)) == Buffered(s) + [f]
  {
    hide Pts;
  }

  lemma FlushIntact(s: Rec, i: Input, handled: seq<Frame>)
    requires s.file.Some? && s.pending == Some(i.frame)
    requires Intact(s, handled + [i.frame], handled + [i.frame])
    ensures Intact(Flush(s, i), handled + [i.frame], handled + [i.frame])
  {
    if i.frame.isKeyFrame && s.partSamples != [] {
      var received := handled + [i.frame];
      SuffixDropsLast(FramesOf(s.partSamples), handled, i.frame);
      SuffixIsStretch(FramesOf(s.partSamples), handled);
      StretchExtends(FramesOf(s.partSamples), handled, [i.frame]);
      SuffixLast(handled, i.frame);
      assert Buffered(Flush(s, i)) == if i.writeOk then [i.frame] else [];
      hide Stretch, FramesOf, Unbroken, AllUnbroken, Suffix, Buffered, ToUint64;
      WriteIntact(s, s.partSamples, received);
      FinalizeIntact(FailWrite(s), true, received);
    }
  }

  lemma OnFrameIntact(s: Rec, i: Input)
    requires Intact(s, s.received, s.received)
    ensures Intact(OnFrame(s, i), s.received + [i.frame], s.received + [i.frame])
  {
    var handled := s.received;
    var s0 := s.(received := handled + [i.frame]);
    IntactExtends(s, s0, i.frame);
    hide Intact, Rotate, Open, Account, Flush;
    RotateIntact(s0, i, handled);
    RotateShape(s0, i);
    var r := Rotate(s0, i);
    if r.skip {
      RotateSkipCloses(s0, i);
      IntactClosed(r.s, handled, i.frame);
    } else {
      OpenIntact(r.s, i, handled);
      OpenShape(r.s, i);
      var o := Open(r.s, i);
      if o.skip {
        IntactClosed(o.s, handled, i.frame);
      } else {
        AccountIntact(o.s, i.frame, handled);
        AccountShape(o.s, i.frame);
        AccountKeepsFile(o.s, i.frame);
        FlushIntact(Account(o.s, i.frame), i, handled);
      }
    }
  }

  lemma IntactExtends(s: Rec, t: Rec, f: Frame)
    requires Intact(s, s.received, s.received) && t == s.(received := s.received + [f])
    ensures Intact(t, s.received + [f], s.received)
  {
    hide Unbroken, AllUnbroken, Suffix;
    AllUnbrokenExtends(s.closed, s.received, f);
    if s.file.Some? {
      UnbrokenExtends(s.file.value.fragments, s.received, f);
    }
    assert Buffered(t) == Buffered(s);
  }

  lemma IntactClosed(s: Rec, handled: seq<Frame>, f: Frame)
    requires s.file.None? && Intact(s, handled + [f], handled)
    ensures Intact(s, handled + [f], handled + [f])
  {
    hide AllUnbroken;
  }

  lemma {:induction false} EveryRunIntact(inputs: seq<Input>)
    ensures Intact(Run(inputs), Run(inputs).received, Run(inputs).received)
  {
    hide OnFrame;
    if inputs == [] {
    } else {
      var init, i := inputs[..|inputs| - 1], inputs[|inputs| - 1];
      EveryRunIntact(init);
      hide Intact;
      OnFrameIntact(Run(init), i);
      OnFrameReceives(Run(init), i);
    }
  }

  lemma ExitIntact(s: Rec, writeOk: bool)
    requires Intact(s, s.received, s.received)
    ensures AllUnbroken(OnExit(s, writeOk).closed, s.received)
  {
    if s.file.Some? {
      TailFrames(s);
      SuffixIsStretch(Buffered(s), s.received);
      hide Stretch, FramesOf, Unbroken, AllUnbroken, Suffix, Tail;
      WriteIntact(s, Tail(s), s.received);
      FinalizeIntact(s, false, s.received);
      FinalizeIntact(FailWrite(s), false, s.received);
      FinalizeIntact(WritePart(s, Tail(s)), false, s.received);
    }
  }

  /** `f` is a file of the run: open or closed before exit, or closed by then. */
  ghost predicate FileOf(inputs: seq<Input>, exitOk: bool, f: File) {
    || Run(inputs).file == Some(f)
    || f in Run(inputs).closed
    || f in OnExit(Run(inputs), exitOk).closed
  }

  /**
   Whatever the storage does: every fragment of every file of every run, open or closed, is one GOP and one unbroken
   stretch of the frames received.
   */
  lemma FragmentsAreStretches(inputs: seq<Input>, exitOk: bool, f: File, k: nat)
    requires FileOf(inputs, exitOk, f) && k < |f.fragments|
    ensures SoundFragments(f.fragments) && Stretch(FramesOf(f.fragments[k].samples), Run(inputs).received)
  {
    var s := Run(inputs);
    EveryRunSound(inputs);
    EveryRunIntact(inputs);
    hide Run;
    ClosedSound(s);
    ExitSound(s, exitOk);
    ExitIntact(s, exitOk);
    hide Stretch, FramesOf, OnExit, SoundFragments;
    if f in OnExit(s, exitOk).closed {
      var files := OnExit(s, exitOk).closed;
      var j :| 0 <= j < |files| && files[j] == f;
      if j < |s.closed| {
        assert files[j] == files[..|s.closed|][j] == s.closed[j];
      }
    }
  }
}
