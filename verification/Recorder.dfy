/**
 The recorder's loop, updating its variables in place (internal/recorder/recorder.go).

 The loop body is split at the source's own comments: rotation, opening a file, the pending sample, the flush.
 A call to storage is a boolean input; `file` is the list of fragments marshalled into the open file.
 */
module Recorder {
  import opened Frames
  import opened RecorderSpec
  import opened RecorderRuns
  import RecorderTimes

  class Loop {
    var file: Option<File>
    var sequence: nat
    var partsWritten: nat
    var partSamples: seq<Sample>
    var partStartBaseTime: nat
    var lastPts: int
    var pendingSample: Option<Frame>
    var initialPts: int
    var lastGoodDuration: nat
    var closed: seq<File>
    ghost var received: seq<Frame>

    ghost function View(): Rec
      reads this
    {
      Rec(file, closed, sequence, partsWritten, partSamples, pendingSample, partStartBaseTime, lastPts, initialPts,
          lastGoodDuration, received)
    }

    constructor ()
      ensures View() == START
    {
      file, closed, sequence, partsWritten, partSamples, pendingSample := None, [], 0, 0, [], None;
      partStartBaseTime, lastPts, initialPts, lastGoodDuration := 0, 0, -1, 90000 / 25;
      received := [];
    }

    /** finalize */
    method FinalizeFile(isError: bool)
      modifies this
      ensures View() == Finalize(old(View()), isError)
    {
      if file.Some? {
        var fate;
        if isError {
          fate := Corrupted;
        } else if partsWritten > 0 {
          fate := Final;
        } else {
          fate := Deleted;
        }
        closed := closed + [file.value.(fate := fate)];
        file := None;
      }
    }

    /** part.Marshal(file) with the given samples; on failure the file gains no fragment. */
    method Marshal(samples: seq<Sample>, ok: bool)
      requires file.Some?
      modifies this`file, this`partsWritten
      ensures View() == if ok then WritePart(old(View()), samples) else FailWrite(old(View()))
    {
      if ok {
        var part := Fragment(sequence, partStartBaseTime, samples);
        file := Some(file.value.(fragments := file.value.fragments + [part]));
        partsWritten := partsWritten + 1;
      } else {
        file := Some(file.value.(failed := true));
      }
    }

    method RotateIfDue(i: Input) returns (skip: bool)
      modifies this
      ensures Stage(View(), skip) == Rotate(old(View()), i)
    {
      if file.Some? && i.frame.isKeyFrame && i.expired {
        if pendingSample.Some? {
          partSamples := partSamples + [Sample(pendingSample.value, lastGoodDuration)];
        }
        if |partSamples| > 0 {
          Marshal(partSamples, i.rotateOk);
          if !i.rotateOk {
            FinalizeFile(true);
            pendingSample, partSamples, initialPts := None, [], -1;
            return true;
          }
        }
        FinalizeFile(false);
        pendingSample, partSamples, initialPts := None, [], -1;
        partsWritten := 0;
      }
      return false;
    }

    method OpenIfNeeded(i: Input) returns (skip: bool)
      modifies this
      ensures Stage(View(), skip) == Open(old(View()), i)
    {
      if file.None? {
        if !i.frame.isKeyFrame || !i.createOk {
          return true;
        }
        file := Some(File([], Ongoing, false));
        if !i.initOk {
          file := Some(file.value.(failed := true));
          FinalizeFile(true);
          return true;
        }
        initialPts := Pts(i.frame);
        partStartBaseTime, lastPts, sequence, partsWritten, pendingSample, partSamples := 0, 0, 1, 0, None, [];
      }
      return false;
    }

    method TakeFrame(f: Frame)
      modifies this
      ensures View() == Account(old(View()), f)
    {
      var currentPts := Pts(f) - initialPts;
      if pendingSample.Some? {
        var dur := currentPts - lastPts;
        if !(dur <= 0 || dur > 90000 * 5) {
          lastGoodDuration := dur;
        }
        partSamples := partSamples + [Sample(pendingSample.value, lastGoodDuration)];
      }
      pendingSample := Some(f);
      lastPts := currentPts;
    }

    method FlushOnKey(i: Input)
      requires file.Some?
      modifies this
      ensures View() == Flush(old(View()), i)
    {
      if i.frame.isKeyFrame && |partSamples| > 0 {
        Marshal(partSamples, i.writeOk);
        if !i.writeOk {
          FinalizeFile(true);
          pendingSample, partSamples, initialPts := None, [], -1;
          partsWritten := 0;
          return;
        }
        partSamples := [];
        sequence := sequence + 1;
        partStartBaseTime := ToUint64(lastPts);
      }
    }

    method HandleFrame(i: Input)
      modifies this
      ensures View() == OnFrame(old(View()), i)
    {
      hide Rotate, Open, Account, Flush;
      received := received + [i.frame];
      var skip := RotateIfDue(i);
      if skip {
        return;
      }
      ghost var s := View();
      skip := OpenIfNeeded(i);
      if skip {
        return;
      }
      OpenShape(s, i);
      AccountKeepsFile(View(), i.frame);
      TakeFrame(i.frame);
      FlushOnKey(i);
    }

    method Exit(writeOk: bool)
      modifies this
      ensures View().(partSamples := old(partSamples)) == OnExit(old(View()), writeOk)
    {
      if file.Some? {
        if pendingSample.Some? {
          partSamples := partSamples + [Sample(pendingSample.value, lastGoodDuration)];
        }
        if |partSamples| > 0 {
          Marshal(partSamples, writeOk);
        }
        FinalizeFile(false);
      }
    }
  }

  function InputFrames(inputs: seq<Input>): seq<Frame> {
    seq(|inputs|, k requires 0 <= k < |inputs| => inputs[k].frame)
  }

  lemma ExitFiles(inputs: seq<Input>, exitOk: bool)
    ensures var files := OnExit(Run(inputs), exitOk).closed;
            && (forall k :: 0 <= k < |files| ==> SoundFragments(files[k].fragments))
            && (forall k :: 0 <= k < |files| && (exitOk || k < |files| - 1) ==> SoundClosed(files[k]))
            && (!exitOk && files != [] ==> var last := files[|files| - 1];
                  SoundClosed(last) || (last.failed && last.fate == if last.fragments != [] then Final else Deleted))
  {
    hide Run, OnExit, Sound, SoundFragments;
    var s := Run(inputs);
    EveryRunSound(inputs);
    ExitSound(s, exitOk);
    ClosedSound(s);
    var files := OnExit(s, exitOk).closed;
    forall k | 0 <= k < |files|
      ensures SoundFragments(files[k].fragments)
      ensures k < |s.closed| || exitOk ==> SoundClosed(files[k])
    {
      if k < |s.closed| {
        assert files[k] == files[..|s.closed|][k];
      }
    }
  }

  lemma ExitGapless(inputs: seq<Input>, exitOk: bool)
    requires Steady(Run(inputs).received)
    ensures var files := OnExit(Run(inputs), exitOk).closed;
            forall k :: 0 <= k < |files| ==> Gapless(files[k].fragments)
  {
    TimeIsContinuous(inputs);
    hide Run, OnExit, Gapless;
    ExitOnTime(Run(inputs), exitOk);
  }

  /**
   Recorder.run on everything that happens to it: the files it leaves behind, none of them open. Under any storage
   behaviour and for any times their fragments are sound and timed as RecorderTimes says, and gapless in decode time if
   the frames come at steady times; a file is corrupted exactly when a write to it failed, except that a failing write
   at exit leaves the last file final, or deleted when it is empty. With working storage every file is final and
   together they hold exactly the frames from the first keyframe on.
   */
  method RunRecorder(inputs: seq<Input>, exitOk: bool) returns (files: seq<File>)
    ensures forall k :: 0 <= k < |files| ==> SoundFragments(files[k].fragments)
    ensures forall k :: 0 <= k < |files| && (exitOk || k < |files| - 1) ==> SoundClosed(files[k])
    ensures !exitOk && files != [] ==> var last := files[|files| - 1];
              SoundClosed(last) || (last.failed && last.fate == if last.fragments != [] then Final else Deleted)
    ensures Steady(InputFrames(inputs)) ==> forall k :: 0 <= k < |files| ==> Gapless(files[k].fragments)
    ensures RecorderTimes.FilesTimed(files, inputs)
    ensures (forall k :: 0 <= k < |inputs| ==> Smooth(inputs[k])) && exitOk ==>
              && FileFrames(files) == FromFirstKey(InputFrames(inputs))
              && FinalOnly(files)
  {
    hide RecorderTimes.FilesTimed, OnFrame, OnExit, SoundFragments, SoundClosed, Steady, Gapless, FileFrames, FinalOnly;
    hide FromFirstKey, Smooth;
    var loop := new Loop();
    for n := 0 to |inputs|
      invariant fresh(loop)
      invariant loop.View() == Run(inputs[..n])
    {
      loop.HandleFrame(inputs[n]);
      assert inputs[..n + 1][..n] == inputs[..n];
    }
    assert inputs[..|inputs|] == inputs;
    loop.Exit(exitOk);
    files := loop.closed;
    ExitFiles(inputs, exitOk);
    RecorderTimes.ExitFilesTimed(inputs, exitOk);
    ReceivedIsInput(inputs);
    assert Run(inputs).received == InputFrames(inputs);
    if Steady(InputFrames(inputs)) {
      ExitGapless(inputs, exitOk);
    }
    if (forall k :: 0 <= k < |inputs| ==> Smooth(inputs[k])) && exitOk {
      NothingLostAtExit(inputs);
      AllFinalAtExit(inputs);
    }
  }
}
