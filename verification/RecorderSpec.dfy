/**
 The archive recorder as a state machine (internal/recorder/recorder.go).

 The clock and the outcome of every storage call are inputs. The state keeps what was written (closed files and
 the open one) and the frames received, so that theorems can relate the two.
 */
module RecorderSpec {
  import opened Frames
  import opened Timestamps

  const MAX_STEP := 450000          // 90000 * 5
  const DEFAULT_DURATION := 3600    // 90000 / 25

  datatype Sample = Sample(frame: Frame, duration: nat)
  datatype Fragment = Fragment(sequenceNumber: nat, baseTime: nat, samples: seq<Sample>)
  datatype Fate = Ongoing | Final | Corrupted | Deleted

  /** `failed` is history: some write to this file failed. Only a failing write sets it. */
  datatype File = File(fragments: seq<Fragment>, fate: Fate, failed: bool)

  datatype Rec = Rec(
    file: Option<File>,
    closed: seq<File>,
    sequence: nat,
    partsWritten: nat,
    partSamples: seq<Sample>,
    pending: Option<Frame>,
    partStartBaseTime: nat,
    lastPts: int,
    initialPts: int,
    lastGoodDuration: nat,
    received: seq<Frame>)

  /** A frame and what the environment does while it is handled. */
  datatype Input = Input(frame: Frame, expired: bool, rotateOk: bool, createOk: bool, initOk: bool, writeOk: bool)

  const START := Rec(None, [], 0, 0, [], None, 0, 0, -1, DEFAULT_DURATION, [])

  function Pts(f: Frame): int {
    DurationTo90k(f.timestamp)
  }

  /** Closes the open file: renamed as corrupted, renamed to its final name, or deleted when it is empty. */
  function Finalize(s: Rec, isError: bool): Rec {
    if s.file.None? then s
    else
      var fate := if isError then Corrupted else if s.partsWritten > 0 then Final else Deleted;
      s.(file := None, closed := s.closed + [s.file.value.(fate := fate)])
  }

  /** The samples a flush at rotation or exit writes: the pending one gets the last good duration. */
  function Tail(s: Rec): seq<Sample> {
    if s.pending.Some? then s.partSamples + [Sample(s.pending.value, s.lastGoodDuration)] else s.partSamples
  }

  function WritePart(s: Rec, samples: seq<Sample>): Rec
    requires s.file.Some?
  {
    var f := s.file.value;
    s.(file := Some(f.(fragments := f.fragments + [Fragment(s.sequence, s.partStartBaseTime, samples)])),
       partsWritten := s.partsWritten + 1)
  }

  /** A write that fails adds nothing to the file. */
  function FailWrite(s: Rec): Rec
    requires s.file.Some?
  {
    s.(file := Some(s.file.value.(failed := true)))
  }

  /** The part of the loop before the file is (re)opened; `skip` says that the frame is done with. */
  datatype Stage = Stage(s: Rec, skip: bool)

  function Forget(s: Rec): Rec {
    s.(pending := None, partSamples := [], initialPts := -1)
  }

  function Rotate(s: Rec, i: Input): Stage {
    if !(s.file.Some? && i.frame.isKeyFrame && i.expired) then Stage(s, false)
    else if Tail(s) == [] then Stage(Forget(Finalize(s, false)).(partsWritten := 0), false)
    else if !i.rotateOk then Stage(Forget(Finalize(FailWrite(s), true)), true)
    else Stage(Forget(Finalize(WritePart(s, Tail(s)), false)).(partsWritten := 0), false)
  }

  function Open(s: Rec, i: Input): Stage {
    if s.file.Some? then Stage(s, false)
    else if !i.frame.isKeyFrame || !i.createOk then Stage(s, true)
    else
      var created := s.(file := Some(File([], Ongoing, false)));
      if !i.initOk then Stage(Finalize(FailWrite(created), true), true)
      else Stage(created.(initialPts := Pts(i.frame), partStartBaseTime := 0, lastPts := 0, sequence := 1,
                         partsWritten := 0, pending := None, partSamples := []), false)
  }

  /** The duration of the pending sample, now that the next frame's time is known. */
  function NextDuration(s: Rec, currentPts: int): nat {
    var dur := currentPts - s.lastPts;
    if dur <= 0 || dur > MAX_STEP then s.lastGoodDuration else dur
  }

  function Account(s: Rec, f: Frame): Rec {
    var currentPts := Pts(f) - s.initialPts;
    var s1 := if s.pending.None? then s
              else
                var dur := NextDuration(s, currentPts);
                s.(lastGoodDuration := dur, partSamples := s.partSamples + [Sample(s.pending.value, dur)]);
    s1.(pending := Some(f), lastPts := currentPts)
  }

  /** uint64(currentPts) */
  function ToUint64(x: int): nat {
    x % 0x1_0000_0000_0000_0000
  }

  function Flush(s: Rec, i: Input): Rec
    requires s.file.Some?
  {
    if !i.frame.isKeyFrame || s.partSamples == [] then s
    else if !i.writeOk then Forget(Finalize(FailWrite(s), true)).(partsWritten := 0)
    else
      WritePart(s, s.partSamples).(partSamples := [], sequence := s.sequence + 1,
                                   partStartBaseTime := ToUint64(s.lastPts))
  }

  function OnFrame(s: Rec, i: Input): Rec {
    var s0 := s.(received := s.received + [i.frame]);
    var r := Rotate(s0, i);
    if r.skip then r.s
    else
      var o := Open(r.s, i);
      if o.skip then o.s else Flush(Account(o.s, i.frame), i)
  }

  /** Everything after the loop; a failing last write is not reported. */
  function OnExit(s: Rec, writeOk: bool): Rec {
    if s.file.None? then s
    else if Tail(s) == [] then Finalize(s, false)
    else Finalize(if writeOk then WritePart(s, Tail(s)) else FailWrite(s), false)
  }

  function Run(inputs: seq<Input>): Rec {
    if inputs == [] then START else OnFrame(Run(inputs[..|inputs| - 1]), inputs[|inputs| - 1])
  }

  // ---------------------------------------------------------------------------------------------
  // What every file satisfies, whatever the storage does

  ghost predicate Timed(samples: seq<Sample>) {
    forall k :: 0 <= k < |samples| ==> 1 <= samples[k].duration <= MAX_STEP
  }

  /** One group of pictures: a keyframe and then only frames that depend on it. */
  ghost predicate Gop(samples: seq<Sample>) {
    && samples != [] && samples[0].frame.isKeyFrame
    && forall k :: 0 < k < |samples| ==> !samples[k].frame.isKeyFrame
  }

  ghost predicate Numbered(fs: seq<Fragment>) {
    forall k :: 0 <= k < |fs| ==> fs[k].sequenceNumber == k + 1
  }

  ghost predicate SoundFragments(fs: seq<Fragment>) {
    Numbered(fs) && forall k :: 0 <= k < |fs| ==> Gop(fs[k].samples) && Timed(fs[k].samples)
  }

  /**
   A file the loop has closed: corrupted exactly when a write to it failed, else final, or deleted when it is empty.
   */
  ghost predicate SoundClosed(f: File) {
    && SoundFragments(f.fragments)
    && f.fate == if f.failed then Corrupted else if f.fragments != [] then Final else Deleted
  }

  /** The open file and the loop variables that go with it. */
  ghost predicate SoundOpen(s: Rec) {
    s.file.Some? ==>
      && SoundFragments(s.file.value.fragments)
      && !s.file.value.failed
      && s.partsWritten == |s.file.value.fragments|
      && s.sequence == |s.file.value.fragments| + 1
      && s.pending.Some?
      && Gop(Tail(s)) && Timed(s.partSamples)
  }

  ghost predicate Sound(s: Rec) {
    && 1 <= s.lastGoodDuration <= MAX_STEP
    && SoundOpen(s)
    && forall k :: 0 <= k < |s.closed| ==> SoundClosed(s.closed[k])
  }

  lemma FragmentsGrow(s: Rec, samples: seq<Sample>)
    requires s.file.Some? && SoundFragments(s.file.value.fragments)
    requires s.sequence == |s.file.value.fragments| + 1 && Gop(samples) && Timed(samples)
    ensures SoundFragments(WritePart(s, samples).file.value.fragments)
  {
  }

  lemma FinalizeSound(s: Rec, isError: bool)
    requires s.file.Some? && SoundFragments(s.file.value.fragments) && 1 <= s.lastGoodDuration <= MAX_STEP
    requires s.partsWritten == |s.file.value.fragments| || isError
    requires isError == s.file.value.failed
    requires forall k :: 0 <= k < |s.closed| ==> SoundClosed(s.closed[k])
    ensures Sound(Finalize(s, isError)) && Finalize(s, isError).file.None?
  {
  }

  lemma RotateSound(s: Rec, i: Input)
    requires Sound(s)
    ensures Sound(Rotate(s, i).s)
    ensures !Rotate(s, i).skip && Rotate(s, i).s.file.Some? ==>
              Rotate(s, i).s == s && !(i.frame.isKeyFrame && i.expired)
  {
    if s.file.Some? && i.frame.isKeyFrame && i.expired {
      if i.rotateOk {
        FragmentsGrow(s, Tail(s));
        FinalizeSound(WritePart(s, Tail(s)), false);
      } else {
        FinalizeSound(FailWrite(s), true);
      }
    }
  }

  /** After Open either the frame is skipped, or a file is open and ready to take it. */
  ghost predicate Ready(s: Rec, f: Frame) {
    && s.file.Some?
    && (s.pending.None? ==>
          f.isKeyFrame && s.partSamples == [] && s.file.value == File([], Ongoing, false)
          && s.sequence == 1 && s.partsWritten == 0)
    && (s.pending.Some? ==> SoundOpen(s))
    && 1 <= s.lastGoodDuration <= MAX_STEP
    && forall k :: 0 <= k < |s.closed| ==> SoundClosed(s.closed[k])
  }

  lemma OpenSound(s: Rec, i: Input)
    requires Sound(s)
    ensures Open(s, i).skip ==> Sound(Open(s, i).s)
    ensures !Open(s, i).skip ==> Ready(Open(s, i).s, i.frame)
  {
    if s.file.None? && i.frame.isKeyFrame && i.createOk && !i.initOk {
      FinalizeSound(s.(file := Some(File([], Ongoing, true))), true);
    }
  }

  /** After Account the buffered samples are one GOP with the new frame pending. */
  lemma AccountSound(s: Rec, i: Input)
    requires Ready(s, i.frame)
    ensures var t := Account(s, i.frame);
            && t.pending == Some(i.frame) && Timed(t.partSamples) && 1 <= t.lastGoodDuration <= MAX_STEP
            && (t.partSamples != [] ==> Gop(t.partSamples))
            && (t.partSamples == [] ==> i.frame.isKeyFrame)
  {
    if s.pending.Some? {
      var t := Account(s, i.frame);
      var tail := Tail(s);
      assert |t.partSamples| == |tail|;
      assert forall k :: 0 <= k < |tail| ==> t.partSamples[k].frame == tail[k].frame;
    }
  }

  lemma FlushSound(s: Rec, i: Input)
    requires Ready(s, i.frame)
    ensures Sound(Flush(Account(s, i.frame), i))
  {
    var t := Account(s, i.frame);
    AccountSound(s, i);
    if i.frame.isKeyFrame && t.partSamples != [] {
      if i.writeOk {
        FragmentsGrow(t, t.partSamples);
      } else {
        FinalizeSound(FailWrite(t), true);
      }
    }
  }

  lemma OnFrameSound(s: Rec, i: Input)
    requires Sound(s)
    ensures Sound(OnFrame(s, i))
  {
    hide Sound, Rotate, Open, Flush, Account;
    var s0 := s.(received := s.received + [i.frame]);
    ReceivedIrrelevant(s, s0);
    RotateSound(s0, i);
    if !Rotate(s0, i).skip {
      OpenSound(Rotate(s0, i).s, i);
      if !Open(Rotate(s0, i).s, i).skip {
        FlushSound(Open(Rotate(s0, i).s, i).s, i);
      }
    }
  }

  lemma ReceivedIrrelevant(s: Rec, t: Rec)
    requires Sound(s) && t == s.(received := t.received)
    ensures Sound(t)
  {
  }

  /**
   Under arbitrary create and write failures, in every reachable state: fragments are numbered 1, 2, 3, ... within
   each file, each holds exactly one GOP, every duration lies in 1..450000; `partsWritten` counts the open file's
   fragments; no write to the open file has failed; and a closed file is corrupted if and only if a write to it failed,
   otherwise finally named if it has a fragment, and deleted if it has none.
   */
  lemma {:induction false} EveryRunSound(inputs: seq<Input>)
    ensures Sound(Run(inputs))
  {
    if inputs == [] {
    } else {
      EveryRunSound(inputs[..|inputs| - 1]);
      OnFrameSound(Run(inputs[..|inputs| - 1]), inputs[|inputs| - 1]);
    }
  }

  /**
   After the loop no file is open. The file that was open gets the buffered samples as its last fragment and is
   final; but a last write that fails goes unreported: those samples are lost, and the file is final all the same,
   or deleted when it has no fragment.
   */
  lemma ExitSound(s: Rec, writeOk: bool)
    requires Sound(s)
    ensures var t := OnExit(s, writeOk);
            && t.file.None? && |t.closed| == |s.closed| + (if s.file.Some? then 1 else 0)
            && t.closed[..|s.closed|] == s.closed
            && (s.file.Some? ==>
                  var last, fs := t.closed[|s.closed|], s.file.value.fragments;
                  && SoundFragments(last.fragments) && last.failed == !writeOk
                  && last.fragments == (if writeOk then fs + [Fragment(|fs| + 1, s.partStartBaseTime, Tail(s))] else fs)
                  && last.fate == if last.fragments != [] then Final else Deleted)
  {
    if s.file.Some? && writeOk {
      FragmentsGrow(s, Tail(s));
    }
  }

  /** The files of a whole run keep the rule of the loop if and only if no last write failed. */
  lemma ExitFates(s: Rec, writeOk: bool)
    requires Sound(s)
    ensures (forall k :: 0 <= k < |OnExit(s, writeOk).closed| ==> SoundClosed(OnExit(s, writeOk).closed[k]))
       <==> (s.file.None? || writeOk)
  {
    hide Sound, OnExit, SoundFragments;
    ExitSound(s, writeOk);
    ClosedSound(s);
    var files := OnExit(s, writeOk).closed;
    forall k | 0 <= k < |s.closed| ensures SoundClosed(files[k]) {
      assert files[k] == files[..|s.closed|][k];
    }
  }

  lemma ClosedSound(s: Rec)
    requires Sound(s)
    ensures forall k :: 0 <= k < |s.closed| ==> SoundClosed(s.closed[k])
  {
  }

  /** The storage calls one frame makes, and whether one of its writes fails. */
  ghost predicate Rotates(s: Rec, i: Input) {
    s.file.Some? && i.frame.isKeyFrame && i.expired
  }

  ghost predicate WriteFails(s: Rec, i: Input) {
    && i.frame.isKeyFrame
    && if Rotates(s, i) then !i.rotateOk || (i.createOk && !i.initOk)
       else if s.file.Some? then !i.writeOk
       else i.createOk && !i.initOk
  }

  /**
   Fates, frame by frame and for any storage behaviour: a frame leaves a corrupted file if and only if one of its
   writes fails, a final one if and only if it rotates and that write succeeds, and never deletes one; files closed
   earlier are left alone.
   */
  lemma FatesExact(s: Rec, i: Input)
    requires Sound(s)
    ensures var t := OnFrame(s, i);
            && |s.closed| <= |t.closed| && t.closed[..|s.closed|] == s.closed
            && var news := t.closed[|s.closed|..];
            && ((exists f :: f in news && f.fate == Corrupted) <==> WriteFails(s, i))
            && ((exists f :: f in news && f.fate == Final) <==> Rotates(s, i) && i.rotateOk)
            && (forall f :: f in news ==> f.fate == Corrupted || f.fate == Final)
  {
    var news := NewFiles(s, i);
    hide OnFrame, Sound;
    assert OnFrame(s, i).closed[..|s.closed|] == s.closed && OnFrame(s, i).closed[|s.closed|..] == news;
    var finals, broken := if Rotates(s, i) && i.rotateOk then 1 else 0, if WriteFails(s, i) then 1 else 0;
    hide Rotates, WriteFails;
    FatesOf(news, finals, broken);
  }

  lemma FatesOf(news: seq<File>, finals: nat, broken: nat)
    requires finals <= 1 && broken <= 1 && |news| == finals + broken
    requires (finals == 1 ==> news[0].fate == Final) && (broken == 1 ==> news[|news| - 1].fate == Corrupted)
    ensures (exists f :: f in news && f.fate == Corrupted) <==> broken == 1
    ensures (exists f :: f in news && f.fate == Final) <==> finals == 1
    ensures forall f :: f in news ==> f.fate == Corrupted || f.fate == Final
  {
    if finals == 1 {
      assert news[0] in news;
    }
    if broken == 1 {
      assert news[|news| - 1] in news;
    }
  }

  lemma RotateFiles(s: Rec, i: Input) returns (news: seq<File>)
    requires Sound(s)
    ensures Rotate(s, i).s.closed == s.closed + news && |news| == if Rotates(s, i) then 1 else 0
    ensures Rotates(s, i) ==> Rotate(s, i).s.file.None? && news[0].fate == if i.rotateOk then Final else Corrupted
    ensures !Rotates(s, i) ==> Rotate(s, i).s == s
    ensures Rotate(s, i).skip <==> Rotates(s, i) && !i.rotateOk
  {
    hide Gop, Timed, Numbered;
    news := Rotate(s, i).s.closed[|s.closed|..];
  }

  lemma OpenFiles(s: Rec, i: Input) returns (news: seq<File>)
    ensures Open(s, i).s.closed == s.closed + news
    ensures |news| == if s.file.None? && i.frame.isKeyFrame && i.createOk && !i.initOk then 1 else 0
    ensures news != [] ==> Open(s, i).skip && news[0].fate == Corrupted
    ensures !Open(s, i).skip && s.file.None? ==> Open(s, i).s.pending.None? && Open(s, i).s.partSamples == []
    ensures !Open(s, i).skip ==> Open(s, i).s.file.Some?
    ensures s.file.Some? ==> Open(s, i) == Stage(s, false)
  {
    hide Pts;
    news := Open(s, i).s.closed[|s.closed|..];
  }

  lemma FlushFiles(s: Rec, i: Input) returns (news: seq<File>)
    requires s.file.Some? && (s.pending.None? ==> s.partSamples == [])
    ensures Flush(Account(s, i.frame), i).closed == s.closed + news
    ensures |news| == if i.frame.isKeyFrame && s.pending.Some? && !i.writeOk then 1 else 0
    ensures news != [] ==> news[0].fate == Corrupted
  {
    hide Pts;
    news := Flush(Account(s, i.frame), i).closed[|s.closed|..];
  }

  /** What one frame adds to the closed files. */
  lemma NewFiles(s: Rec, i: Input) returns (news: seq<File>)
    requires Sound(s)
    ensures OnFrame(s, i).closed == s.closed + news
    ensures |news| == (if WriteFails(s, i) then 1 else 0) + (if Rotates(s, i) && i.rotateOk then 1 else 0)
    ensures Rotates(s, i) && i.rotateOk ==> news[0].fate == Final
    ensures WriteFails(s, i) ==> news[|news| - 1].fate == Corrupted
  {
    var s0 := s.(received := s.received + [i.frame]);
    ReceivedIrrelevant(s, s0);
    OpenPending(s);
    hide Rotate, Open, Flush, Account, Sound;
    news := RotateFiles(s0, i);
    var r := Rotate(s0, i);
    if !r.skip {
      var more := OpenFiles(r.s, i);
      news := news + more;
      var o := Open(r.s, i);
      if !o.skip {
        more := FlushFiles(o.s, i);
        news := news + more;
      }
    }
  }

  lemma OpenPending(s: Rec)
    requires Sound(s)
    ensures s.file.Some? ==> s.pending.Some?
  {
  }

  /**
   Rotation happens exactly when it is due: with working storage a frame closes a file if and only if a file is
   open, the frame is a keyframe and the hour is over; the closed file is final, and the keyframe opens the next
   one.
   */
  lemma RotationExact(s: Rec, i: Input)
    requires Sound(s) && i.rotateOk && i.createOk && i.initOk && i.writeOk
    ensures var t := OnFrame(s, i);
            var due := s.file.Some? && i.frame.isKeyFrame && i.expired;
            && (!due ==> t.closed == s.closed)
            && (due ==>
                  && |t.closed| == |s.closed| + 1 && t.closed[..|s.closed|] == s.closed
                  && t.closed[|s.closed|].fate == Final
                  && |t.closed[|s.closed|].fragments| == |s.file.value.fragments| + 1
                  && t.file == Some(File([], Ongoing, false)) && t.pending == Some(i.frame) && t.lastPts == 0)
  {
    hide Gop, Timed, Numbered, Pts;
  }
}
