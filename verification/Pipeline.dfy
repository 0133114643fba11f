/**
 Components together: what the ring buffer delivers to the recorder, what the recorder writes, and what is left of
 it after a crash.
 */
module Pipeline {
  import opened Frames
  import opened Boxes
  import Archive
  import Recordings
  import Recovery
  import RingSpec
  import RecorderSpec
  import RecorderRuns
  import RecorderGops

  // ---------------------------------------------------------------------------------------------
  // From the camera to the archive

  /** In clean runs, a stretch that starts at a keyframe and holds no other keyframe has no gap in the log. */
  lemma {:induction false} GopContiguous(log: seq<Frame>, frames: seq<Frame>, ps: seq<nat>, a: nat, b: nat)
    requires RingSpec.CleanRuns(log, frames, ps) && a < b <= |frames|
    requires forall k :: a < k < b ==> !frames[k].isKeyFrame
    ensures ps[a] + (b - a) <= |log| && frames[a..b] == log[ps[a]..ps[a] + (b - a)]
    ensures ps[b - 1] == ps[a] + (b - 1 - a)
    decreases b
  {
    if a + 1 < b {
      GopContiguous(log, frames, ps, a, b - 1);
      assert frames[b - 1] == log[ps[b - 1]];
      assert frames[a..b] == frames[a..b - 1] + [frames[b - 1]];
    } else {
      assert frames[a] == log[ps[a]];
    }
  }

  /** A group of pictures that occurs in clean runs occurs in the log without a gap. */
  lemma CleanGopInLog(log: seq<Frame>, frames: seq<Frame>, ps: seq<nat>, gop: seq<Frame>)
    requires RingSpec.CleanRuns(log, frames, ps) && Stretch(gop, frames)
    requires gop != [] && forall k :: 0 < k < |gop| ==> !gop[k].isKeyFrame
    ensures Stretch(gop, log)
  {
    hide RingSpec.CleanRuns;
    var at: nat :| OccursAt(gop, frames, at);
    forall k | at < k < at + |gop| ensures !frames[k].isKeyFrame {
      assert frames[k] == gop[k - at];
    }
    var p := GopPosition(log, frames, ps, at, at + |gop|);
    assert OccursAt(gop, log, p);
  }

  lemma GopPosition(log: seq<Frame>, frames: seq<Frame>, ps: seq<nat>, a: nat, b: nat) returns (p: nat)
    requires RingSpec.CleanRuns(log, frames, ps) && a < b <= |frames|
    requires forall k :: a < k < b ==> !frames[k].isKeyFrame
    ensures p + (b - a) <= |log| && frames[a..b] == log[p..p + (b - a)]
  {
    GopContiguous(log, frames, ps, a, b);
    p := ps[a];
  }

  /** The recorder handles what reader `i` of the ring has taken, whatever storage and clock do meanwhile. */
  ghost predicate Records(cap: nat, ops: seq<RingSpec.Op>, i: nat, inputs: seq<RecorderSpec.Input>) {
    && cap > 0 && i < |RingSpec.Run(cap, ops).readers|
    && RecorderSpec.Run(inputs).received == RingSpec.Run(cap, ops).readers[i].received
  }

  /** A keyframe and the frames that depend on it, exactly as the camera sent them. */
  ghost predicate WholeGop(gop: seq<Frame>, log: seq<Frame>) {
    && gop != [] && gop[0].isKeyFrame && (forall n :: 0 < n < |gop| ==> !gop[n].isKeyFrame)
    && Stretch(gop, log)
  }

  lemma StretchAfterKey(gop: seq<Frame>, frames: seq<Frame>)
    requires gop != [] && gop[0].isKeyFrame && Stretch(gop, frames)
    ensures Stretch(gop, FromFirstKey(frames))
  {
    var at: nat :| OccursAt(gop, frames, at);
    assert frames[at] == gop[0];
    assert FirstKey(frames) <= at;
    assert OccursAt(gop, FromFirstKey(frames), at - FirstKey(frames));
  }

  /**
   Whatever the ring drops, however files rotate and whichever storage calls fail: every fragment of every file of
   the run, open or closed, is a keyframe and the frames that depend on it, exactly as the camera sent them: one
   stretch of the write log without a gap.
   */
  lemma ArchivedGopsAreWhole(cap: nat, ops: seq<RingSpec.Op>, i: nat, inputs: seq<RecorderSpec.Input>, exitOk: bool,
                             f: RecorderSpec.File, k: nat)
    requires Records(cap, ops, i, inputs) && RecorderGops.FileOf(inputs, exitOk, f) && k < |f.fragments|
    ensures WholeGop(RecorderRuns.FramesOf(f.fragments[k].samples), RingSpec.Run(cap, ops).log)
  {
    var ring := RingSpec.Run(cap, ops);
    var r := ring.readers[i];
    RecorderGops.FragmentsAreStretches(inputs, exitOk, f, k);
    assert RecorderSpec.Gop(f.fragments[k].samples);
    var gop := RecorderRuns.FramesOf(f.fragments[k].samples);
    StretchAfterKey(gop, r.received);
    RingSpec.GatedConsumer(cap, ops, i);
    CleanGopInLog(ring.log, FromFirstKey(r.received), r.sent[FirstKey(r.received)..|r.received|], gop);
  }

  // ---------------------------------------------------------------------------------------------
  // From the archive through a crash

  /** How the recorder's fragments become boxes; any marshalling that writes a moof and its mdat will do. */
  type Marshal = RecorderSpec.Fragment -> Recordings.Fragment

  ghost predicate WritesPairs(marshal: Marshal, fs: seq<RecorderSpec.Fragment>) {
    forall k :: 0 <= k < |fs| ==> Recordings.WellFormedFragment(marshal(fs[k]))
  }

  ghost function OnDisk(init: seq<Box>, marshal: Marshal, fs: seq<RecorderSpec.Fragment>): Recordings.Recording {
    Recordings.Recording(init, seq(|fs|, k requires 0 <= k < |fs| => marshal(fs[k])))
  }

  /** The fMP4 library reads back the durations it wrote. */
  ghost predicate ReadsDurations(u: Archive.Unmarshal, marshal: Marshal, fs: seq<RecorderSpec.Fragment>) {
    forall k :: 0 <= k < |fs| ==> u(Recordings.Pair(marshal(fs[k]))) == RecorderRuns.Total(fs[k].samples)
  }

  lemma {:induction false} TotalPositive(samples: seq<RecorderSpec.Sample>)
    requires RecorderSpec.Timed(samples)
    ensures samples != [] ==> RecorderRuns.Total(samples) > 0
  {
    if samples == [] {
    } else {
      TotalPositive(samples[..|samples| - 1]);
    }
  }

  /** The initialization boxes the recorder writes. */
  ghost predicate InitBoxes(init: seq<Box>) {
    Recordings.NoMoof(init) && Recovery.Has(init, MOOV) && !Recovery.Has(init, MDAT)
  }

  /** The index of what is left of a file holds exactly the first fragments, those that lie wholly before the cut. */
  ghost predicate IndexesWhole(parts: seq<Archive.PartInfo>, u: Archive.Unmarshal, disk: Recordings.Recording, n: nat) {
    var off := |EncodeAll(disk.init)|;
    && |parts| <= |disk.fragments| && parts == Recordings.PartsOf(u, disk.fragments[..|parts|], off)
    && forall k :: 0 <= k < |disk.fragments| ==>
         (k < |parts| <==>
            off + |Recordings.EncodeFragments(disk.fragments[..k])| + |Recordings.Pair(disk.fragments[k])| <= n)
  }

  /**
   Power failure: cut the bytes of any file of any run anywhere, in the middle of a write too, whatever the ring
   dropped and whichever storage calls failed before. The index of what is left holds exactly the fragments that lie
   before the cut; each of them is a whole GOP as the camera sent it, with the duration the recorder gave it if the
   library reads back what it wrote; and if the validator accepts what is left, there is at least one.
   */
  lemma CrashKeepsWholeGops(cap: nat, ops: seq<RingSpec.Op>, i: nat, inputs: seq<RecorderSpec.Input>, exitOk: bool,
                            f: RecorderSpec.File, init: seq<Box>, marshal: Marshal, u: Archive.Unmarshal, n: nat)
    requires Records(cap, ops, i, inputs) && RecorderGops.FileOf(inputs, exitOk, f)
    requires InitBoxes(init) && WritesPairs(marshal, f.fragments)
    requires n <= |Recordings.EncodeRecording(OnDisk(init, marshal, f.fragments))|
    ensures var disk := OnDisk(init, marshal, f.fragments);
            var left := Recordings.EncodeRecording(disk)[..n];
            var parts := Archive.Index(u, left).parts;
            && IndexesWhole(parts, u, disk, n)
            && |parts| <= |f.fragments|
            && (forall k :: 0 <= k < |parts| ==>
                  WholeGop(RecorderRuns.FramesOf(f.fragments[k].samples), RingSpec.Run(cap, ops).log))
            && (ReadsDurations(u, marshal, f.fragments) ==>
                  forall k :: 0 <= k < |parts| ==> parts[k].duration == RecorderRuns.Total(f.fragments[k].samples))
            && (Recovery.Acceptable(left) ==> |parts| >= 1)
  {
    var disk := OnDisk(init, marshal, f.fragments);
    DiskRecorded(init, marshal, f.fragments);
    hide OnDisk, WholeGop, Records, RecorderGops.FileOf, ReadsDurations;
    hide Recordings.EncodeRecording, Archive.Index, Recovery.Acceptable, Recovery.Recorded;
    CutIndexesWhole(u, disk, n);
    var parts := Archive.Index(u, Recordings.EncodeRecording(disk)[..n]).parts;
    forall k | 0 <= k < |parts|
      ensures WholeGop(RecorderRuns.FramesOf(f.fragments[k].samples), RingSpec.Run(cap, ops).log)
      ensures ReadsDurations(u, marshal, f.fragments) ==>
                parts[k].duration == RecorderRuns.Total(f.fragments[k].samples)
    {
      ArchivedGopsAreWhole(cap, ops, i, inputs, exitOk, f, k);
      RecorderGops.FragmentsAreStretches(inputs, exitOk, f, k);
      DurationKept(u, init, marshal, f.fragments, parts, k, n);
    }
  }

  lemma CutIndexesWhole(u: Archive.Unmarshal, disk: Recordings.Recording, n: nat)
    requires Recovery.Recorded(disk) && n <= |Recordings.EncodeRecording(disk)|
    ensures var left := Recordings.EncodeRecording(disk)[..n];
            var parts := Archive.Index(u, left).parts;
            IndexesWhole(parts, u, disk, n) && (Recovery.Acceptable(left) ==> |parts| >= 1)
  {
    hide Recordings.EncodeRecording, Recordings.PartsOf, Archive.Index, Recovery.Acceptable, Recovery.Complete;
    hide Recordings.EncodeFragments, EncodeAll;
    Recovery.AcceptedHasFragment(u, disk, n);
    Recovery.IndexOfCut(u, disk, n);
  }

  lemma DurationKept(u: Archive.Unmarshal, init: seq<Box>, marshal: Marshal, fs: seq<RecorderSpec.Fragment>,
                     parts: seq<Archive.PartInfo>, k: nat, n: nat)
    requires RecorderSpec.SoundFragments(fs) && IndexesWhole(parts, u, OnDisk(init, marshal, fs), n) && k < |parts|
    ensures ReadsDurations(u, marshal, fs) ==> parts[k].duration == RecorderRuns.Total(fs[k].samples)
  {
    var disk := OnDisk(init, marshal, fs);
    hide Recordings.PartsOf, Recordings.EncodeFragments, EncodeAll;
    Recordings.PartsOfAt(u, disk.fragments[..|parts|], |EncodeAll(init)|, k);
    assert RecorderSpec.Gop(fs[k].samples) && RecorderSpec.Timed(fs[k].samples);
    TotalPositive(fs[k].samples);
    assert disk.fragments[k] == marshal(fs[k]);
  }

  lemma DiskRecorded(init: seq<Box>, marshal: Marshal, fs: seq<RecorderSpec.Fragment>)
    requires WritesPairs(marshal, fs) && InitBoxes(init)
    ensures var disk := OnDisk(init, marshal, fs);
            Recovery.Recorded(disk) && disk.init == init && |disk.fragments| == |fs|
  {
  }
}
