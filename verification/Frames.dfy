/** Access units, the values every component of the server passes along (internal/buffer/frame.go). */
module Frames {

  type Byte = b: int | 0 <= b < 256

  datatype Option<+T> = None | Some(value: T)

  /** `timestamp` is in nanoseconds; `nalus` are raw units without start codes or length prefixes. */
  datatype Frame = Frame(timestamp: int, isKeyFrame: bool, nalus: seq<seq<Byte>>)

  /** The index of the first keyframe, or the length if there is none. */
  function FirstKey(frames: seq<Frame>): (k: nat)
    ensures k <= |frames|
    ensures k < |frames| ==> frames[k].isKeyFrame
    ensures forall i :: 0 <= i < k ==> !frames[i].isKeyFrame
  {
    if frames == [] || frames[0].isKeyFrame then 0 else 1 + FirstKey(frames[1..])
  }

  /** The frames from the first keyframe on: where every consumer that waits for a keyframe starts. */
  function FromFirstKey(frames: seq<Frame>): seq<Frame> {
    frames[FirstKey(frames)..]
  }

  lemma {:induction false} FirstKeyAppend(frames: seq<Frame>, f: Frame)
    ensures FirstKey(frames + [f]) == FirstKey(frames) + if FirstKey(frames) == |frames| && !f.isKeyFrame then 1 else 0
  {
    if frames == [] {
      assert (frames + [f])[1..] == [];
    } else if !frames[0].isKeyFrame {
      assert (frames + [f])[1..] == frames[1..] + [f];
      FirstKeyAppend(frames[1..], f);
    }
  }

  /** Appending a frame extends the selection exactly when it has started or the frame starts it. */
  lemma FromFirstKeyAppend(frames: seq<Frame>, f: Frame)
    ensures FromFirstKey(frames + [f])
         == if FromFirstKey(frames) != [] || f.isKeyFrame then FromFirstKey(frames) + [f] else []
  {
    FirstKeyAppend(frames, f);
  }

  /** `xs` can be obtained from `ys` by deleting elements: nothing duplicated, nothing reordered. */
  ghost predicate Subsequence<T>(xs: seq<T>, ys: seq<T>)
    decreases |ys|
  {
    if ys == [] then xs == []
    else
      || Subsequence(xs, ys[..|ys| - 1])
      || (xs != [] && xs[|xs| - 1] == ys[|ys| - 1] && Subsequence(xs[..|xs| - 1], ys[..|ys| - 1]))
  }

  lemma SubsequenceKeep<T>(xs: seq<T>, ys: seq<T>, y: T)
    requires Subsequence(xs, ys)
    ensures Subsequence(xs + [y], ys + [y])
  {
    assert (xs + [y])[..|xs|] == xs && (ys + [y])[..|ys|] == ys;
  }

  lemma SubsequenceSkip<T>(xs: seq<T>, ys: seq<T>, y: T)
    requires Subsequence(xs, ys)
    ensures Subsequence(xs, ys + [y])
  {
    assert (ys + [y])[..|ys|] == ys;
  }

  lemma {:induction false} SubsequenceDropTail<T>(xs: seq<T>, tail: seq<T>, ys: seq<T>)
    requires Subsequence(xs + tail, ys)
    ensures Subsequence(xs, ys)
    decreases |ys|, |tail|
  {
    if tail == [] {
      assert xs + tail == xs;
    } else {
      var all := xs + tail;
      var shorter := tail[..|tail| - 1];
      assert all[..|all| - 1] == xs + shorter;
      if ys != [] {
        var init := ys[..|ys| - 1];
        if Subsequence(all, init) {
          SubsequenceDropTail(xs, tail, init);
        } else {
          SubsequenceDropTail(xs, shorter, init);
        }
      }
    }
  }

  // ---------------------------------------------------------------------------------------------
  // Stretches

  /** `part` occurs in `whole` as one stretch. */
  ghost predicate Stretch(part: seq<Frame>, whole: seq<Frame>) {
    exists at: nat :: OccursAt(part, whole, at)
  }

  ghost predicate OccursAt(part: seq<Frame>, whole: seq<Frame>, at: nat) {
    at + |part| <= |whole| && part == whole[at..at + |part|]
  }

  lemma StretchExtends(part: seq<Frame>, whole: seq<Frame>, more: seq<Frame>)
    requires Stretch(part, whole)
    ensures Stretch(part, whole + more)
  {
    var at: nat :| OccursAt(part, whole, at);
    assert OccursAt(part, whole + more, at);
  }

  ghost predicate Suffix(part: seq<Frame>, whole: seq<Frame>) {
    |part| <= |whole| && part == whole[|whole| - |part|..]
  }

  lemma SuffixIsStretch(part: seq<Frame>, whole: seq<Frame>)
    requires Suffix(part, whole)
    ensures Stretch(part, whole)
  {
    assert OccursAt(part, whole, |whole| - |part|);
  }

  lemma EmptySuffix(whole: seq<Frame>)
    ensures Suffix([], whole)
  {
  }

  lemma SuffixGrows(part: seq<Frame>, whole: seq<Frame>, f: Frame)
    requires Suffix(part, whole)
    ensures Suffix(part + [f], whole + [f])
  {
  }

  lemma SuffixDropsLast(part: seq<Frame>, whole: seq<Frame>, f: Frame)
    requires Suffix(part + [f], whole + [f])
    ensures Suffix(part, whole)
  {
    assert forall k :: 0 <= k < |part| ==> part[k] == (part + [f])[k] == (whole + [f])[|whole| - |part| + k];
  }

  lemma SuffixLast(whole: seq<Frame>, f: Frame)
    ensures Suffix([f], whole + [f]) && Suffix([], whole + [f])
  {
  }
}
