/**
 The ring buffer and its readers as a state machine (internal/buffer/ring.go).

 The state keeps the whole write log; the class in RingBuffer.dfy keeps only the circular array and
 is proved to make exactly these steps.
 */
module RingSpec {
  import opened Frames

  /** A reader: its channel and flags, and the history the theorems speak about. */
  datatype ReaderState = ReaderState(
    queue: seq<Frame>,      // the channel's buffered frames
    drops: nat,
    needsIFrame: bool,
    active: bool,           // registered for broadcasts
    chanClosed: bool,
    since: nat,             // length of the log at subscription
    received: seq<Frame>,   // what the consumer has taken out of the channel
    sent: seq<nat>)         // the log positions put into the channel, in order

  datatype Ring = Ring(log: seq<Frame>, closed: bool, readers: seq<ReaderState>, totalDrops: nat)

  datatype Op = Write(f: Frame) | Subscribe | Receive(i: nat) | CloseReader(i: nat) | Close

  const EMPTY := Ring([], false, [], 0)

  /** The broadcast to one reader of the frame at log position `pos`. */
  function Deliver(cap: nat, r: ReaderState, pos: nat, f: Frame): ReaderState {
    if !r.active || (r.needsIFrame && !f.isKeyFrame) then r
    else if |r.queue| < cap then
      r.(queue := r.queue + [f], sent := r.sent + [pos], needsIFrame := false)
    else
      r.(drops := r.drops + 1, needsIFrame := true)
  }

  function DeliverAll(cap: nat, rs: seq<ReaderState>, pos: nat, f: Frame): (out: seq<ReaderState>) {
    seq(|rs|, i requires 0 <= i < |rs| => Deliver(cap, rs[i], pos, f))
  }

  /** Drops caused by one broadcast. */
  function NewDrops(cap: nat, rs: seq<ReaderState>, f: Frame): nat {
    if rs == [] then 0
    else
      var last := rs[|rs| - 1];
      NewDrops(cap, rs[..|rs| - 1], f) + Deliver(cap, last, 0, f).drops - last.drops
  }

  function SumDrops(rs: seq<ReaderState>): nat {
    if rs == [] then 0 else SumDrops(rs[..|rs| - 1]) + rs[|rs| - 1].drops
  }

  /** The latest keyframe among the last `cap` log entries, or -1. */
  function LatestKey(log: seq<Frame>, cap: nat): (k: int)
    ensures k == -1 || (0 <= k < |log| && |log| - cap <= k && log[k].isKeyFrame)
    ensures forall j :: 0 <= j < |log| && |log| - cap <= j && k < j ==> !log[j].isKeyFrame
  {
    if log == [] || cap == 0 then -1
    else if log[|log| - 1].isKeyFrame then |log| - 1
    else LatestKey(log[..|log| - 1], cap - 1)
  }

  function Positions(a: nat, b: nat): (s: seq<nat>)
    requires a <= b
    ensures |s| == b - a && forall i :: 0 <= i < b - a ==> s[i] == a + i
  {
    seq(b - a, i requires 0 <= i => a + i)
  }

  /** The reader that Subscribe returns. */
  function NewReader(cap: nat, s: Ring): ReaderState {
    if s.closed then ReaderState([], 0, false, false, true, |s.log|, [], [])
    else
      var k := LatestKey(s.log, cap);
      if k == -1 then ReaderState([], 0, |s.log| > 0, true, false, |s.log|, [], [])
      else ReaderState(s.log[k..], 0, false, true, false, |s.log|, [], Positions(k, |s.log|))
  }

  /** A receive takes the oldest buffered frame; on an empty channel it waits or reports EOF. */
  function Take(r: ReaderState): ReaderState {
    if r.queue == [] then r
    else r.(queue := r.queue[1..], received := r.received + [r.queue[0]])
  }

  function Shut(r: ReaderState): ReaderState {
    if r.active then r.(active := false, chanClosed := true) else r
  }

  function Step(cap: nat, s: Ring, op: Op): Ring {
    match op
    case Write(f) =>
      if s.closed then s
      else Ring(s.log + [f], false, DeliverAll(cap, s.readers, |s.log|, f),
                s.totalDrops + NewDrops(cap, s.readers, f))
    case Subscribe => s.(readers := s.readers + [NewReader(cap, s)])
    case Receive(i) =>
      if i < |s.readers| then s.(readers := s.readers[i := Take(s.readers[i])]) else s
    case CloseReader(i) =>
      if i < |s.readers| then s.(readers := s.readers[i := s.readers[i].(active := false)]) else s
    case Close =>
      if s.closed then s
      else s.(closed := true, readers := seq(|s.readers|, i requires 0 <= i < |s.readers| => Shut(s.readers[i])))
  }

  function Run(cap: nat, ops: seq<Op>): Ring {
    if ops == [] then EMPTY else Step(cap, Run(cap, ops[..|ops| - 1]), ops[|ops| - 1])
  }

  // ---------------------------------------------------------------------------------------------
  // What every reader's stream looks like

  ghost predicate InLog(log: seq<Frame>, ps: seq<nat>) {
    forall j :: 0 <= j < |ps| ==> ps[j] < |log|
  }

  ghost function At(log: seq<Frame>, ps: seq<nat>): (fs: seq<Frame>)
    requires InLog(log, ps)
    ensures |fs| == |ps| && forall j :: 0 <= j < |ps| ==> fs[j] == log[ps[j]]
  {
    seq(|ps|, j requires 0 <= j < |ps| => log[ps[j]])
  }

  /** Increasing positions that form runs without gaps, each run after the first starting at a keyframe. */
  ghost predicate KeyedRuns(log: seq<Frame>, ps: seq<nat>)
    requires InLog(log, ps)
  {
    forall j :: 0 < j < |ps| ==>
      ps[j - 1] < ps[j] && (ps[j] == ps[j - 1] + 1 || log[ps[j]].isKeyFrame)
  }

  /** How many times the stream skips ahead. */
  ghost function Gaps(ps: seq<nat>): nat {
    if |ps| < 2 then 0
    else Gaps(ps[..|ps| - 1]) + if ps[|ps| - 1] == ps[|ps| - 2] + 1 then 0 else 1
  }

  ghost predicate StartsCleanly(log: seq<Frame>, r: ReaderState)
    requires InLog(log, r.sent)
  {
    r.sent != [] ==> log[r.sent[0]].isKeyFrame || (r.since == 0 && r.sent[0] == 0)
  }

  /** A registered reader that is not waiting for a keyframe has been sent the newest frame. */
  ghost predicate UpToDate(log: seq<Frame>, r: ReaderState) {
    r.active && !r.needsIFrame ==>
      if r.sent == [] then log == [] else r.sent[|r.sent| - 1] == |log| - 1
  }

  /** The frames taken or buffered are the log's frames at the sent positions. */
  ghost predicate Stream(log: seq<Frame>, r: ReaderState) {
    && InLog(log, r.sent)
    && r.received + r.queue == At(log, r.sent)
    && KeyedRuns(log, r.sent)
    && StartsCleanly(log, r)
  }

  ghost predicate Accounted(cap: nat, log: seq<Frame>, r: ReaderState) {
    && |r.queue| <= cap
    && UpToDate(log, r)
    && Gaps(r.sent) + (if r.needsIFrame && r.sent != [] then 1 else 0) <= r.drops
    && (r.since == 0 && r.sent == [] ==> !r.needsIFrame)
    && (r.active ==> !r.chanClosed)
    && r.since <= |log| && r.drops <= |log| - r.since
    && (r.since < |log| && r.sent == [] && r.active ==> r.needsIFrame)
  }

  ghost predicate Decodable(cap: nat, log: seq<Frame>, r: ReaderState) {
    Stream(log, r) && Accounted(cap, log, r)
  }

  ghost predicate Inv(cap: nat, s: Ring) {
    && s.totalDrops == SumDrops(s.readers)
    && (forall i :: 0 <= i < |s.readers| ==> Decodable(cap, s.log, s.readers[i]))
    && (s.closed ==> forall i :: 0 <= i < |s.readers| ==> !s.readers[i].active)
  }

  lemma StreamKept(log: seq<Frame>, r: ReaderState, f: Frame)
    requires Stream(log, r)
    ensures Stream(log + [f], r)
  {
    assert At(log + [f], r.sent) == At(log, r.sent);
  }

  lemma StreamExtended(log: seq<Frame>, r: ReaderState, f: Frame, r': ReaderState)
    requires Stream(log, r)
    requires f.isKeyFrame || (if r.sent == [] then r.since == 0 && log == [] else r.sent[|r.sent| - 1] == |log| - 1)
    requires r'.queue == r.queue + [f] && r'.received == r.received
    requires r'.sent == r.sent + [|log|] && r'.since == r.since
    ensures Stream(log + [f], r')
  {
    KeyedRunsExtended(log, r.sent, f);
    hide KeyedRuns;
    AtExtended(log, r.sent, f);
    assert r'.received + r'.queue == r.received + r.queue + [f];
    assert r.sent != [] ==> r'.sent[0] == r.sent[0];
  }

  lemma AtExtended(log: seq<Frame>, ps: seq<nat>, f: Frame)
    requires InLog(log, ps)
    ensures InLog(log + [f], ps + [|log|]) && At(log + [f], ps + [|log|]) == At(log, ps) + [f]
  {
    var all, ps' := log + [f], ps + [|log|];
    assert InLog(all, ps');
    assert forall j :: 0 <= j < |ps'| ==> At(all, ps')[j] == (At(log, ps) + [f])[j];
  }

  lemma KeyedRunsExtended(log: seq<Frame>, ps: seq<nat>, f: Frame)
    requires InLog(log, ps) && KeyedRuns(log, ps)
    requires f.isKeyFrame || ps == [] || ps[|ps| - 1] == |log| - 1
    ensures InLog(log + [f], ps + [|log|]) && KeyedRuns(log + [f], ps + [|log|])
  {
    var all, ps' := log + [f], ps + [|log|];
    assert InLog(all, ps');
    forall j | 0 < j < |ps'| ensures ps'[j - 1] < ps'[j] && (ps'[j] == ps'[j - 1] + 1 || all[ps'[j]].isKeyFrame) {
      assert ps'[j - 1] == ps[j - 1];
    }
  }

  lemma GapsAppend(ps: seq<nat>, p: nat)
    ensures Gaps(ps + [p]) == Gaps(ps) + if ps == [] || p == ps[|ps| - 1] + 1 then 0 else 1
  {
    assert (ps + [p])[..|ps|] == ps;
  }

  lemma AccountedAfterWrite(cap: nat, log: seq<Frame>, r: ReaderState, f: Frame)
    requires cap > 0 && Accounted(cap, log, r) && |r.queue| <= |r.sent|
    ensures Accounted(cap, log + [f], Deliver(cap, r, |log|, f))
  {
    GapsAppend(r.sent, |log|);
  }

  lemma DecodableAfterWrite(cap: nat, log: seq<Frame>, r: ReaderState, f: Frame)
    requires cap > 0 && Decodable(cap, log, r)
    ensures Decodable(cap, log + [f], Deliver(cap, r, |log|, f))
  {
    hide Stream, Accounted;
    var r' := Deliver(cap, r, |log|, f);
    QueueSent(log, r);
    AccountedAfterWrite(cap, log, r, f);
    if r'.sent == r.sent {
      StreamKept(log, r, f);
      StreamIgnores(log + [f], r, r');
    } else {
      NextFits(cap, log, r, f);
      StreamExtended(log, r, f, r');
    }
  }

  lemma QueueSent(log: seq<Frame>, r: ReaderState)
    requires Stream(log, r)
    ensures |r.queue| <= |r.sent|
  {
    hide KeyedRuns;
    assert |r.received + r.queue| == |r.sent|;
  }

  /** A frame that reaches the channel continues the stream or is a keyframe. */
  lemma NextFits(cap: nat, log: seq<Frame>, r: ReaderState, f: Frame)
    requires Accounted(cap, log, r) && Deliver(cap, r, |log|, f).sent != r.sent
    ensures f.isKeyFrame || (if r.sent == [] then r.since == 0 && log == [] else r.sent[|r.sent| - 1] == |log| - 1)
  {
    hide Gaps;
  }

  lemma StreamIgnores(log: seq<Frame>, r: ReaderState, r': ReaderState)
    requires Stream(log, r)
    requires r'.queue == r.queue && r'.received == r.received && r'.sent == r.sent && r'.since == r.since
    ensures Stream(log, r')
  {
    hide KeyedRuns, At;
  }

  lemma PreloadIsStream(log: seq<Frame>, k: nat, r: ReaderState)
    requires k < |log| && log[k].isKeyFrame
    requires r.queue == log[k..] && r.received == [] && r.sent == Positions(k, |log|)
    ensures Stream(log, r)
  {
    PreloadPositions(log, k);
    hide At, KeyedRuns, InLog, Positions;
    assert r.received + r.queue == r.queue;
  }

  lemma PreloadPositions(log: seq<Frame>, k: nat)
    requires k < |log|
    ensures var ps := Positions(k, |log|);
            InLog(log, ps) && At(log, ps) == log[k..] && KeyedRuns(log, ps) && ps[0] == k
  {
    var ps := Positions(k, |log|);
    hide Positions;
    assert InLog(log, ps);
    forall j | 0 <= j < |ps| ensures At(log, ps)[j] == log[k..][j] {
      assert ps[j] == k + j;
    }
    forall j | 0 < j < |ps| ensures ps[j] == ps[j - 1] + 1 {
      assert ps[j] == k + j && ps[j - 1] == k + (j - 1);
    }
  }

  lemma DecodableNew(cap: nat, s: Ring)
    ensures Decodable(cap, s.log, NewReader(cap, s))
  {
    var k := LatestKey(s.log, cap);
    if !s.closed && k != -1 {
      PreloadIsStream(s.log, k, NewReader(cap, s));
      GapsOfPositions(k, |s.log|);
    }
  }

  /**
   A late subscriber's preload, in terms of the log alone: the newest stretch that starts at a keyframe and holds no
   other, if it fits into the ring; otherwise nothing, and the reader waits for a keyframe unless nothing was
   written yet.
   */
  lemma PreloadIsNewestGop(cap: nat, s: Ring)
    requires !s.closed
    ensures var q := NewReader(cap, s).queue;
            var n := |s.log|;
            && |q| <= cap && |q| <= n && q == s.log[n - |q|..]
            && (q != [] ==> q[0].isKeyFrame && forall i :: 0 < i < |q| ==> !q[i].isKeyFrame)
            && (q == [] ==> forall i :: 0 <= i < n && n - cap <= i ==> !s.log[i].isKeyFrame)
            && (NewReader(cap, s).needsIFrame <==> q == [] && n > 0)
  {
    var k := LatestKey(s.log, cap);
    if k != -1 {
      assert forall i :: 0 <= i < |s.log| - k ==> s.log[k..][i] == s.log[k + i];
    }
  }

  lemma {:induction false} GapsOfPositions(a: nat, b: nat)
    requires a <= b
    ensures Gaps(Positions(a, b)) == 0
  {
    if a < b {
      GapsOfPositions(a, b - 1);
      assert Positions(a, b)[..b - 1 - a] == Positions(a, b - 1);
    }
  }

  lemma DecodableTake(cap: nat, log: seq<Frame>, r: ReaderState)
    requires Decodable(cap, log, r)
    ensures Decodable(cap, log, Take(r))
  {
    hide Gaps, KeyedRuns, At;
    if r.queue != [] {
      assert r.queue == [r.queue[0]] + r.queue[1..];
      assert Take(r).received + Take(r).queue == r.received + r.queue;
    }
  }

  lemma {:induction false} DropsAdd(cap: nat, rs: seq<ReaderState>, pos: nat, f: Frame)
    ensures SumDrops(DeliverAll(cap, rs, pos, f)) == SumDrops(rs) + NewDrops(cap, rs, f)
  {
    if rs == [] {
    } else {
      var init := rs[..|rs| - 1];
      DropsAdd(cap, init, pos, f);
      assert DeliverAll(cap, rs, pos, f)[..|rs| - 1] == DeliverAll(cap, init, pos, f);
    }
  }

  /** Replacing one reader's state changes the total by the difference of the two counters. */
  lemma {:induction false} DropsUpdate(rs: seq<ReaderState>, i: nat, r: ReaderState)
    requires i < |rs|
    ensures SumDrops(rs[i := r]) == SumDrops(rs) - rs[i].drops + r.drops
  {
    var n := |rs| - 1;
    if i < n {
      DropsUpdate(rs[..n], i, r);
      assert rs[i := r][..n] == rs[..n][i := r];
    } else {
      assert rs[i := r][..n] == rs[..n];
    }
  }

  lemma {:induction false} DropsEqual(rs: seq<ReaderState>, rs': seq<ReaderState>)
    requires |rs| == |rs'| && forall i :: 0 <= i < |rs| ==> rs[i].drops == rs'[i].drops
    ensures SumDrops(rs) == SumDrops(rs')
  {
    if rs == [] {
    } else {
      DropsEqual(rs[..|rs| - 1], rs'[..|rs| - 1]);
    }
  }

  lemma WriteKeepsInv(cap: nat, s: Ring, f: Frame)
    requires cap > 0 && Inv(cap, s)
    ensures Inv(cap, Step(cap, s, Write(f)))
  {
    if !s.closed {
      DropsAdd(cap, s.readers, |s.log|, f);
      forall i | 0 <= i < |s.readers|
        ensures Decodable(cap, s.log + [f], Deliver(cap, s.readers[i], |s.log|, f))
      {
        DecodableAfterWrite(cap, s.log, s.readers[i], f);
      }
    }
  }

  lemma SubscribeKeepsInv(cap: nat, s: Ring)
    requires Inv(cap, s)
    ensures Inv(cap, Step(cap, s, Subscribe))
  {
    hide NewReader, Decodable, SumDrops;
    DecodableNew(cap, s);
    NewReaderCounts(cap, s);
    DropsAppend(s.readers, NewReader(cap, s));
  }

  lemma NewReaderCounts(cap: nat, s: Ring)
    ensures NewReader(cap, s).drops == 0 && (s.closed ==> !NewReader(cap, s).active)
  {
    hide LatestKey;
  }

  lemma DropsAppend(rs: seq<ReaderState>, r: ReaderState)
    ensures SumDrops(rs + [r]) == SumDrops(rs) + r.drops
  {
    assert (rs + [r])[..|rs|] == rs;
  }

  lemma ReplaceKeepsInv(cap: nat, s: Ring, i: nat, r: ReaderState)
    requires Inv(cap, s) && i < |s.readers|
    requires Decodable(cap, s.log, r) && r.drops == s.readers[i].drops && (r.active ==> s.readers[i].active)
    ensures Inv(cap, s.(readers := s.readers[i := r]))
  {
    DropsUpdate(s.readers, i, r);
  }

  lemma CloseKeepsInv(cap: nat, s: Ring)
    requires Inv(cap, s)
    ensures Inv(cap, Step(cap, s, Close))
  {
    if !s.closed {
      var rs := Step(cap, s, Close).readers;
      DropsEqual(s.readers, rs);
      forall i | 0 <= i < |rs| ensures Decodable(cap, s.log, rs[i]) {
        assert Decodable(cap, s.log, s.readers[i]);
      }
    }
  }

  lemma StepKeepsInv(cap: nat, s: Ring, op: Op)
    requires cap > 0 && Inv(cap, s)
    ensures Inv(cap, Step(cap, s, op))
  {
    match op
    case Write(f) => WriteKeepsInv(cap, s, f);
    case Subscribe => SubscribeKeepsInv(cap, s);
    case Receive(i) =>
      if i < |s.readers| {
        DecodableTake(cap, s.log, s.readers[i]);
        ReplaceKeepsInv(cap, s, i, Take(s.readers[i]));
      }
    case CloseReader(i) =>
      if i < |s.readers| {
        ReplaceKeepsInv(cap, s, i, s.readers[i].(active := false));
      }
    case Close => CloseKeepsInv(cap, s);
  }

  /**
   Over every run of writes, subscriptions, receives and closes: the frames a reader has taken, followed by
   those still in its channel, are gap-free runs of the write log in order; each run starts at a keyframe,
   except that a reader subscribed before any write may start at position 0; the stream skips ahead at most
   once per counted drop; and the global drop counter is the sum over all readers ever created.
   */
  lemma {:induction false} EveryRunDecodable(cap: nat, ops: seq<Op>)
    requires cap > 0
    ensures Inv(cap, Run(cap, ops))
  {
    if ops == [] {
    } else {
      EveryRunDecodable(cap, ops[..|ops| - 1]);
      StepKeepsInv(cap, Run(cap, ops[..|ops| - 1]), ops[|ops| - 1]);
    }
  }

  // ---------------------------------------------------------------------------------------------
  // Isolation: one reader on its own

  /** What a single reader can observe of a run. */
  datatype Event = Wrote(f: Frame) | Joined | Took | Left | Ended

  /** A ring serving one reader only. */
  datatype Solo = Solo(log: seq<Frame>, closed: bool, me: Option<ReaderState>)

  function MapMe(s: Solo, f: ReaderState -> ReaderState): Solo {
    if s.me.Some? then s.(me := Some(f(s.me.value))) else s
  }

  function SoloStep(cap: nat, s: Solo, e: Event): Solo {
    match e
    case Wrote(f) =>
      if s.closed then s
      else MapMe(s, (r: ReaderState) => Deliver(cap, r, |s.log|, f)).(log := s.log + [f])
    case Joined => s.(me := Some(NewReader(cap, Ring(s.log, s.closed, [], 0))))
    case Took => MapMe(s, Take)
    case Left => MapMe(s, (r: ReaderState) => r.(active := false))
    case Ended => if s.closed then s else MapMe(s, Shut).(closed := true)
  }

  function SoloRun(cap: nat, es: seq<Event>): Solo {
    if es == [] then Solo([], false, None) else SoloStep(cap, SoloRun(cap, es[..|es| - 1]), es[|es| - 1])
  }

  function Joins(ops: seq<Op>): nat {
    if ops == [] then 0 else Joins(ops[..|ops| - 1]) + if ops[|ops| - 1].Subscribe? then 1 else 0
  }

  /** The part of a run that concerns reader `i`: the writes, its own calls and the final close. */
  function Seen(ops: seq<Op>, i: nat): seq<Event> {
    if ops == [] then []
    else
      var init := ops[..|ops| - 1];
      Seen(init, i) +
      match ops[|ops| - 1] {
        case Write(f) => [Wrote(f)]
        case Subscribe => if Joins(init) == i then [Joined] else []
        case Receive(j) => if i == j then [Took] else []
        case CloseReader(j) => if i == j then [Left] else []
        case Close => [Ended]
      }
  }

  function Project(s: Ring, i: nat): Solo {
    Solo(s.log, s.closed, if i < |s.readers| then Some(s.readers[i]) else None)
  }

  lemma {:induction false} ReadersAreJoins(cap: nat, ops: seq<Op>)
    ensures |Run(cap, ops).readers| == Joins(ops)
  {
    if ops == [] {
    } else {
      ReadersAreJoins(cap, ops[..|ops| - 1]);
    }
  }

  lemma SoloAppend(cap: nat, es: seq<Event>, e: Event)
    ensures SoloRun(cap, es + [e]) == SoloStep(cap, SoloRun(cap, es), e)
  {
    assert (es + [e])[..|es|] == es;
  }

  /** One global step is, for reader `i`, the step of a ring that serves nobody else. */
  lemma StepProjects(cap: nat, s: Ring, op: Op, i: nat)
    ensures Project(Step(cap, s, op), i)
         == match op
            case Write(f) => SoloStep(cap, Project(s, i), Wrote(f))
            case Subscribe => if |s.readers| == i then SoloStep(cap, Project(s, i), Joined) else Project(s, i)
            case Receive(j) => if i == j then SoloStep(cap, Project(s, i), Took) else Project(s, i)
            case CloseReader(j) => if i == j then SoloStep(cap, Project(s, i), Left) else Project(s, i)
            case Close => SoloStep(cap, Project(s, i), Ended)
  {
    assert NewReader(cap, s) == NewReader(cap, Ring(s.log, s.closed, [], 0));
  }

  /**
   Readers are isolated: in every run, a reader's whole state (channel, drops, frames received) is the one
   it would have on a ring that sees the same writes and serves no other reader.
   */
  lemma {:induction false} Isolated(cap: nat, ops: seq<Op>, i: nat)
    ensures Project(Run(cap, ops), i) == SoloRun(cap, Seen(ops, i))
  {
    if ops == [] {
    } else {
      var init, op := ops[..|ops| - 1], ops[|ops| - 1];
      var es := Seen(init, i);
      Isolated(cap, init, i);
      ReadersAreJoins(cap, init);
      StepProjects(cap, Run(cap, init), op, i);
      var news := Seen(ops, i)[|es|..];
      if news == [] {
        assert Seen(ops, i) == es;
      } else {
        assert Seen(ops, i) == es + [news[0]];
        SoloAppend(cap, es, news[0]);
      }
    }
  }

  // ---------------------------------------------------------------------------------------------
  // A reader that keeps up loses nothing

  /** Whenever a frame is written, reader `i` has room for it. */
  ghost predicate KeepsUp(cap: nat, ops: seq<Op>, i: nat) {
    forall n :: 0 <= n < |ops| && ops[n].Write? ==>
      var rs := Run(cap, ops[..n]).readers;
      i < |rs| ==> |rs[i].queue| < cap
  }

  lemma {:induction false} KeepingUpDropsNothing(cap: nat, ops: seq<Op>, i: nat)
    requires KeepsUp(cap, ops, i) && i < |Run(cap, ops).readers|
    ensures Run(cap, ops).readers[i].drops == 0
  {
    var n := |ops| - 1;
    var init := ops[..n];
    var s := Run(cap, init);
    KeepsUpPrefix(cap, ops, i);
    assert Run(cap, ops) == Step(cap, s, ops[n]);
    hide KeepsUp, Run;
    if i < |s.readers| {
      KeepingUpDropsNothing(cap, init, i);
    }
    StepDrops(cap, s, ops[n], i);
  }

  lemma KeepsUpPrefix(cap: nat, ops: seq<Op>, i: nat)
    requires ops != [] && KeepsUp(cap, ops, i)
    ensures KeepsUp(cap, ops[..|ops| - 1], i)
    ensures var s := Run(cap, ops[..|ops| - 1]);
            ops[|ops| - 1].Write? && i < |s.readers| ==> |s.readers[i].queue| < cap
  {
    hide Run;
    var init := ops[..|ops| - 1];
    forall m | 0 <= m < |init| && init[m].Write?
      ensures var rs := Run(cap, init[..m]).readers; i < |rs| ==> |rs[i].queue| < cap
    {
      assert init[..m] == ops[..m] && init[m] == ops[m];
    }
  }

  lemma StepDrops(cap: nat, s: Ring, op: Op, i: nat)
    requires i < |Step(cap, s, op).readers|
    requires i < |s.readers| ==> s.readers[i].drops == 0 && (op.Write? ==> |s.readers[i].queue| < cap)
    ensures Step(cap, s, op).readers[i].drops == 0
  {
    NewReaderCounts(cap, s);
    hide NewReader, NewDrops;
  }

  lemma {:induction false} NoGapsIsContiguous(log: seq<Frame>, ps: seq<nat>)
    requires InLog(log, ps) && KeyedRuns(log, ps) && Gaps(ps) == 0 && ps != []
    ensures ps == Positions(ps[0], ps[0] + |ps|)
  {
    if |ps| > 1 {
      NoGapsIsContiguous(log, ps[..|ps| - 1]);
    }
  }

  /**
   Where a reader's stream starts: at the keyframe of its preload if there is one; at position 0 if it subscribed
   before any write; otherwise at the first keyframe written after it subscribed.
   */
  ghost predicate StartsAt(cap: nat, log: seq<Frame>, since: nat, first: nat)
    requires since <= |log|
  {
    var k := LatestKey(log[..since], cap);
    if k != -1 then first == k
    else if since == 0 then first == 0
    else
      && since <= first < |log| && log[first].isKeyFrame
      && forall j :: since <= j < first ==> !log[j].isKeyFrame
  }

  /** Nothing to start from so far. */
  ghost predicate NotStarted(cap: nat, log: seq<Frame>, since: nat)
    requires since <= |log|
  {
    && LatestKey(log[..since], cap) == -1
    && (since == 0 ==> log == [])
    && forall j :: since <= j < |log| ==> !log[j].isKeyFrame
  }

  ghost predicate Started(cap: nat, log: seq<Frame>, r: ReaderState) {
    && r.since <= |log|
    && (r.sent != [] ==> StartsAt(cap, log, r.since, r.sent[0]))
    && (r.sent == [] && r.active ==> NotStarted(cap, log, r.since))
  }

  lemma StartedAfterWrite(cap: nat, log: seq<Frame>, r: ReaderState, f: Frame)
    requires cap > 0 && Started(cap, log, r) && Decodable(cap, log, r)
    ensures Started(cap, log + [f], Deliver(cap, r, |log|, f))
  {
    hide Stream, Accounted, StartsAt, NotStarted;
    QueueSent(log, r);
    WaitsForKey(cap, log, r);
    if r.sent != [] {
      StartKept(cap, log, r.since, r.sent[0], f);
      assert Deliver(cap, r, |log|, f).sent[0] == r.sent[0];
    } else if r.active {
      StartFound(cap, log, r.since, f);
    }
  }

  lemma StartKept(cap: nat, log: seq<Frame>, since: nat, first: nat, f: Frame)
    requires since <= |log| && StartsAt(cap, log, since, first)
    ensures StartsAt(cap, log + [f], since, first)
  {
    hide LatestKey;
    assert (log + [f])[..since] == log[..since];
  }

  /** A write starts the stream of a reader without one, or leaves it waiting. */
  lemma StartFound(cap: nat, log: seq<Frame>, since: nat, f: Frame)
    requires since <= |log| && NotStarted(cap, log, since)
    ensures if f.isKeyFrame || since == 0 then StartsAt(cap, log + [f], since, |log|)
            else NotStarted(cap, log + [f], since)
  {
    hide LatestKey;
    assert (log + [f])[..since] == log[..since];
  }

  lemma WaitsForKey(cap: nat, log: seq<Frame>, r: ReaderState)
    requires Decodable(cap, log, r)
    ensures r.sent == [] && r.active ==> (r.needsIFrame <==> r.since > 0)
  {
    hide Stream, Gaps;
  }

  lemma StartedNew(cap: nat, s: Ring)
    ensures Started(cap, s.log, NewReader(cap, s))
  {
    assert s.log[..|s.log|] == s.log;
  }

  lemma StepStarts(cap: nat, s: Ring, op: Op)
    requires cap > 0 && Inv(cap, s) && forall i :: 0 <= i < |s.readers| ==> Started(cap, s.log, s.readers[i])
    ensures var t := Step(cap, s, op); forall i :: 0 <= i < |t.readers| ==> Started(cap, t.log, t.readers[i])
  {
    var t := Step(cap, s, op);
    hide Decodable, SumDrops, NewDrops;
    forall i | 0 <= i < |t.readers| ensures Started(cap, t.log, t.readers[i]) {
      if op.Write? && !s.closed {
        hide Deliver, Started;
        StartedAfterWrite(cap, s.log, s.readers[i], op.f);
      } else if op.Subscribe? {
        hide NewReader, Started;
        StartedNew(cap, s);
      } else {
        hide StartsAt, NotStarted;
        assert Started(cap, s.log, s.readers[i]);
      }
    }
  }

  /**
   In every run, every reader's stream starts where StartsAt says, and a registered one without a stream has missed
   nothing.
   */
  lemma {:induction false} EveryRunStarts(cap: nat, ops: seq<Op>, i: nat)
    requires cap > 0 && i < |Run(cap, ops).readers|
    ensures Started(cap, Run(cap, ops).log, Run(cap, ops).readers[i])
  {
    if ops == [] {
    } else {
      var init := ops[..|ops| - 1];
      var s := Run(cap, init);
      EveryRunDecodable(cap, init);
      forall j | 0 <= j < |s.readers| ensures Started(cap, s.log, s.readers[j]) {
        EveryRunStarts(cap, init, j);
      }
      hide Step, Inv, Started;
      StepStarts(cap, s, ops[|ops| - 1]);
    }
  }

  /**
   No loss without lag: a reader whose channel has room at every write is never dropped, and while it is registered its
   stream is the whole log from where it starts on; it has none only as long as there is nothing to start from.
   */
  lemma NoLagNoLoss(cap: nat, ops: seq<Op>, i: nat)
    requires cap > 0 && KeepsUp(cap, ops, i) && i < |Run(cap, ops).readers|
    ensures var s := Run(cap, ops); var r := s.readers[i];
            && r.drops == 0 && r.since <= |s.log|
            && (r.active ==>
                  if r.sent == [] then NotStarted(cap, s.log, r.since) && r.received + r.queue == []
                  else
                    var first := r.sent[0];
                    && first < |s.log| && StartsAt(cap, s.log, r.since, first)
                    && r.received + r.queue == s.log[first..])
  {
    var s := Run(cap, ops);
    var r := s.readers[i];
    KeepingUpDropsNothing(cap, ops, i);
    EveryRunDecodable(cap, ops);
    EveryRunStarts(cap, ops, i);
    assert Decodable(cap, s.log, r);
    hide Run, StartsAt, NotStarted, SumDrops, KeepsUp;
    if r.active && r.sent != [] {
      NoGapsIsContiguous(s.log, r.sent);
      assert At(s.log, r.sent) == s.log[r.sent[0]..];
    }
  }

  /** `frames` are the log's frames at `ps`, in gap-free runs that all start at keyframes. */
  ghost predicate CleanRuns(log: seq<Frame>, frames: seq<Frame>, ps: seq<nat>) {
    && InLog(log, ps)
    && frames == At(log, ps)
    && KeyedRuns(log, ps)
    && (ps != [] ==> log[ps[0]].isKeyFrame)
  }

  lemma StreamSlice(log: seq<Frame>, r: ReaderState, from: nat, to: nat)
    requires Stream(log, r) && from <= to <= |r.received|
    requires from < to ==> r.received[from].isKeyFrame
    ensures |r.received| <= |r.sent| && CleanRuns(log, r.received[from..to], r.sent[from..to])
  {
    var all := At(log, r.sent);
    assert all == r.received + r.queue;
    assert r.received == all[..|r.received|];
    assert r.received[from..to] == At(log, r.sent[from..to]);
  }

  /**
   Consumers that discard frames until their first keyframe (the WebCodecs socket, the recorder, the HLS
   muxer) see runs that all start at keyframes, with no exception for early subscribers.
   */
  lemma GatedConsumer(cap: nat, ops: seq<Op>, i: nat)
    requires cap > 0 && i < |Run(cap, ops).readers|
    ensures var s := Run(cap, ops); var r := s.readers[i];
            |r.received| <= |r.sent|
            && CleanRuns(s.log, FromFirstKey(r.received), r.sent[FirstKey(r.received)..|r.received|])
  {
    EveryRunDecodable(cap, ops);
    var s := Run(cap, ops);
    var r := s.readers[i];
    assert Decodable(cap, s.log, r);
    StreamSlice(s.log, r, FirstKey(r.received), |r.received|);
    assert r.received[FirstKey(r.received)..|r.received|] == FromFirstKey(r.received);
  }
}
