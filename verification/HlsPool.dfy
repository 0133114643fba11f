/** Pooled buffers and the holders of segments, over every run of the muxer (internal/hls/muxer.go). */
module HlsPool {
  import opened Frames
  import opened HlsSpec
  import opened HlsOwnership
  import opened HlsWindow

  /** Buffer `b` is in the pool, being filled, or the data of a segment whose last holder has not returned it yet. */
  ghost predicate Kept(m: Muxer, b: nat) {
    || b in m.pool
    || (m.current.Some? && m.current.value.buf == b)
    || exists id :: 0 <= id < |m.store| && m.store[id].buf == Some(b)
  }

  ghost predicate AllKept(m: Muxer) {
    forall b :: 0 <= b < |m.contents| ==> Kept(m, b)
  }

  lemma KeptBySegment(m: Muxer, r: Muxer, b: nat)
    requires Kept(m, b) && m.pool <= r.pool && (m.current == r.current)
    requires |m.store| <= |r.store| && forall id :: 0 <= id < |m.store| ==> r.store[id].buf == m.store[id].buf
    ensures Kept(r, b)
  {
    if b !in m.pool && !(m.current.Some? && m.current.value.buf == b) {
      var id :| 0 <= id < |m.store| && m.store[id].buf == Some(b);
      assert r.store[id].buf == Some(b);
    }
  }

  /** A change of counts, labels or window only. */
  lemma SameBuffers(m: Muxer, r: Muxer)
    requires AllKept(m) && |r.contents| == |m.contents| && m.pool <= r.pool && m.current == r.current
    requires |m.store| <= |r.store| && forall id :: 0 <= id < |m.store| ==> r.store[id].buf == m.store[id].buf
    ensures AllKept(r)
  {
    hide Kept;
    forall b | 0 <= b < |r.contents| ensures Kept(r, b) {
      KeptBySegment(m, r, b);
    }
  }

  /** The last release of a segment puts its buffer into the pool. */
  lemma RecycleKept(m: Muxer, id: nat)
    requires AllKept(m)
    ensures AllKept(RecycleIfDue(m, id))
  {
    var r := RecycleIfDue(m, id);
    forall b | 0 <= b < |r.contents| ensures Kept(r, b) {
      assert Kept(m, b);
      if b !in m.pool && !(m.current.Some? && m.current.value.buf == b) {
        var k :| 0 <= k < |m.store| && m.store[k].buf == Some(b);
        assert r.store[k].buf == Some(b) || b in r.pool;
      }
    }
  }

  lemma EvictKept(m: Muxer)
    requires AllKept(m) && InStore(m) && m.segments != []
    ensures AllKept(EvictAndRecycle(m))
  {
    SameBuffers(m, Evict(m));
    RecycleKept(Evict(m), m.segments[0]);
    hide AllKept;
  }

  lemma FinishKept(maxSegments: nat, m: Muxer)
    requires AllKept(m) && InStore(m)
    ensures AllKept(Finish(maxSegments, m))
  {
    hide Render, IndexOf, EvictAndRecycle;
    var t := Trim(m, maxSegments);
    if |m.segments| > maxSegments {
      EvictKept(m);
    }
    SameBuffers(t, Rebuild(t));
  }

  lemma CutKept(m: Muxer, f: Frame)
    requires AllKept(m) && InStore(m) && m.current.Some?
    ensures AllKept(Cut(m, f))
  {
    hide Name;
    var r := Cut(m, f);
    forall b | 0 <= b < |r.contents| ensures Kept(r, b) {
      assert Kept(m, b);
      if m.current.value.buf == b {
        assert r.store[|m.store|].buf == Some(b);
      } else if b !in m.pool {
        var k :| 0 <= k < |m.store| && m.store[k].buf == Some(b);
        assert r.store[k].buf == Some(b);
      }
    }
  }

  lemma TakeKept(m: Muxer, f: Frame, reuse: Option<nat>)
    requires AllKept(m) && m.current.None?
    ensures AllKept(TakeBuffer(m, f, reuse))
  {
    var r := TakeBuffer(m, f, reuse);
    forall b | 0 <= b < |r.contents| ensures Kept(r, b) {
      if b < |m.contents| && b != r.current.value.buf {
        assert Kept(m, b);
        if b !in m.pool {
          var k :| 0 <= k < |m.store| && m.store[k].buf == Some(b);
          assert r.store[k].buf == Some(b);
        }
      }
    }
  }

  lemma HandleKept(maxSegments: nat, m: Muxer, f: Frame, changed: bool, reuse: Option<nat>)
    requires AllKept(m) && InStore(m)
    ensures AllKept(HandleFrame(maxSegments, m, f, changed, reuse))
  {
    hide Finish, Cut, AllKept, TakeBuffer;
    var m0 := m.(received := m.received + [f],
                 needsDiscontinuity := m.needsDiscontinuity || (f.isKeyFrame && changed));
    SameBuffers(m, m0);
    var m1 := if Due(m0, f) then CloseCurrent(maxSegments, m0, f) else m0;
    if Due(m0, f) {
      CutKept(m0, f);
      FinishKept(maxSegments, Cut(m0, f));
    }
    var m2 := if m1.current.None? && f.isKeyFrame then TakeBuffer(m1, f, reuse) else m1;
    if m1.current.None? && f.isKeyFrame {
      TakeKept(m1, f, reuse);
    }
    SameBuffers(m2, MuxFrame(m2, f));
  }

  lemma RepeatKept(maxSegments: nat, m: Muxer)
    requires AllKept(m) && InStore(m)
    ensures AllKept(RepeatLast(maxSegments, m))
  {
    hide Finish, AllKept, Name;
    if m.segments != [] {
      var last := m.segments[|m.segments| - 1];
      var data := Data(m, last);
      var p := Publish(m, m.store[last].duration, true, None, data, data);
      SameBuffers(m, p);
      FinishKept(maxSegments, p);
      SameBuffers(Finish(maxSegments, p), RepeatLast(maxSegments, m));
    }
  }

  lemma CountingKept(m: Muxer, id: nat)
    requires AllKept(m) && InStore(m) && id < |m.store|
    ensures AllKept(Retain(m, id)) && (m.held[id] > 0 ==> AllKept(ReleaseHeld(m, id)))
  {
    SameBuffers(m, Retain(m, id));
    if m.held[id] > 0 {
      SameBuffers(m, ReleaseHeld(m, id));
    }
    hide AllKept;
  }

  lemma StepKept(maxSegments: nat, m: Muxer, op: Op)
    requires AllKept(m) && InStore(m) && !op.Stop? && !op.PoolForgets?
    ensures AllKept(Step(maxSegments, m, op))
  {
    hide HandleFrame, RepeatLast, Find, LookupName, Retain, ReleaseHeld, RecycleIfDue, AllKept;
    match op
    case OnFrame(f, changed, reuse) => HandleKept(maxSegments, m, f, changed, reuse);
    case Watchdog(stale) => RepeatKept(maxSegments, m);
    case Acquire(name) =>
      var id := Find(m, LookupName(name));
      if id.Some? && id.value < |m.store| {
        CountingKept(m, id.value);
      }
    case Drop(id) =>
      if id < |m.store| && m.held[id] > 0 {
        CountingKept(m, id);
      }
    case Recycle(id) => RecycleKept(m, id);
  }

  /**
   Nothing leaks, in every run until Stop in which sync.Pool itself drops nothing: every buffer ever made is in the
   pool, being filled, or the data of a segment that the window or a holder still references or whose last release
   is under way.
   */
  lemma {:induction false} NoBufferLost(maxSegments: nat, ops: seq<Op>, b: nat)
    requires maxSegments > 0 && forall k :: 0 <= k < |ops| ==> !ops[k].Stop? && !ops[k].PoolForgets?
    ensures var m := Run(maxSegments, ops);
            || b >= |m.contents|
            || b in m.pool
            || (m.current.Some? && m.current.value.buf == b)
            || exists id :: 0 <= id < |m.store| && m.store[id].buf == Some(b)
                            && (m.store[id].refCount > 0 || id in m.recycling)
  {
    EveryRunKept(maxSegments, ops);
    EveryRun(maxSegments, ops);
    hide Run, Windowed, Owned, Kept;
    if b < |Run(maxSegments, ops).contents| {
      KeptReferenced(Run(maxSegments, ops), b);
    }
  }

  lemma KeptReferenced(m: Muxer, b: nat)
    requires Owned(m) && Kept(m, b)
    ensures || b in m.pool
            || (m.current.Some? && m.current.value.buf == b)
            || exists id :: 0 <= id < |m.store| && m.store[id].buf == Some(b)
                            && (m.store[id].refCount > 0 || id in m.recycling)
  {
    hide OneOwner;
    if b !in m.pool && !(m.current.Some? && m.current.value.buf == b) {
      var id :| 0 <= id < |m.store| && m.store[id].buf == Some(b);
      assert SegmentSound(m, id);
      assert m.store[id].refCount >= 0;
    }
  }

  lemma {:induction false} EveryRunKept(maxSegments: nat, ops: seq<Op>)
    requires forall k :: 0 <= k < |ops| ==> !ops[k].Stop? && !ops[k].PoolForgets?
    ensures AllKept(Run(maxSegments, ops))
  {
    if ops == [] {
    } else {
      EveryRunKept(maxSegments, ops[..|ops| - 1]);
      hide AllKept, Step;
      StepKept(maxSegments, Run(maxSegments, ops[..|ops| - 1]), ops[|ops| - 1]);
    }
  }

  // ---------------------------------------------------------------------------------------------
  // What the last release does

  /** Buffers in the pool are empty. */
  ghost predicate PoolClean(m: Muxer) {
    forall b :: b in m.pool && b < |m.contents| ==> m.contents[b] == []
  }

  /** Only the decrement of a holder's release leaves a buffer to be returned later. */
  ghost predicate Returned(m: Muxer, r: Muxer) {
    r.recycling <= m.recycling
  }

  lemma RecycleClean(m: Muxer, id: nat)
    requires PoolClean(m)
    ensures PoolClean(RecycleIfDue(m, id)) && Returned(m, RecycleIfDue(m, id))
    ensures id < |m.store| ==> id !in RecycleIfDue(m, id).recycling
  {
  }

  lemma EvictClean(m: Muxer)
    requires PoolClean(m) && InStore(m) && m.segments != []
    ensures PoolClean(EvictAndRecycle(m)) && Returned(m, EvictAndRecycle(m))
  {
    RecycleClean(Evict(m), m.segments[0]);
    hide RecycleIfDue, PoolClean;
  }

  lemma FinishClean(maxSegments: nat, m: Muxer)
    requires PoolClean(m) && InStore(m)
    ensures PoolClean(Finish(maxSegments, m)) && Returned(m, Finish(maxSegments, m))
  {
    hide Render, IndexOf, EvictAndRecycle;
    if |m.segments| > maxSegments {
      EvictClean(m);
    }
  }

  lemma HandleClean(maxSegments: nat, m: Muxer, f: Frame, changed: bool, reuse: Option<nat>)
    requires PoolClean(m) && Owned(m)
    ensures var r := HandleFrame(maxSegments, m, f, changed, reuse); PoolClean(r) && Returned(m, r)
  {
    var m0 := m.(received := m.received + [f],
                 needsDiscontinuity := m.needsDiscontinuity || (f.isKeyFrame && changed));
    var m1 := if Due(m0, f) then CloseCurrent(maxSegments, m0, f) else m0;
    OwnedIgnores(m, m0);
    if Due(m0, f) {
      CutClean(m0, f);
      FinishClean(maxSegments, Cut(m0, f));
      CutOwned(m0, f);
      FinishOwned(maxSegments, Cut(m0, f));
      FinishKeepsCurrent(maxSegments, Cut(m0, f));
    }
    hide Finish, Cut, TakeBuffer, MuxFrame, Owned, PoolClean;
    var m2 := if m1.current.None? && f.isKeyFrame then TakeBuffer(m1, f, reuse) else m1;
    if m1.current.None? && f.isKeyFrame {
      TakeClean(m1, f, reuse);
      TakeBufferOwned(m1, f, reuse);
    }
    MuxClean(m2, f);
  }

  lemma CutClean(m: Muxer, f: Frame)
    requires PoolClean(m) && InStore(m) && m.current.Some?
    ensures PoolClean(Cut(m, f)) && Returned(m, Cut(m, f))
  {
    hide Name;
  }

  lemma TakeClean(m: Muxer, f: Frame, reuse: Option<nat>)
    requires PoolClean(m) && Owned(m)
    ensures PoolClean(TakeBuffer(m, f, reuse)) && Returned(m, TakeBuffer(m, f, reuse))
  {
  }

  lemma MuxClean(m: Muxer, f: Frame)
    requires PoolClean(m) && Owned(m)
    ensures PoolClean(MuxFrame(m, f)) && Returned(m, MuxFrame(m, f))
  {
  }

  lemma RepeatClean(maxSegments: nat, m: Muxer)
    requires PoolClean(m) && InStore(m)
    ensures PoolClean(RepeatLast(maxSegments, m)) && Returned(m, RepeatLast(maxSegments, m))
  {
    hide Finish, Name;
    if m.segments != [] {
      var last := m.segments[|m.segments| - 1];
      var data := Data(m, last);
      FinishClean(maxSegments, Publish(m, m.store[last].duration, true, None, data, data));
    }
  }

  lemma {:induction false} ReleaseAllClean(m: Muxer)
    requires PoolClean(m) && InStore(m)
    ensures PoolClean(ReleaseAll(m)) && Returned(m, ReleaseAll(m))
    decreases |m.segments|
  {
    if m.segments == [] {
    } else {
      EvictShrinks(m);
      EvictClean(m);
      hide PoolClean, EvictAndRecycle;
      ReleaseAllClean(EvictAndRecycle(m));
    }
  }

  lemma CountingClean(m: Muxer, id: nat)
    requires PoolClean(m) && InStore(m) && id < |m.store|
    ensures PoolClean(Retain(m, id)) && Returned(m, Retain(m, id))
    ensures m.held[id] > 0 ==> PoolClean(ReleaseHeld(m, id))
  {
  }

  lemma StepClean(maxSegments: nat, m: Muxer, op: Op)
    requires PoolClean(m) && Owned(m)
    ensures PoolClean(Step(maxSegments, m, op)) && (!op.Drop? ==> Returned(m, Step(maxSegments, m, op)))
  {
    hide HandleFrame, RepeatLast, Find, LookupName, Retain, ReleaseHeld, RecycleIfDue, ReleaseAll, Owned;
    match op
    case OnFrame(f, changed, reuse) => HandleClean(maxSegments, m, f, changed, reuse);
    case Watchdog(stale) => RepeatClean(maxSegments, m);
    case Acquire(name) =>
      var id := Find(m, LookupName(name));
      if id.Some? && id.value < |m.store| {
        CountingClean(m, id.value);
      }
    case Drop(id) =>
      if id < |m.store| && m.held[id] > 0 {
        CountingClean(m, id);
      }
    case Recycle(id) => RecycleClean(m, id);
    case PoolForgets(b) =>
    case Stop => ReleaseAllClean(m);
  }

  /**
   Releases, in every run: whatever waits in the pool has been reset, and the muxer's own releases, at eviction and at
   Stop, leave no buffer to be returned later.
   */
  lemma {:induction false} EveryRunReturns(maxSegments: nat, ops: seq<Op>)
    requires maxSegments > 0
    ensures PoolClean(Run(maxSegments, ops))
    ensures ops != [] && !ops[|ops| - 1].Drop? ==>
              Returned(Run(maxSegments, ops[..|ops| - 1]), Run(maxSegments, ops))
  {
    if ops == [] {
    } else {
      EveryRunReturns(maxSegments, ops[..|ops| - 1]);
      EveryRun(maxSegments, ops[..|ops| - 1]);
      hide Step, Windowed, Owned, PoolClean, Returned;
      StepClean(maxSegments, Run(maxSegments, ops[..|ops| - 1]), ops[|ops| - 1]);
    }
  }

  /** A holder's last release is completed by one return of the buffer, empty, to the pool. */
  lemma LastReleaseReturns(maxSegments: nat, ops: seq<Op>, id: nat)
    requires maxSegments > 0
    ensures var m := Run(maxSegments, ops);
            id in m.recycling && id < |m.store| && m.store[id].buf.Some? ==>
              var r, b := Step(maxSegments, m, Recycle(id)), m.store[id].buf.value;
              && id !in r.recycling && r.pool == m.pool + multiset{b} && b !in m.pool
              && b < |r.contents| && r.contents[b] == [] && r.store[id].buf.None?
  {
    EveryRun(maxSegments, ops);
    hide Run, Windowed;
    var m := Run(maxSegments, ops);
    if id in m.recycling && id < |m.store| && m.store[id].buf.Some? {
      RecycleReturns(m, id);
    }
    hide RecycleIfDue, OneOwner, RefsAdd, SegmentSound;
  }

  lemma RecycleReturns(m: Muxer, id: nat)
    requires OneOwner(m) && id in m.recycling && id < |m.store| && m.store[id].buf.Some?
    ensures var r, b := RecycleIfDue(m, id), m.store[id].buf.value;
            && id !in r.recycling && r.pool == m.pool + multiset{b} && b !in m.pool
            && b < |r.contents| && r.contents[b] == [] && r.store[id].buf.None?
  {
  }

  // ---------------------------------------------------------------------------------------------
  // Holders

  /** How many holders segment `id` has: one more for every request that found it, one less for every release. */
  ghost function Outstanding(maxSegments: nat, ops: seq<Op>, id: nat): nat {
    if ops == [] then 0
    else
      var before := Outstanding(maxSegments, ops[..|ops| - 1], id);
      var m := Run(maxSegments, ops[..|ops| - 1]);
      match ops[|ops| - 1]
      case Acquire(name) => if id < |m.store| && Find(m, LookupName(name)) == Some(id) then before + 1 else before
      case Drop(j) => if j == id && before > 0 then before - 1 else before
      case _ => before
  }

  lemma FinishHeld(maxSegments: nat, m: Muxer)
    requires InStore(m)
    ensures Finish(maxSegments, m).held == m.held
  {
    hide Render, IndexOf;
  }

  lemma HandleHeld(maxSegments: nat, m: Muxer, f: Frame, changed: bool, reuse: Option<nat>)
    requires InStore(m)
    ensures var r := HandleFrame(maxSegments, m, f, changed, reuse); r.held == m.held || r.held == m.held + [0]
  {
    hide Finish, Cut, TakeBuffer, MuxFrame;
    var m0 := m.(received := m.received + [f],
                 needsDiscontinuity := m.needsDiscontinuity || (f.isKeyFrame && changed));
    if Due(m0, f) {
      CutHeld(m0, f);
      FinishHeld(maxSegments, Cut(m0, f));
    }
    var m1 := if Due(m0, f) then CloseCurrent(maxSegments, m0, f) else m0;
    var m2 := if m1.current.None? && f.isKeyFrame then TakeBuffer(m1, f, reuse) else m1;
    MuxingHeld(m1, f, reuse);
    MuxingHeld(m2, f, reuse);
  }

  lemma CutHeld(m: Muxer, f: Frame)
    requires InStore(m) && m.current.Some?
    ensures Cut(m, f).held == m.held + [0]
  {
    hide Name;
  }

  lemma MuxingHeld(m: Muxer, f: Frame, reuse: Option<nat>)
    ensures TakeBuffer(m, f, reuse).held == m.held == MuxFrame(m, f).held
  {
  }

  lemma RepeatHeld(maxSegments: nat, m: Muxer)
    requires InStore(m)
    ensures var r := RepeatLast(maxSegments, m); r.held == m.held || r.held == m.held + [0]
  {
    hide Finish, Name;
    if m.segments != [] {
      var last := m.segments[|m.segments| - 1];
      var data := Data(m, last);
      FinishHeld(maxSegments, Publish(m, m.store[last].duration, true, None, data, data));
    }
  }

  lemma {:induction false} ReleaseAllHeld(m: Muxer)
    requires InStore(m)
    ensures ReleaseAll(m).held == m.held
    decreases |m.segments|
  {
    if m.segments == [] {
    } else {
      EvictShrinks(m);
      assert EvictAndRecycle(m).held == m.held;
      ReleaseAllHeld(EvictAndRecycle(m));
    }
  }

  lemma CountingHeld(m: Muxer, id: nat)
    requires InStore(m)
    ensures RecycleIfDue(m, id).held == m.held
    ensures id < |m.store| ==> Retain(m, id).held == m.held[id := m.held[id] + 1]
    ensures id < |m.store| && m.held[id] > 0 ==> ReleaseHeld(m, id).held == m.held[id := m.held[id] - 1]
  {
  }

  lemma StepHeld(maxSegments: nat, m: Muxer, op: Op, id: nat)
    requires InStore(m)
    ensures var r := Step(maxSegments, m, op);
            && |m.held| <= |r.held| && (|m.held| <= id < |r.held| ==> r.held[id] == 0)
            && (id < |m.held| ==>
                  r.held[id] == match op
                    case Acquire(name) => if Find(m, LookupName(name)) == Some(id) then m.held[id] + 1 else m.held[id]
                    case Drop(j) => if j == id && m.held[id] > 0 then m.held[id] - 1 else m.held[id]
                    case _ => m.held[id])
  {
    hide HandleFrame, RepeatLast, Find, LookupName, ReleaseAll, Retain, ReleaseHeld, RecycleIfDue;
    match op
    case OnFrame(f, changed, reuse) => HandleHeld(maxSegments, m, f, changed, reuse);
    case Watchdog(stale) => RepeatHeld(maxSegments, m);
    case Acquire(name) =>
      var found := Find(m, LookupName(name));
      if found.Some? {
        CountingHeld(m, found.value);
      }
    case Drop(j) => CountingHeld(m, j);
    case Recycle(j) => CountingHeld(m, j);
    case PoolForgets(b) =>
    case Stop => ReleaseAllHeld(m);
  }

  /** In every run the number of holders of every segment is exactly what the requests and releases add up to. */
  lemma {:induction false} HeldExactly(maxSegments: nat, ops: seq<Op>, id: nat)
    ensures var m := Run(maxSegments, ops);
            Outstanding(maxSegments, ops, id) == if id < |m.held| then m.held[id] else 0
  {
    if ops == [] {
    } else {
      HeldExactly(maxSegments, ops[..|ops| - 1], id);
      StepHeld(maxSegments, Run(maxSegments, ops[..|ops| - 1]), ops[|ops| - 1], id);
      hide Step, Find, LookupName;
    }
  }
}
