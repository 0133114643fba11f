/** Who owns which pooled buffer, over every interleaving of the muxer, its watchdog and the HTTP handlers. */
module HlsOwnership {
  import opened Frames
  import opened HlsSpec

  ghost predicate Distinct(ids: seq<nat>) {
    forall j, k :: 0 <= j < k < |ids| ==> ids[j] != ids[k]
  }

  /** A reference count is one for the window plus one per outstanding holder. */
  ghost predicate RefsAdd(m: Muxer) {
    && InStore(m) && Distinct(m.segments)
    && forall id :: 0 <= id < |m.store| ==>
         m.store[id].refCount == (if id in m.segments then 1 else 0) + m.held[id]
  }

  /** Pool, current segment and live segments own disjoint sets of buffers; the pool holds each at most once. */
  ghost predicate OneOwner(m: Muxer) {
    && (forall b :: b in m.pool ==> m.pool[b] == 1 && b < |m.contents|)
    && (m.current.Some? ==> m.current.value.buf < |m.contents| && m.current.value.buf !in m.pool)
    && (forall id :: 0 <= id < |m.store| && m.store[id].buf.Some? ==>
          var b := m.store[id].buf.value;
          b < |m.contents| && b !in m.pool && (m.current.Some? ==> m.current.value.buf != b))
    && (forall i, j :: 0 <= i < j < |m.store| && m.store[i].buf.Some? && m.store[j].buf.Some? ==>
          m.store[i].buf != m.store[j].buf)
  }

  /** A segment somebody can reach still has the data it was closed with; one released for good lets its buffer go. */
  ghost predicate SegmentSound(m: Muxer, id: nat)
    requires id < |m.store|
  {
    var seg := m.store[id];
    && (seg.refCount > 0 ==> Data(m, id) == seg.frames && (seg.genuine ==> seg.buf.Some?))
    && (seg.refCount == 0 && seg.buf.Some? ==> id in m.recycling)
    && (id in m.recycling ==> seg.refCount == 0)
  }

  ghost predicate Owned(m: Muxer): (r: bool)
    ensures r ==> InStore(m)
  {
    && RefsAdd(m) && OneOwner(m)
    && (forall id :: 0 <= id < |m.store| ==> SegmentSound(m, id))
    && (forall id :: id in m.recycling ==> id < |m.store|)
  }

  lemma EvictOwned(m: Muxer)
    requires Owned(m) && m.segments != []
    ensures Owned(Evict(m))
  {
    var id := m.segments[0];
    var r := Evict(m);
    assert forall k :: k in m.segments <==> k == id || k in r.segments;
    assert id !in r.segments;
    forall k | 0 <= k < |r.store| ensures SegmentSound(r, k) {
      assert SegmentSound(m, k);
    }
  }

  lemma RecycleOwned(m: Muxer, id: nat)
    requires Owned(m)
    ensures Owned(RecycleIfDue(m, id))
  {
    RecycleOneOwner(m, id);
    var r := RecycleIfDue(m, id);
    forall k | 0 <= k < |r.store| ensures SegmentSound(r, k) {
      RecycleSegmentSound(m, id, k);
    }
    hide OneOwner, SegmentSound;
  }

  lemma RecycleSegmentSound(m: Muxer, id: nat, k: nat)
    requires OneOwner(m) && k < |m.store| && SegmentSound(m, k) && (id < |m.store| ==> SegmentSound(m, id))
    ensures SegmentSound(RecycleIfDue(m, id), k)
  {
  }

  lemma RecycleOneOwner(m: Muxer, id: nat)
    requires OneOwner(m)
    ensures OneOwner(RecycleIfDue(m, id))
  {
  }

  lemma PublishOwned(m: Muxer, duration: int, disc: bool, buf: Option<nat>, copied: seq<Frame>, frames: seq<Frame>)
    requires Owned(m)
    requires buf.Some? ==>
               && buf.value < |m.contents| && buf.value !in m.pool && m.contents[buf.value] == frames
               && (m.current.Some? ==> m.current.value.buf != buf.value)
               && forall id :: 0 <= id < |m.store| ==> m.store[id].buf != buf
    requires buf.None? ==> copied == frames
    ensures Owned(Publish(m, duration, disc, buf, copied, frames))
  {
    hide Name;
    var r := Publish(m, duration, disc, buf, copied, frames);
    forall k | 0 <= k < |r.store| ensures SegmentSound(r, k) {
      if k < |m.store| {
        assert SegmentSound(m, k);
      }
    }
  }

  /** Playlists, names and flags do not matter for ownership. */
  lemma OwnedIgnores(m: Muxer, r: Muxer)
    requires Owned(m)
    requires r.store == m.store && r.segments == m.segments && r.held == m.held && r.contents == m.contents
    requires r.current == m.current && r.recycling == m.recycling && r.pool <= m.pool
    ensures Owned(r)
  {
    forall k | 0 <= k < |r.store| ensures SegmentSound(r, k) {
      assert SegmentSound(m, k);
    }
  }

  lemma FinishOwned(maxSegments: nat, m: Muxer)
    requires Owned(m)
    ensures Owned(Finish(maxSegments, m))
  {
    hide Owned, Evict, RecycleIfDue, Render, IndexOf;
    var t := Trim(m, maxSegments);
    if |m.segments| > maxSegments {
      EvictOwned(m);
      RecycleOwned(Evict(m), m.segments[0]);
    }
    OwnedIgnores(t, Rebuild(t));
  }

  lemma LoseCurrent(m: Muxer, r: Muxer)
    requires Owned(m) && r == m.(current := None)
    ensures Owned(r)
    ensures m.current.Some? ==>
              var b := m.current.value.buf;
              b < |m.contents| && b !in r.pool && forall id :: 0 <= id < |m.store| ==> m.store[id].buf != Some(b)
  {
    forall k | 0 <= k < |r.store| ensures SegmentSound(r, k) {
      assert SegmentSound(m, k);
    }
  }

  lemma CutOwned(m: Muxer, f: Frame)
    requires Owned(m) && m.current.Some?
    ensures Owned(Cut(m, f)) && Cut(m, f).current.None?
  {
    hide Owned, Publish;
    var c := m.current.value;
    var free := m.(current := None);
    LoseCurrent(m, free);
    var data := m.contents[c.buf];
    PublishOwned(free, f.timestamp - c.start, m.needsDiscontinuity, Some(c.buf), [], data);
    PublishKeepsCurrent(free, f.timestamp - c.start, m.needsDiscontinuity, Some(c.buf), [], data);
    OwnedIgnores(Publish(free, f.timestamp - c.start, m.needsDiscontinuity, Some(c.buf), [], data), Cut(m, f));
  }

  lemma CloseOwned(maxSegments: nat, m: Muxer, f: Frame)
    requires Owned(m) && m.current.Some?
    ensures Owned(CloseCurrent(maxSegments, m, f)) && CloseCurrent(maxSegments, m, f).current.None?
  {
    hide Owned, Cut, Finish;
    CutOwned(m, f);
    FinishOwned(maxSegments, Cut(m, f));
    FinishKeepsCurrent(maxSegments, Cut(m, f));
  }

  lemma PublishKeepsCurrent(m: Muxer, duration: int, disc: bool, buf: Option<nat>, copied: seq<Frame>,
                            frames: seq<Frame>)
    ensures Publish(m, duration, disc, buf, copied, frames).current == m.current
    ensures Publish(m, duration, disc, buf, copied, frames).received == m.received
  {
  }

  lemma FinishKeepsCurrent(maxSegments: nat, m: Muxer)
    requires InStore(m)
    ensures Finish(maxSegments, m).current == m.current && Finish(maxSegments, m).received == m.received
    ensures Finish(maxSegments, m).stopped == m.stopped
  {
    hide Render, IndexOf;
  }

  lemma TakeBufferOwned(m: Muxer, f: Frame, reuse: Option<nat>)
    requires Owned(m) && m.current.None?
    ensures Owned(TakeBuffer(m, f, reuse))
  {
    var r := TakeBuffer(m, f, reuse);
    TakeBufferOneOwner(m, f, reuse);
    forall k | 0 <= k < |r.store| ensures SegmentSound(r, k) {
      TakeBufferSegmentSound(m, f, reuse, k);
    }
    hide OneOwner, SegmentSound;
  }

  lemma TakeBufferSegmentSound(m: Muxer, f: Frame, reuse: Option<nat>, k: nat)
    requires OneOwner(m) && k < |m.store| && SegmentSound(m, k)
    ensures SegmentSound(TakeBuffer(m, f, reuse), k)
  {
  }

  lemma TakeBufferOneOwner(m: Muxer, f: Frame, reuse: Option<nat>)
    requires OneOwner(m) && m.current.None?
    ensures OneOwner(TakeBuffer(m, f, reuse))
  {
  }

  lemma MuxFrameOwned(m: Muxer, f: Frame)
    requires Owned(m)
    ensures Owned(MuxFrame(m, f))
  {
    var r := MuxFrame(m, f);
    forall k | 0 <= k < |r.store| ensures SegmentSound(r, k) {
      assert SegmentSound(m, k);
    }
  }

  lemma HandleOwned(maxSegments: nat, m: Muxer, f: Frame, changed: bool, reuse: Option<nat>)
    requires Owned(m)
    ensures Owned(HandleFrame(maxSegments, m, f, changed, reuse))
  {
    hide Owned, CloseCurrent, TakeBuffer, MuxFrame;
    var m0 := m.(received := m.received + [f],
                 needsDiscontinuity := m.needsDiscontinuity || (f.isKeyFrame && changed));
    OwnedIgnores(m, m0);
    var m1 := if Due(m0, f) then CloseCurrent(maxSegments, m0, f) else m0;
    if Due(m0, f) {
      CloseOwned(maxSegments, m0, f);
    }
    var m2 := if m1.current.None? && f.isKeyFrame then TakeBuffer(m1, f, reuse) else m1;
    if m1.current.None? && f.isKeyFrame {
      TakeBufferOwned(m1, f, reuse);
    }
    MuxFrameOwned(m2, f);
  }

  lemma RepeatOwned(maxSegments: nat, m: Muxer)
    requires Owned(m)
    ensures Owned(RepeatLast(maxSegments, m))
  {
    hide Owned, Finish, Publish;
    if m.segments != [] {
      var last := m.segments[|m.segments| - 1];
      var data := Data(m, last);
      var p := Publish(m, m.store[last].duration, true, None, data, data);
      PublishOwned(m, m.store[last].duration, true, None, data, data);
      FinishOwned(maxSegments, p);
      OwnedIgnores(Finish(maxSegments, p), RepeatLast(maxSegments, m));
    }
  }

  lemma RetainOwned(m: Muxer, id: nat)
    requires Owned(m) && id < |m.store| && id in m.segments
    ensures Owned(Retain(m, id))
  {
    var r := Retain(m, id);
    forall k | 0 <= k < |r.store| ensures SegmentSound(r, k) {
      assert SegmentSound(m, k);
    }
  }

  lemma ReleaseHeldOwned(m: Muxer, id: nat)
    requires Owned(m) && id < |m.store| && m.held[id] > 0
    ensures Owned(ReleaseHeld(m, id))
  {
    var r := ReleaseHeld(m, id);
    forall k | 0 <= k < |r.store| ensures SegmentSound(r, k) {
      assert SegmentSound(m, k);
    }
  }

  lemma {:induction false} ReleaseAllOwned(m: Muxer)
    requires Owned(m)
    ensures Owned(ReleaseAll(m))
    decreases |m.segments|
  {
    hide Owned, Evict, RecycleIfDue;
    if m.segments == [] {
    } else {
      EvictOwned(m);
      RecycleOwned(Evict(m), m.segments[0]);
      EvictShrinks(m);
      ReleaseAllOwned(EvictAndRecycle(m));
    }
  }

  lemma EvictShrinks(m: Muxer)
    requires InStore(m) && m.segments != []
    ensures EvictAndRecycle(m).segments == m.segments[1..]
  {
  }

  /** The window's segments are found under their index; a segment outside the window is not found at all. */
  ghost predicate FindsWindow(m: Muxer)
    requires InStore(m)
  {
    forall name :: Find(m, name).Some? ==> Find(m, name).value in m.segments
  }

  lemma StepOwned(maxSegments: nat, m: Muxer, op: Op)
    requires Owned(m) && FindsWindow(m)
    ensures Owned(Step(maxSegments, m, op))
  {
    hide Owned, HandleFrame, RepeatLast, Find, RecycleIfDue, LookupName, Retain, ReleaseHeld;
    match op
    case OnFrame(f, changed, reuse) => HandleOwned(maxSegments, m, f, changed, reuse);
    case Watchdog(stale) => RepeatOwned(maxSegments, m);
    case Acquire(name) =>
      var id := Find(m, LookupName(name));
      if id.Some? {
        RetainOwned(m, id.value);
      }
    case Drop(id) =>
      if id < |m.store| && m.held[id] > 0 {
        ReleaseHeldOwned(m, id);
      }
    case Recycle(id) => RecycleOwned(m, id);
    case PoolForgets(b) => OwnedIgnores(m, Step(maxSegments, m, op));
    case Stop =>
      ReleaseAllOwned(m);
      var all := ReleaseAll(m);
      LoseCurrent(all, all.(current := None));
      OwnedIgnores(all.(current := None), Step(maxSegments, m, op));
  }

  /** What a segment is never changes after it is published: only its count and its buffer do. */
  ghost predicate Extends(a: seq<Segment>, b: seq<Segment>) {
    && |a| <= |b|
    && forall id :: 0 <= id < |a| ==>
         && a[id].frames == b[id].frames && a[id].name == b[id].name && a[id].duration == b[id].duration
         && a[id].isDiscontinuity == b[id].isDiscontinuity && a[id].genuine == b[id].genuine
  }

  lemma {:induction false} ReleaseAllExtends(m: Muxer)
    requires InStore(m)
    ensures Extends(m.store, ReleaseAll(m).store)
    decreases |m.segments|
  {
    if m.segments == [] {
    } else {
      EvictShrinks(m);
      EvictExtends(m);
      hide EvictAndRecycle;
      ReleaseAllExtends(EvictAndRecycle(m));
    }
  }

  lemma EvictExtends(m: Muxer)
    requires InStore(m) && m.segments != []
    ensures Extends(m.store, EvictAndRecycle(m).store)
  {
  }

  lemma FinishExtends(maxSegments: nat, m: Muxer)
    requires InStore(m)
    ensures Extends(m.store, Finish(maxSegments, m).store)
  {
    hide Render, IndexOf;
    if |m.segments| > maxSegments {
      EvictExtends(m);
    }
  }

  lemma CutExtends(m: Muxer, f: Frame)
    requires InStore(m) && m.current.Some?
    ensures Extends(m.store, Cut(m, f).store)
  {
    hide Name;
  }

  lemma ExtendsTransitive(a: seq<Segment>, b: seq<Segment>, c: seq<Segment>)
    requires Extends(a, b) && Extends(b, c)
    ensures Extends(a, c)
  {
  }

  lemma MuxingKeepsStore(m: Muxer, f: Frame, reuse: Option<nat>)
    ensures TakeBuffer(m, f, reuse).store == m.store && MuxFrame(m, f).store == m.store
    ensures TakeBuffer(m, f, reuse).segments == m.segments && MuxFrame(m, f).segments == m.segments
  {
  }

  lemma HandleExtends(maxSegments: nat, m: Muxer, f: Frame, changed: bool, reuse: Option<nat>)
    requires InStore(m)
    ensures Extends(m.store, HandleFrame(maxSegments, m, f, changed, reuse).store)
  {
    hide Finish, Cut, TakeBuffer, MuxFrame;
    var m0 := m.(received := m.received + [f],
                 needsDiscontinuity := m.needsDiscontinuity || (f.isKeyFrame && changed));
    var m1 := if Due(m0, f) then CloseCurrent(maxSegments, m0, f) else m0;
    if Due(m0, f) {
      CutExtends(m0, f);
      FinishExtends(maxSegments, Cut(m0, f));
      ExtendsTransitive(m.store, Cut(m0, f).store, m1.store);
    }
    var m2 := if m1.current.None? && f.isKeyFrame then TakeBuffer(m1, f, reuse) else m1;
    MuxingKeepsStore(m1, f, reuse);
    MuxingKeepsStore(m2, f, reuse);
  }

  lemma RepeatExtends(maxSegments: nat, m: Muxer)
    requires InStore(m)
    ensures Extends(m.store, RepeatLast(maxSegments, m).store)
  {
    hide Finish, Name, Data;
    if m.segments != [] {
      var last := m.segments[|m.segments| - 1];
      var p := Publish(m, m.store[last].duration, true, None, Data(m, last), Data(m, last));
      assert Extends(m.store, p.store);
      FinishExtends(maxSegments, p);
    }
  }

  /** Counting and recycling touch nothing else of the segments. */
  lemma CountingExtends(m: Muxer, id: nat)
    requires InStore(m)
    ensures Extends(m.store, m.store) && Extends(m.store, RecycleIfDue(m, id).store)
    ensures id < |m.store| ==> Extends(m.store, Retain(m, id).store)
    ensures id < |m.store| && m.held[id] > 0 ==> Extends(m.store, ReleaseHeld(m, id).store)
  {
  }

  lemma StepExtends(maxSegments: nat, m: Muxer, op: Op)
    requires InStore(m)
    ensures Extends(m.store, Step(maxSegments, m, op).store)
  {
    hide HandleFrame, RepeatLast, Find, LookupName, ReleaseAll, Extends, Retain, ReleaseHeld, RecycleIfDue;
    CountingExtends(m, 0);
    match op
    case OnFrame(f, changed, reuse) => HandleExtends(maxSegments, m, f, changed, reuse);
    case Watchdog(stale) => RepeatExtends(maxSegments, m);
    case Acquire(name) =>
      var id := Find(m, LookupName(name));
      if id.Some? {
        CountingExtends(m, id.value);
      }
    case Drop(id) => CountingExtends(m, id);
    case Recycle(id) => CountingExtends(m, id);
    case PoolForgets(b) =>
    case Stop => ReleaseAllExtends(m);
  }
}
