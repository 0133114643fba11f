/** The sliding window, its name index and its playlists, over every run of the muxer. */
module HlsWindow {
  import opened Frames
  import opened HlsSpec
  import opened HlsOwnership

  // ---------------------------------------------------------------------------------------------
  // Names

  lemma {:induction false} DecimalInjective(a: nat, b: nat)
    requires Decimal(a) == Decimal(b)
    ensures a == b
  {
    var s := Decimal(a);
    if a < 10 || b < 10 {
      DecimalLength(a);
      DecimalLength(b);
      assert s[0] == Decimal(a)[0] == Decimal(b)[0];
    } else {
      var n := |s| - 1;
      assert Decimal(a / 10) == s[..n] == Decimal(b / 10);
      assert Digit(a % 10) == s[n] == Digit(b % 10);
      DecimalInjective(a / 10, b / 10);
    }
  }

  lemma DecimalLength(n: nat)
    ensures |Decimal(n)| >= 1 && (n >= 10 ==> |Decimal(n)| >= 2)
  {
    if n >= 10 {
      DecimalLength(n / 10);
    }
  }

  lemma NameInjective(a: nat, b: nat)
    requires Name(a) == Name(b)
    ensures a == b
  {
    assert Decimal(a) == Name(a)[7..|Name(a)| - 3];
    assert Decimal(b) == Name(b)[7..|Name(b)| - 3];
    DecimalInjective(a, b);
  }

  /** The number that decimal digits spell. */
  function Value(digits: string): int {
    if digits == "" then 0 else 10 * Value(digits[..|digits| - 1]) + (digits[|digits| - 1] as int - '0' as int)
  }

  lemma {:induction false} DecimalSpells(n: nat)
    ensures Value(Decimal(n)) == n
  {
    if n < 10 {
      assert [Digit(n)][..0] == "" && Value("") == 0;
    } else {
      DecimalSpells(n / 10);
      assert Decimal(n)[..|Decimal(n)| - 1] == Decimal(n / 10);
    }
  }

  /** A segment's name, letter by letter: stream_, its number in decimal, .ts. */
  lemma NameSpells(n: nat)
    ensures var name := Name(n);
            |name| >= 11 && name[..7] == "stream_" && name[|name| - 3..] == ".ts" && Value(name[7..|name| - 3]) == n
  {
    DecimalSpells(n);
    DecimalLength(n);
    hide Decimal;
    assert Name(n)[7..|Name(n)| - 3] == Decimal(n);
  }

  /** A segment's own name and its subtitle name both look up the segment's name. */
  lemma LookupNames(n: nat)
    ensures LookupName(Name(n)) == Name(n) && LookupName(SubsName(Name(n))) == Name(n)
  {
    hide Decimal;
    var name := Name(n);
    assert name[|name| - 1] == 's' && name[|name| - 3..] == ".ts";
    var sub := SubsName(name);
    assert sub[|sub| - 4..] == ".vtt" && sub[..|sub| - 4] == name[..|name| - 3];
    assert |name| > 4 ==> name[|name| - 4..][3] == 's' && ".vtt"[3] == 't';
  }

  // ---------------------------------------------------------------------------------------------
  // The window

  /** Equal in everything a playlist or the index shows. */
  ghost predicate SameLabels(a: seq<Segment>, b: seq<Segment>) {
    && |a| == |b|
    && forall k :: 0 <= k < |a| ==>
         a[k].name == b[k].name && a[k].duration == b[k].duration && a[k].isDiscontinuity == b[k].isDiscontinuity
  }

  lemma {:induction false} EntriesSame(a: seq<Segment>, b: seq<Segment>, subs: bool)
    requires SameLabels(a, b)
    ensures Entries(a, subs) == Entries(b, subs)
  {
    if a == [] {
    } else {
      EntriesSame(a[1..], b[1..], subs);
    }
  }

  lemma {:induction false} MaxSecondsSame(a: seq<Segment>, b: seq<Segment>)
    requires SameLabels(a, b)
    ensures MaxSeconds(a) == MaxSeconds(b)
  {
    if a == [] {
    } else {
      MaxSecondsSame(a[..|a| - 1], b[..|b| - 1]);
    }
  }

  lemma RenderSame(a: seq<Segment>, b: seq<Segment>, seqCount: nat, subs: bool)
    requires SameLabels(a, b)
    ensures Render(a, seqCount, subs) == Render(b, seqCount, subs)
  {
    EntriesSame(a, b, subs);
    MaxSecondsSame(a, b);
  }

  lemma {:induction false} IndexSame(a: seq<Segment>, b: seq<Segment>, ids: seq<nat>)
    requires SameLabels(a, b) && |a| == |ids|
    ensures IndexOf(a, ids) == IndexOf(b, ids)
  {
    if a == [] {
    } else {
      IndexSame(a[..|a| - 1], b[..|b| - 1], ids[..|ids| - 1]);
    }
  }

  ghost predicate Consecutive(m: Muxer) {
    && m.seqCount == |m.store|
    && |m.segments| <= m.seqCount
    && forall k :: 0 <= k < |m.segments| ==> m.segments[k] == m.seqCount - |m.segments| + k
  }

  ghost predicate Named(m: Muxer) {
    forall id :: 0 <= id < |m.store| ==> m.store[id].name == Name(id + 1)
  }

  ghost predicate Published(m: Muxer)
    requires InStore(m)
  {
    && m.segIndex == IndexOf(Window(m), m.segments)
    && (m.segments != [] ==>
          && m.playlist == Some(Render(Window(m), m.seqCount, false))
          && m.subsPlaylist == Some(Render(Window(m), m.seqCount, true)))
  }

  function Min(a: nat, b: nat): nat {
    if a <= b then a else b
  }

  /** The window holds the newest segments, as many as there are up to `maxSegments`, until Stop empties it. */
  ghost predicate Windowed(maxSegments: nat, m: Muxer): (r: bool)
    ensures r ==> InStore(m)
  {
    && InStore(m) && Consecutive(m) && Named(m) && Published(m)
    && |m.segments| == if m.stopped then 0 else Min(m.seqCount, maxSegments)
  }

  /** Nothing a playlist reader could notice has changed. */
  ghost predicate Quiet(m: Muxer, r: Muxer) {
    && |r.store| == |m.store| && Extends(m.store, r.store)
    && r.segments == m.segments && r.seqCount == m.seqCount && r.segIndex == m.segIndex
    && r.playlist == m.playlist && r.subsPlaylist == m.subsPlaylist && r.stopped == m.stopped
  }

  lemma QuietWindowed(maxSegments: nat, m: Muxer, r: Muxer)
    requires Windowed(maxSegments, m) && Quiet(m, r) && InStore(r)
    ensures Windowed(maxSegments, r)
  {
    hide Render, IndexOf, Name;
    assert SameLabels(Window(m), Window(r));
    RenderSame(Window(m), Window(r), m.seqCount, false);
    RenderSame(Window(m), Window(r), m.seqCount, true);
    IndexSame(Window(m), Window(r), m.segments);
  }

  /** Rendering an empty window clears the index and leaves the cached playlists. */
  lemma RebuildEmpty(m: Muxer)
    requires InStore(m) && m.segments == []
    ensures Rebuild(m).segIndex == map[]
    ensures Rebuild(m).playlist == m.playlist && Rebuild(m).subsPlaylist == m.subsPlaylist
  {
  }

  lemma EvictQuiet(m: Muxer)
    requires InStore(m) && m.segments != []
    ensures EvictAndRecycle(m).segments == m.segments[1..]
    ensures |EvictAndRecycle(m).store| == |m.store| && EvictAndRecycle(m).seqCount == m.seqCount
    ensures EvictAndRecycle(m).stopped == m.stopped
    ensures EvictAndRecycle(m).segIndex == m.segIndex && EvictAndRecycle(m).received == m.received
  {
  }

  lemma FinishWindowed(maxSegments: nat, m: Muxer)
    requires InStore(m) && Consecutive(m) && Named(m)
    requires m.seqCount > 0 && |m.segments| == Min(m.seqCount - 1, maxSegments) + 1 && maxSegments > 0
    requires !m.stopped
    ensures Windowed(maxSegments, Finish(maxSegments, m)) && Finish(maxSegments, m).segments != []
    ensures Finish(maxSegments, m).seqCount == m.seqCount
  {
    hide Render, IndexOf, Name, EvictAndRecycle;
    var t := Trim(m, maxSegments);
    if |m.segments| > maxSegments {
      EvictQuiet(m);
      EvictExtends(m);
    }
    var r := Rebuild(t);
    assert Window(r) == Window(t);
  }

  lemma PublishConsecutive(m: Muxer, duration: int, disc: bool, buf: Option<nat>, copied: seq<Frame>,
                           frames: seq<Frame>)
    requires InStore(m) && Consecutive(m) && Named(m)
    ensures var p := Publish(m, duration, disc, buf, copied, frames);
            && Consecutive(p) && Named(p) && |p.segments| == |m.segments| + 1 && p.seqCount == m.seqCount + 1
            && p.stopped == m.stopped
  {
    hide Name;
  }

  lemma MuxingQuiet(m: Muxer, f: Frame, reuse: Option<nat>)
    ensures Quiet(m, TakeBuffer(m, f, reuse)) && Quiet(m, MuxFrame(m, f))
    ensures TakeBuffer(m, f, reuse).received == m.received == MuxFrame(m, f).received
  {
    hide Extends;
    SelfExtends(m.store);
  }

  lemma CutConsecutive(m: Muxer, f: Frame)
    requires InStore(m) && Consecutive(m) && Named(m) && m.current.Some?
    ensures var p := Cut(m, f);
            && Consecutive(p) && Named(p) && |p.segments| == |m.segments| + 1 && p.seqCount == m.seqCount + 1
            && p.stopped == m.stopped
  {
    hide Name, Publish, Named;
    var c := m.current.value;
    var free := m.(current := None);
    var data := if c.buf < |m.contents| then m.contents[c.buf] else [];
    NamedIgnores(m, free);
    PublishConsecutive(free, f.timestamp - c.start, m.needsDiscontinuity, Some(c.buf), [], data);
    NamedIgnores(Publish(free, f.timestamp - c.start, m.needsDiscontinuity, Some(c.buf), [], data), Cut(m, f));
  }

  lemma NamedIgnores(m: Muxer, r: Muxer)
    requires Named(m) && r.store == m.store
    ensures Named(r)
  {
  }

  /** The number of the window's first segment, and the playlists' EXT-X-MEDIA-SEQUENCE. */
  function FirstNumber(m: Muxer): int {
    m.seqCount - |m.segments| + 1
  }

  /** Every step keeps the window in order, and the first number never goes back. */
  ghost predicate Slides(maxSegments: nat, m: Muxer, r: Muxer) {
    && Windowed(maxSegments, r)
    && FirstNumber(m) <= FirstNumber(r)
  }

  lemma FinishSlides(maxSegments: nat, m: Muxer, p: Muxer)
    requires Windowed(maxSegments, m) && maxSegments > 0 && !m.stopped
    requires InStore(p) && Consecutive(p) && Named(p) && !p.stopped
    requires |p.segments| == |m.segments| + 1 && p.seqCount == m.seqCount + 1
    ensures Slides(maxSegments, m, Finish(maxSegments, p)) && Finish(maxSegments, p).segments != []
  {
    FinishWindowed(maxSegments, p);
    FinishLength(maxSegments, p);
  }

  lemma FinishLength(maxSegments: nat, p: Muxer)
    requires InStore(p)
    ensures Finish(maxSegments, p).seqCount == p.seqCount && |Finish(maxSegments, p).segments| <= |p.segments|
  {
    hide Render, IndexOf;
  }

  lemma QuietSlides(maxSegments: nat, m: Muxer, r: Muxer)
    requires Windowed(maxSegments, m) && Quiet(m, r) && InStore(r)
    ensures Slides(maxSegments, m, r)
  {
    QuietWindowed(maxSegments, m, r);
    hide Windowed, Extends;
  }

  lemma SlidesOn(maxSegments: nat, a: Muxer, b: Muxer, c: Muxer)
    requires Slides(maxSegments, a, b) && Slides(maxSegments, b, c)
    ensures Slides(maxSegments, a, c)
  {
    hide Windowed;
  }

  lemma SlidesKeeps(maxSegments: nat, m: Muxer, r: Muxer)
    requires Slides(maxSegments, m, r)
    ensures Windowed(maxSegments, r)
  {
  }

  lemma CloseSlides(maxSegments: nat, m: Muxer, f: Frame)
    requires Windowed(maxSegments, m) && maxSegments > 0 && !m.stopped && m.current.Some?
    ensures Slides(maxSegments, m, CloseCurrent(maxSegments, m, f))
  {
    hide Finish, Cut, Published, Named;
    CutConsecutive(m, f);
    FinishSlides(maxSegments, m, Cut(m, f));
  }

  lemma ReceiveQuiet(m: Muxer, f: Frame, changed: bool)
    requires InStore(m)
    ensures var m0 := m.(received := m.received + [f],
                         needsDiscontinuity := m.needsDiscontinuity || (f.isKeyFrame && changed));
            Quiet(m, m0) && InStore(m0) && m0.stopped == m.stopped
  {
    hide Extends;
    SelfExtends(m.store);
  }

  lemma HandleSlides(maxSegments: nat, m: Muxer, f: Frame, changed: bool, reuse: Option<nat>)
    requires Windowed(maxSegments, m) && maxSegments > 0 && !m.stopped
    ensures Slides(maxSegments, m, HandleFrame(maxSegments, m, f, changed, reuse))
  {
    hide Windowed, Slides, Quiet, InStore, CloseCurrent, TakeBuffer, MuxFrame;
    var m0 := m.(received := m.received + [f],
                 needsDiscontinuity := m.needsDiscontinuity || (f.isKeyFrame && changed));
    ReceiveQuiet(m, f, changed);
    QuietSlides(maxSegments, m, m0);
    SlidesKeeps(maxSegments, m, m0);
    var m1 := if Due(m0, f) then CloseCurrent(maxSegments, m0, f) else m0;
    if Due(m0, f) {
      CloseSlides(maxSegments, m0, f);
      SlidesOn(maxSegments, m, m0, m1);
    }
    SlidesKeeps(maxSegments, m, m1);
    var m2 := if m1.current.None? && f.isKeyFrame then TakeBuffer(m1, f, reuse) else m1;
    if m1.current.None? && f.isKeyFrame {
      MuxingQuiet(m1, f, reuse);
      QuietSlides(maxSegments, m1, m2);
      SlidesOn(maxSegments, m, m1, m2);
    }
    SlidesKeeps(maxSegments, m, m2);
    MuxingQuiet(m2, f, reuse);
    QuietSlides(maxSegments, m2, MuxFrame(m2, f));
    SlidesOn(maxSegments, m, m2, MuxFrame(m2, f));
  }

  lemma RepeatSlides(maxSegments: nat, m: Muxer)
    requires Windowed(maxSegments, m) && maxSegments > 0
    ensures Slides(maxSegments, m, RepeatLast(maxSegments, m))
  {
    hide Finish, Publish, Published, Named;
    if m.segments != [] {
      var last := m.segments[|m.segments| - 1];
      var data := Data(m, last);
      var p := Publish(m, m.store[last].duration, true, None, data, data);
      PublishConsecutive(m, m.store[last].duration, true, None, data, data);
      FinishSlides(maxSegments, m, p);
      SelfExtends(Finish(maxSegments, p).store);
      QuietWindowed(maxSegments, Finish(maxSegments, p), RepeatLast(maxSegments, m));
    }
  }

  lemma SelfExtends(a: seq<Segment>)
    ensures Extends(a, a)
  {
  }

  lemma CountingQuiet(m: Muxer, id: nat)
    requires InStore(m)
    ensures Quiet(m, RecycleIfDue(m, id))
    ensures id < |m.store| ==> Quiet(m, Retain(m, id))
    ensures id < |m.store| && m.held[id] > 0 ==> Quiet(m, ReleaseHeld(m, id))
  {
    CountingExtends(m, id);
    hide Extends;
  }

  lemma {:induction false} ReleaseAllWindow(m: Muxer)
    requires InStore(m)
    ensures ReleaseAll(m).seqCount == m.seqCount && |ReleaseAll(m).store| == |m.store|
    decreases |m.segments|
  {
    if m.segments == [] {
    } else {
      EvictQuiet(m);
      hide EvictAndRecycle;
      ReleaseAllWindow(EvictAndRecycle(m));
    }
  }

  lemma StopSlides(maxSegments: nat, m: Muxer)
    requires Windowed(maxSegments, m)
    ensures Slides(maxSegments, m, Step(maxSegments, m, Stop))
  {
    hide ReleaseAll, Named, IndexOf, Extends, Render;
    ReleaseAllWindow(m);
    ReleaseAllExtends(m);
    var r := Step(maxSegments, m, Stop);
    NamedExtends(m, r);
    IndexOfNothing();
    assert Window(r) == [] && r.segments == [];
  }

  lemma NamedExtends(m: Muxer, r: Muxer)
    requires Named(m) && |r.store| == |m.store| && Extends(m.store, r.store)
    ensures Named(r)
  {
    hide Name;
  }

  lemma IndexOfNothing()
    ensures IndexOf([], []) == map[]
  {
  }

  lemma StepSlides(maxSegments: nat, m: Muxer, op: Op)
    requires Windowed(maxSegments, m) && maxSegments > 0
    ensures Slides(maxSegments, m, Step(maxSegments, m, op))
  {
    hide Windowed, HandleFrame, RepeatLast, Find, LookupName, ReleaseAll, Retain, ReleaseHeld, RecycleIfDue, Extends;
    var r := Step(maxSegments, m, op);
    match op
    case OnFrame(f, changed, reuse) =>
      if !m.stopped {
        HandleSlides(maxSegments, m, f, changed, reuse);
      }
    case Watchdog(stale) => RepeatSlides(maxSegments, m);
    case Acquire(name) =>
      var id := Find(m, LookupName(name));
      if id.Some? && id.value < |m.store| {
        CountingQuiet(m, id.value);
        QuietWindowed(maxSegments, m, r);
      }
    case Drop(id) =>
      if id < |m.store| && m.held[id] > 0 {
        CountingQuiet(m, id);
        QuietWindowed(maxSegments, m, r);
      }
    case Recycle(id) =>
      CountingQuiet(m, id);
      QuietWindowed(maxSegments, m, r);
    case PoolForgets(b) =>
      SelfExtends(m.store);
      QuietWindowed(maxSegments, m, r);
    case Stop => StopSlides(maxSegments, m);
  }

  // ---------------------------------------------------------------------------------------------
  // Looking segments up

  lemma {:induction false} IndexFinds(segs: seq<Segment>, ids: seq<nat>, k: nat)
    requires |segs| == |ids| && k < |segs|
    requires forall i, j :: 0 <= i < j < |segs| ==> segs[i].name != segs[j].name
    ensures segs[k].name in IndexOf(segs, ids) && IndexOf(segs, ids)[segs[k].name] == ids[k]
  {
    if k < |segs| - 1 {
      IndexFinds(segs[..|segs| - 1], ids[..|ids| - 1], k);
    }
  }

  lemma {:induction false} IndexInRange(segs: seq<Segment>, ids: seq<nat>, name: string)
    requires |segs| == |ids| && name in IndexOf(segs, ids)
    ensures IndexOf(segs, ids)[name] in ids
  {
    if name != segs[|segs| - 1].name {
      IndexInRange(segs[..|segs| - 1], ids[..|ids| - 1], name);
    }
  }

  lemma {:induction false} ScanInRange(segs: seq<Segment>, ids: seq<nat>, name: string)
    requires |segs| == |ids|
    ensures FindIn(segs, ids, name).Some? ==> FindIn(segs, ids, name).value in ids
  {
    if segs != [] && segs[0].name != name {
      ScanInRange(segs[1..], ids[1..], name);
    }
  }

  lemma WindowFound(maxSegments: nat, m: Muxer)
    requires Windowed(maxSegments, m)
    ensures FindsWindow(m)
  {
    hide Render, IndexOf, FindIn;
    forall name | Find(m, name).Some? ensures Find(m, name).value in m.segments {
      if name in m.segIndex {
        IndexInRange(Window(m), m.segments, name);
      } else {
        ScanInRange(Window(m), m.segments, name);
      }
    }
  }

  /**
   The uri of every window entry, in the video and in the subtitle playlist, is served by the very segment the entry
   describes.
   */
  lemma UriResolves(maxSegments: nat, m: Muxer, k: nat)
    requires Windowed(maxSegments, m) && k < |m.segments|
    ensures var seg := m.store[m.segments[k]];
            && seg.name == Name(FirstNumber(m) + k)
            && Find(m, LookupName(seg.name)) == Some(m.segments[k])
            && Find(m, LookupName(SubsName(seg.name))) == Some(m.segments[k])
  {
    hide Render, IndexOf, Name, LookupName, SubsName, FindIn;
    var w := Window(m);
    forall i, j | 0 <= i < j < |w| ensures w[i].name != w[j].name {
      if w[i].name == w[j].name {
        NameInjective(m.segments[i] + 1, m.segments[j] + 1);
      }
    }
    IndexFinds(w, m.segments, k);
    LookupNames(m.segments[k] + 1);
  }

  lemma {:induction false} IndexNames(segs: seq<Segment>, ids: seq<nat>, name: string)
    requires |segs| == |ids|
    ensures name in IndexOf(segs, ids) <==> exists k :: 0 <= k < |segs| && segs[k].name == name
  {
    if segs == [] {
    } else {
      var n := |segs| - 1;
      IndexNames(segs[..n], ids[..n], name);
      assert name in IndexOf(segs, ids) <==> name in IndexOf(segs[..n], ids[..n]) || name == segs[n].name;
      assert (exists k :: 0 <= k < n && segs[..n][k].name == name)
        <==> (exists k :: 0 <= k < n && segs[k].name == name);
    }
  }

  lemma {:induction false} ScanNames(segs: seq<Segment>, ids: seq<nat>, name: string)
    requires |segs| == |ids| && forall k :: 0 <= k < |segs| ==> segs[k].name != name
    ensures FindIn(segs, ids, name).None?
  {
    if segs == [] {
    } else {
      ScanNames(segs[1..], ids[1..], name);
    }
  }

  /** A name that no segment of the window bears finds nothing, in the index and in the scan. */
  lemma StrangerNotFound(maxSegments: nat, m: Muxer, name: string)
    requires Windowed(maxSegments, m) && forall k :: 0 <= k < |m.segments| ==> m.store[m.segments[k]].name != name
    ensures Find(m, name).None?
  {
    hide Render, IndexOf, FindIn, Name;
    var w := Window(m);
    IndexNames(w, m.segments, name);
    ScanNames(w, m.segments, name);
  }

  /**
   What a request finds, for every number: the segment of that number, asked for as .ts or as .vtt, as long as it is
   in the window, and nothing once it has been evicted or before it exists.
   */
  lemma FoundExactly(maxSegments: nat, m: Muxer, n: nat)
    requires Windowed(maxSegments, m)
    ensures var found := if FirstNumber(m) <= n <= m.seqCount then Some((n - 1) as nat) else None;
            Find(m, LookupName(Name(n))) == found && Find(m, LookupName(SubsName(Name(n)))) == found
  {
    LookupNames(n);
    hide Render, IndexOf, Name, LookupName, SubsName, FindIn, Find;
    if FirstNumber(m) <= n <= m.seqCount {
      UriResolves(maxSegments, m, n - FirstNumber(m));
    } else {
      forall k | 0 <= k < |m.segments| ensures m.store[m.segments[k]].name != Name(n) {
        if Name(m.segments[k] + 1) == Name(n) {
          NameInjective(m.segments[k] + 1, n);
        }
      }
      StrangerNotFound(maxSegments, m, Name(n));
    }
  }

  // ---------------------------------------------------------------------------------------------
  // Reading a playlist

  /** A client's view of one media segment (section 4.3.2 of RFC 8216). */
  datatype Media = Media(discontinuity: bool, duration: int, uri: string)

  function ReadMedia(lines: seq<Line>, discontinuity: bool): seq<Media> {
    if lines == [] then []
    else if lines[0].Discontinuity? then ReadMedia(lines[1..], true)
    else if lines[0].ExtInf? && |lines| > 1 && lines[1].Uri? then
      [Media(discontinuity, lines[0].duration, lines[1].name)] + ReadMedia(lines[2..], false)
    else ReadMedia(lines[1..], discontinuity)
  }

  function Shown(seg: Segment, subs: bool): Media {
    Media(seg.isDiscontinuity, seg.duration, if subs then SubsName(seg.name) else seg.name)
  }

  lemma ReadEntry(seg: Segment, subs: bool, rest: seq<Line>)
    ensures ReadMedia(Entry(seg, Shown(seg, subs).uri) + rest, false) == [Shown(seg, subs)] + ReadMedia(rest, false)
  {
    hide SubsName;
    var uri := Shown(seg, subs).uri;
    var pair := [ExtInf(seg.duration), Uri(uri)];
    assert (pair + rest)[2..] == rest;
    if seg.isDiscontinuity {
      assert Entry(seg, uri) + rest == [Discontinuity] + (pair + rest);
      assert ([Discontinuity] + (pair + rest))[1..] == pair + rest;
    } else {
      assert Entry(seg, uri) + rest == pair + rest;
    }
  }

  lemma {:induction false} ReadEntries(segs: seq<Segment>, subs: bool)
    ensures |ReadMedia(Entries(segs, subs), false)| == |segs|
    ensures forall k :: 0 <= k < |segs| ==> ReadMedia(Entries(segs, subs), false)[k] == Shown(segs[k], subs)
  {
    hide SubsName, Entry, ReadMedia;
    if segs == [] {
      ReadNothing();
    } else {
      ReadEntry(segs[0], subs, Entries(segs[1..], subs));
      ReadEntries(segs[1..], subs);
    }
  }

  lemma ReadNothing()
    ensures ReadMedia([], false) == []
  {
  }

  /** The largest whole second of a segment bounds the target duration line. */
  lemma {:induction false} MaxSecondsCovers(segs: seq<Segment>, k: nat)
    requires k < |segs|
    ensures Seconds(segs[k].duration) <= MaxSeconds(segs)
  {
    if k < |segs| - 1 {
      MaxSecondsCovers(segs[..|segs| - 1], k);
    }
  }

  /** A client's reading of a cached playlist. */
  ghost predicate Tells(m: Muxer, lines: seq<Line>, subs: bool)
    requires InStore(m) && Consecutive(m)
  {
    && |lines| >= 4 && lines[0] == ExtM3U && lines[1] == Version(3) && lines[3] == MediaSequence(FirstNumber(m))
    && lines[2].TargetLine? && JustAbove(lines[2].n - 1, Window(m))
    && var media := ReadMedia(lines[4..], false);
    && |media| == |m.segments|
    && forall k :: 0 <= k < |media| ==>
         && media[k] == Shown(m.store[m.segments[k]], subs)
         && m.store[m.segments[k]].name == Name(FirstNumber(m) + k)
         && RoundedSeconds(media[k].duration) <= lines[2].n
  }

  /** `n` is the longest duration in whole seconds, or 2 if that is less. */
  ghost predicate JustAbove(n: int, segs: seq<Segment>) {
    && n >= 2 && (forall k :: 0 <= k < |segs| ==> Seconds(segs[k].duration) <= n)
    && (n == 2 || exists k :: 0 <= k < |segs| && Seconds(segs[k].duration) == n)
  }

  lemma {:induction false} MaxSecondsAttained(segs: seq<Segment>)
    ensures JustAbove(MaxSeconds(segs), segs)
  {
    hide Seconds;
    if segs == [] {
    } else {
      var n := |segs| - 1;
      MaxSecondsAttained(segs[..n]);
      if MaxSeconds(segs) != 2 && MaxSeconds(segs) == MaxSeconds(segs[..n]) {
        var k :| 0 <= k < n && Seconds(segs[..n][k].duration) == MaxSeconds(segs[..n]);
        assert Seconds(segs[k].duration) == MaxSeconds(segs);
      }
      assert forall k :: 0 <= k < n ==> segs[..n][k] == segs[k];
    }
  }

  /** A duration rounded to the nearest second, as section 4.3.3.1 of RFC 8216 compares it. */
  function RoundedSeconds(d: int): int {
    (d + SECOND / 2) / SECOND
  }

  /**
   While the window is not empty, both cached playlists read as the window: EXT-X-MEDIA-SEQUENCE is the number of its
   first segment, the k-th entry is the segment with that number plus k, and EXT-X-TARGETDURATION is one more than the
   longest duration in whole seconds, which is at least every rounded duration.
   */
  lemma PlaylistsTell(maxSegments: nat, m: Muxer)
    requires Windowed(maxSegments, m) && m.segments != []
    ensures m.playlist.Some? && Tells(m, m.playlist.value, false)
    ensures m.subsPlaylist.Some? && Tells(m, m.subsPlaylist.value, true)
  {
    RenderTells(maxSegments, m, false);
    RenderTells(maxSegments, m, true);
  }

  lemma RenderTells(maxSegments: nat, m: Muxer, subs: bool)
    requires Windowed(maxSegments, m)
    ensures Tells(m, Render(Window(m), m.seqCount, subs), subs)
  {
    hide SubsName, Entries, ReadMedia, Name, IndexOf, MaxSeconds, Seconds, RoundedSeconds;
    var w := Window(m);
    var lines := Render(w, m.seqCount, subs);
    assert lines[4..] == Entries(w, subs);
    ReadEntries(w, subs);
    MaxSecondsAttained(w);
    forall k | 0 <= k < |w| ensures RoundedSeconds(w[k].duration) <= MaxSeconds(w) + 1 {
      MaxSecondsCovers(w, k);
      RoundingUp(w[k].duration);
    }
  }

  lemma RoundingUp(d: int)
    ensures RoundedSeconds(d) <= Seconds(d) + 1
  {
  }

  // ---------------------------------------------------------------------------------------------
  // Every run

  /**
   In every reachable state: the window holds the newest segments, consecutively numbered, exactly as many as there
   are up to `maxSegments` (none after Stop), index and playlists agree with it, every reference count is the
   window's share plus the outstanding holders, each pooled buffer has one owner, and whoever holds a segment reads
   the data it was closed with.
   */
  lemma {:induction false} EveryRun(maxSegments: nat, ops: seq<Op>)
    requires maxSegments > 0
    ensures Windowed(maxSegments, Run(maxSegments, ops)) && Owned(Run(maxSegments, ops))
  {
    if ops == [] {
    } else {
      var m := Run(maxSegments, ops[..|ops| - 1]);
      EveryRun(maxSegments, ops[..|ops| - 1]);
      hide Windowed, Owned, Step;
      WindowFound(maxSegments, m);
      StepOwned(maxSegments, m, ops[|ops| - 1]);
      StepSlides(maxSegments, m, ops[|ops| - 1]);
    }
  }

  lemma {:induction false} FirstNumberGrows(maxSegments: nat, ops: seq<Op>, n: nat)
    requires maxSegments > 0 && n <= |ops|
    ensures FirstNumber(Run(maxSegments, ops[..n])) <= FirstNumber(Run(maxSegments, ops))
  {
    if n == |ops| {
      assert ops[..n] == ops;
    } else {
      var init := ops[..|ops| - 1];
      FirstNumberGrows(maxSegments, init, n);
      assert init[..n] == ops[..n];
      EveryRun(maxSegments, init);
      hide Windowed, Step;
      StepSlides(maxSegments, Run(maxSegments, init), ops[|ops| - 1]);
    }
  }

  /** The EXT-X-MEDIA-SEQUENCE that a client reads in a playlist. */
  ghost predicate Announces(playlist: Option<seq<Line>>, number: int) {
    playlist.Some? && |playlist.value| >= 4 && playlist.value[3] == MediaSequence(number)
  }

  /**
   EXT-X-MEDIA-SEQUENCE never decreases (section 6.2.2 of RFC 8216): of any two playlists a run publishes, video or
   subtitles, the later one announces a number at least as large.
   */
  lemma MediaSequenceGrows(maxSegments: nat, ops: seq<Op>, n: nat)
    requires maxSegments > 0 && n <= |ops|
    ensures var a, b := Run(maxSegments, ops[..n]), Run(maxSegments, ops);
            && (a.segments != [] ==> Announces(a.playlist, FirstNumber(a)) && Announces(a.subsPlaylist, FirstNumber(a)))
            && (b.segments != [] ==> Announces(b.playlist, FirstNumber(b)) && Announces(b.subsPlaylist, FirstNumber(b)))
            && FirstNumber(a) <= FirstNumber(b)
  {
    hide Run, Windowed, Announces;
    FirstNumberGrows(maxSegments, ops, n);
    EveryRun(maxSegments, ops[..n]);
    EveryRun(maxSegments, ops);
    PlaylistAnnounces(maxSegments, Run(maxSegments, ops[..n]));
    PlaylistAnnounces(maxSegments, Run(maxSegments, ops));
  }

  lemma PlaylistAnnounces(maxSegments: nat, m: Muxer)
    requires Windowed(maxSegments, m)
    ensures m.segments != [] ==> Announces(m.playlist, FirstNumber(m)) && Announces(m.subsPlaylist, FirstNumber(m))
  {
    hide ReadMedia;
    if m.segments != [] {
      PlaylistsTell(maxSegments, m);
    }
  }

  /**
   A holder's data is stable: from the moment a segment exists, as long as someone holds it or the window does, reading
   it gives the frames it was closed with, whatever happens to the pool in between.
   */
  lemma {:induction false} HolderReadsOriginal(maxSegments: nat, ops: seq<Op>, n: nat, id: nat)
    requires maxSegments > 0 && n <= |ops| && id < |Run(maxSegments, ops[..n]).store|
    ensures var m := Run(maxSegments, ops);
            && id < |m.store|
            && m.store[id].frames == Run(maxSegments, ops[..n]).store[id].frames
            && (m.held[id] > 0 || id in m.segments ==> Data(m, id) == m.store[id].frames)
  {
    EveryRun(maxSegments, ops);
    assert Owned(Run(maxSegments, ops));
    if n == |ops| {
      assert ops[..n] == ops;
    } else {
      var init := ops[..|ops| - 1];
      assert init[..n] == ops[..n];
      HolderReadsOriginal(maxSegments, init, n, id);
      hide Step;
      StepExtends(maxSegments, Run(maxSegments, init), ops[|ops| - 1]);
    }
    assert id < |Run(maxSegments, ops).store| ==> SegmentSound(Run(maxSegments, ops), id);
  }
}
