/**
 The live HLS muxer as a state machine (internal/hls/muxer.go).

 Segments and pooled buffers are identified by numbers, so that several holders of one object are explicit: a
 segment by its position in `store`, a buffer by its position in `contents`. A buffer's content is the list of
 frames muxed into it. What sync.Pool hands out is an input.
 */
module HlsSpec {
  import opened Frames

  const TARGET_DURATION := 2_000_000_000
  const SECOND := 1_000_000_000

  datatype Segment = Segment(
    name: string,
    duration: int,
    isDiscontinuity: bool,
    refCount: int,
    buf: Option<nat>,       // the pooled buffer whose bytes are the segment's data
    copied: seq<Frame>,     // the data of a watchdog segment, which has no pooled buffer
    genuine: bool,          // cut from frames, not added by the watchdog
    frames: seq<Frame>)     // the frames it was closed with

  datatype Current = Current(buf: nat, start: int)

  datatype Line =
    | ExtM3U
    | Version(n: int)
    | TargetLine(n: int)
    | MediaSequence(n: int)
    | Discontinuity
    | ExtInf(duration: int)
    | Uri(name: string)

  datatype Muxer = Muxer(
    store: seq<Segment>,           // every segment ever created
    segments: seq<nat>,            // the window
    segIndex: map<string, nat>,
    seqCount: nat,
    needsDiscontinuity: bool,
    playlist: Option<seq<Line>>,
    subsPlaylist: Option<seq<Line>>,
    current: Option<Current>,
    contents: seq<seq<Frame>>,
    pool: multiset<nat>,
    held: seq<nat>,                // references handed out by AcquireSegment and not yet released
    recycling: set<nat>,           // released for the last time, buffer not yet back in the pool
    stopped: bool,
    received: seq<Frame>)

  const INITIAL := Muxer([], [], map[], 0, false, None, None, None, [], multiset{}, [], {}, false, [])

  datatype Op =
    | OnFrame(f: Frame, paramsChanged: bool, reuse: Option<nat>)
    | Watchdog(stale: bool)
    | Acquire(name: string)
    | Drop(id: nat)        // the decrement in a holder's Release
    | Recycle(id: nat)     // what the last Release does after its decrement
    | PoolForgets(b: nat)  // sync.Pool may drop an idle buffer
    | Stop

  // ---------------------------------------------------------------------------------------------
  // Names

  function Digit(d: nat): char
    requires d < 10
  {
    ('0' as int + d) as char
  }

  function Decimal(n: nat): string {
    if n < 10 then [Digit(n)] else Decimal(n / 10) + [Digit(n % 10)]
  }

  function Name(n: nat): string {
    "stream_" + Decimal(n) + ".ts"
  }

  /** The name a request for a .ts or .vtt file looks up. */
  function LookupName(name: string): string {
    if |name| > 4 && name[|name| - 4..] == ".vtt" then name[..|name| - 4] + ".ts" else name
  }

  function SubsName(name: string): string {
    (if |name| > 3 then name[..|name| - 3] else "") + ".vtt"
  }

  // ---------------------------------------------------------------------------------------------
  // Playlists

  function Max(a: int, b: int): int {
    if a >= b then a else b
  }

  /** int(seg.Duration.Seconds()): whole seconds, truncated toward zero. */
  function Seconds(d: int): int {
    if d >= 0 then d / SECOND else -((-d) / SECOND)
  }

  function MaxSeconds(segs: seq<Segment>): int {
    if segs == [] then 2 else Max(MaxSeconds(segs[..|segs| - 1]), Seconds(segs[|segs| - 1].duration))
  }

  function Entry(seg: Segment, uri: string): seq<Line> {
    (if seg.isDiscontinuity then [Discontinuity] else []) + [ExtInf(seg.duration), Uri(uri)]
  }

  function Entries(segs: seq<Segment>, subs: bool): seq<Line> {
    if segs == [] then []
    else Entry(segs[0], if subs then SubsName(segs[0].name) else segs[0].name) + Entries(segs[1..], subs)
  }

  function Render(segs: seq<Segment>, seqCount: nat, subs: bool): seq<Line> {
    [ExtM3U, Version(3), TargetLine(MaxSeconds(segs) + 1), MediaSequence(seqCount - |segs| + 1)] + Entries(segs, subs)
  }

  function Window(m: Muxer): seq<Segment>
    requires forall k :: 0 <= k < |m.segments| ==> m.segments[k] < |m.store|
  {
    seq(|m.segments|, k requires 0 <= k < |m.segments| => m.store[m.segments[k]])
  }

  function IndexOf(segs: seq<Segment>, ids: seq<nat>): map<string, nat>
    requires |segs| == |ids|
  {
    if segs == [] then map[]
    else IndexOf(segs[..|segs| - 1], ids[..|ids| - 1])[segs[|segs| - 1].name := ids[|ids| - 1]]
  }

  ghost predicate InStore(m: Muxer) {
    && |m.held| == |m.store|
    && forall k :: 0 <= k < |m.segments| ==> m.segments[k] < |m.store|
  }

  /** rebuildPlaylistsLocked */
  function Rebuild(m: Muxer): (r: Muxer)
    requires InStore(m)
    ensures InStore(r)
  {
    var segs := Window(m);
    if segs == [] then m.(segIndex := map[])
    else m.(segIndex := IndexOf(segs, m.segments),
            playlist := Some(Render(segs, m.seqCount, false)),
            subsPlaylist := Some(Render(segs, m.seqCount, true)))
  }

  // ---------------------------------------------------------------------------------------------
  // Reference counts and buffers

  function Count(seg: Segment, delta: int): Segment {
    seg.(refCount := seg.refCount + delta)
  }

  /** The decrement of Release. */
  function Decrement(m: Muxer, id: nat): (r: Muxer)
    requires id < |m.store|
    ensures InStore(m) ==> InStore(r)
  {
    var seg := Count(m.store[id], -1);
    m.(store := m.store[id := seg], recycling := if seg.refCount == 0 then m.recycling + {id} else m.recycling)
  }

  /** The rest of the last Release: the buffer is reset and put into the pool. */
  function RecycleIfDue(m: Muxer, id: nat): (r: Muxer)
    ensures InStore(m) ==> InStore(r)
  {
    if id !in m.recycling || id >= |m.store| then m
    else
      var rest := m.(recycling := m.recycling - {id});
      match m.store[id].buf
      case None => rest
      case Some(b) =>
        rest.(store := m.store[id := m.store[id].(buf := None)],
              contents := if b < |m.contents| then m.contents[b := []] else m.contents,
              pool := m.pool + multiset{b})
  }

  /** The window lets go of its oldest segment. */
  function Evict(m: Muxer): (r: Muxer)
    requires m.segments != [] && m.segments[0] < |m.store|
    ensures InStore(m) ==> InStore(r)
  {
    Decrement(m.(segments := m.segments[1..]), m.segments[0])
  }

  function EvictAndRecycle(m: Muxer): (r: Muxer)
    requires m.segments != [] && m.segments[0] < |m.store|
    ensures InStore(m) ==> InStore(r)
  {
    RecycleIfDue(Evict(m), m.segments[0])
  }

  /** A new segment joins the window with one reference, held by the window. */
  function Publish(m: Muxer, duration: int, disc: bool, buf: Option<nat>, copied: seq<Frame>,
                   frames: seq<Frame>): (r: Muxer)
    ensures InStore(m) ==> InStore(r)
  {
    var seg := Segment(Name(m.seqCount + 1), duration, disc, 1, buf, copied, buf.Some?, frames);
    m.(seqCount := m.seqCount + 1, store := m.store + [seg], held := m.held + [0], segments := m.segments + [|m.store|])
  }

  function Trim(m: Muxer, maxSegments: nat): (r: Muxer)
    requires InStore(m)
    ensures InStore(r)
  {
    if |m.segments| > maxSegments then EvictAndRecycle(m) else m
  }

  /** The bytes a holder of segment `id` reads. */
  function Data(m: Muxer, id: nat): seq<Frame>
    requires id < |m.store|
  {
    var seg := m.store[id];
    if seg.buf.None? then seg.copied
    else if seg.buf.value < |m.contents| then m.contents[seg.buf.value] else []
  }

  // ---------------------------------------------------------------------------------------------
  // The operations

  /** The current buffer becomes the data of a new segment. */
  function Cut(m: Muxer, f: Frame): (r: Muxer)
    requires InStore(m) && m.current.Some?
    ensures InStore(r)
  {
    var c := m.current.value;
    var data := if c.buf < |m.contents| then m.contents[c.buf] else [];
    Publish(m.(current := None), f.timestamp - c.start, m.needsDiscontinuity, Some(c.buf), [], data)
    .(needsDiscontinuity := false)
  }

  function CloseCurrent(maxSegments: nat, m: Muxer, f: Frame): (r: Muxer)
    requires InStore(m) && m.current.Some?
    ensures InStore(r)
  {
    Finish(maxSegments, Cut(m, f))
  }

  function Finish(maxSegments: nat, m: Muxer): (r: Muxer)
    requires InStore(m)
    ensures InStore(r)
  {
    Rebuild(Trim(m, maxSegments))
  }

  function TakeBuffer(m: Muxer, f: Frame, reuse: Option<nat>): (r: Muxer)
    ensures InStore(m) ==> InStore(r)
  {
    if reuse.Some? && reuse.value in m.pool && reuse.value < |m.contents| then
      m.(pool := m.pool - multiset{reuse.value}, contents := m.contents[reuse.value := []],
         current := Some(Current(reuse.value, f.timestamp)))
    else
      m.(contents := m.contents + [[]], current := Some(Current(|m.contents|, f.timestamp)))
  }

  function MuxFrame(m: Muxer, f: Frame): (r: Muxer)
    ensures InStore(m) ==> InStore(r)
  {
    if m.current.Some? && m.current.value.buf < |m.contents| then
      m.(contents := m.contents[m.current.value.buf := m.contents[m.current.value.buf] + [f]])
    else m
  }

  predicate Due(m: Muxer, f: Frame) {
    m.current.Some? && f.isKeyFrame && f.timestamp - m.current.value.start >= TARGET_DURATION
  }

  function HandleFrame(maxSegments: nat, m: Muxer, f: Frame, paramsChanged: bool, reuse: Option<nat>): (r: Muxer)
    requires InStore(m)
    ensures InStore(r)
  {
    var m0 := m.(received := m.received + [f],
                 needsDiscontinuity := m.needsDiscontinuity || (f.isKeyFrame && paramsChanged));
    var m1 := if Due(m0, f) then CloseCurrent(maxSegments, m0, f) else m0;
    var m2 := if m1.current.None? && f.isKeyFrame then TakeBuffer(m1, f, reuse) else m1;
    MuxFrame(m2, f)
  }

  /** CheckWatchdog: when no frame has come for five seconds, the last segment is repeated. */
  function RepeatLast(maxSegments: nat, m: Muxer): (r: Muxer)
    requires InStore(m)
    ensures InStore(r)
  {
    if m.segments == [] then m
    else
      var last := m.segments[|m.segments| - 1];
      var data := Data(m, last);
      Finish(maxSegments, Publish(m, m.store[last].duration, true, None, data, data)).(needsDiscontinuity := true)
  }

  /** The segment a request finds: by the index, else by a scan of the window. */
  function Find(m: Muxer, name: string): Option<nat>
    requires InStore(m)
  {
    if name in m.segIndex then Some(m.segIndex[name]) else FindIn(Window(m), m.segments, name)
  }

  function FindIn(segs: seq<Segment>, ids: seq<nat>, name: string): Option<nat>
    requires |segs| == |ids|
  {
    if segs == [] then None
    else if segs[0].name == name then Some(ids[0])
    else FindIn(segs[1..], ids[1..], name)
  }

  function Retain(m: Muxer, id: nat): (r: Muxer)
    requires id < |m.store| == |m.held|
    ensures InStore(m) ==> InStore(r)
  {
    m.(store := m.store[id := Count(m.store[id], 1)], held := m.held[id := m.held[id] + 1])
  }

  function ReleaseHeld(m: Muxer, id: nat): (r: Muxer)
    requires id < |m.store| == |m.held| && m.held[id] > 0
    ensures InStore(m) ==> InStore(r)
  {
    Decrement(m.(held := m.held[id := m.held[id] - 1]), id)
  }

  function ReleaseAll(m: Muxer): (r: Muxer)
    requires InStore(m)
    ensures InStore(r) && r.segments == []
    decreases |m.segments|
  {
    if m.segments == [] then m else ReleaseAll(EvictAndRecycle(m))
  }

  function Step(maxSegments: nat, m: Muxer, op: Op): (r: Muxer)
    requires InStore(m)
    ensures InStore(r)
  {
    match op
    case OnFrame(f, changed, reuse) => if m.stopped then m else HandleFrame(maxSegments, m, f, changed, reuse)
    case Watchdog(stale) => if stale then RepeatLast(maxSegments, m) else m
    case Acquire(name) =>
      var id := Find(m, LookupName(name));
      if id.Some? && id.value < |m.store| then Retain(m, id.value) else m
    case Drop(id) => if id < |m.store| && m.held[id] > 0 then ReleaseHeld(m, id) else m
    case Recycle(id) => RecycleIfDue(m, id)
    case PoolForgets(b) => m.(pool := m.pool - multiset{b})
    case Stop => ReleaseAll(m).(segIndex := map[], current := None, stopped := true)
  }

  function Run(maxSegments: nat, ops: seq<Op>): (m: Muxer)
    ensures InStore(m)
  {
    if ops == [] then INITIAL else Step(maxSegments, Run(maxSegments, ops[..|ops| - 1]), ops[|ops| - 1])
  }
}
