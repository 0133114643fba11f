# Verified models of the ruseon-core video server

Dafny models of the parts of ruseon-core where frames, bytes and counters can get lost, and proofs of what those parts
promise. `dafny verify dfyconfig.toml` checks the whole project.

The path of a frame gives the layout.

- **Ring buffer** (`Frames`, `RingSpec`, `RingLoss`, `RingBuffer`): a circular history, a non-blocking broadcast to bounded channels and
  keyframe resynchronisation. `RingSpec` is a state machine over the whole write log; the class keeps only the circular array
  and is proved to make the same steps.
- **Recorder** (`RecorderSpec`, `RecorderRuns`, `RecorderGops`, `RecorderTimes`, `Recorder`): one-GOP fragments, durations
  assigned one frame late, rotation and storage failures.
- **fMP4 files** (`Boxes`, `Archive`, `Recordings`, `Recovery`): three independent walkers over box files, as bytes with a seek
  position: the indexer, the clip exporter and the crash validator.
- **Live HLS** (`HlsSpec`, `HlsOwnership`, `HlsWindow`, `HlsCut`, `HlsMarks`, `HlsPool`, `HlsMuxer`): segmentation, the
  sliding window and its playlists, discontinuities, reference-counted pooled buffers, the watchdog, WebVTT cue times.
- **WebCodecs socket** (`WebCodecs`, `Packets`): the server's packets and the browser's parser.
- **Timestamps** (`Timestamps`): RTP unwrapping and the 90 kHz conversions.
- **UDP batcher** (`BatcherSpec`, `Batcher`) and **billing** (`BillingSpec`, `BillingFlush`, `Billing`): conservation
  over whole histories, and exactly when billing fails to conserve.
- **Detector post-processing** (`Detector`, `Tracker`): non-maximum suppression and the ageing tracker, over `real`.
- **Together** (`Pipeline`): from the ring through the recorder to the disk, and through a power failure.

Lock-protected calls are atomic steps. Time, storage outcomes, what sync.Pool hands out, socket answers and the order in which
a Go map is traversed are inputs, so every theorem holds for all of them. A `...Spec` module holds a state machine on values; the
module beside it holds the code in the source's form (classes updated in place, loops), whose methods are proved to make
exactly the steps of the machine, and the remaining modules prove what holds over every sequence of steps.

## Where code and documentation disagree

The models follow the code.

- `RTP90kToDuration` is documented to clamp cleanly at the largest duration. In the last 13070 ticks of second 9223372036 the sum
  wraps around to a negative duration instead: `Timestamps.ClampsExactly` gives the exact condition, `OverflowExample` an input.
- `BatchUpdateTraffic` commits chunks of 200. When a later chunk fails, the worker keeps its whole pending map and charges the
  committed cameras again. `BillingFlush.OverchargesExactly` says when a tick can do that, in terms of what is pending before
  the flush; `DoubleBilling` is a history of 201 cameras.
- Annex-B framing cannot carry a unit that contains 00 00 00 01; `WebCodecs.ConvertExact` is an equivalence.
- The indexer loses step after a moof whose mdat is missing: `Recordings.InStepExact` says exactly when, `FragmentLost` what is
  lost, and `OrphanExample` and `Recovery.AcceptedWithoutFragment` give files.
- A failing write marks a recording as corrupted, except the last write at exit, whose error is dropped:
  `RecorderSpec.ExitSound` says what it leaves, and `ExitFates` is an equivalence.
- A codec change marks the first segment closed from its keyframe on, which starts before the change, not the segment that
  starts with it: `HlsMarks.MarkedExactly`.

## Model

| member | source | states |
|---|---|---|
| RingSpec.EveryRunDecodable | internal/buffer/ring.go:83-118 | in every reachable state each reader's received frames followed by its channel are gap-free runs of the write log in order, each starting at a keyframe unless the reader subscribed before any write and starts at position 0; skips are at most the counted drops; the global drop counter is the sum over all readers ever created |
| RingLoss.DeliveredExactly | internal/buffer/ring.go:98-117 | for every write of every run while a reader is registered: a keyframe reaches it if and only if its channel has room, any other frame if and only if there is room and it does not wait; so a reader that lost frames resumes at the first keyframe it has room for |
| RingLoss.WaitsExactly | internal/buffer/ring.go:99-115 | in every run a registered reader waits for a keyframe if and only if a frame found its channel full since the last one it was given, or it joined late and was given none |
| RingLoss.DropsExactly | internal/buffer/ring.go:106-116 | the drop counter is exactly the number of frames due to the reader that found its channel full |
| RingLoss.RegisteredExactly | internal/buffer/ring.go:156-169 | in every run a reader is registered as long as neither it nor the ring is closed, and once the ring is closed exactly the channels of readers that had not closed themselves are closed, so that they read the end of the stream |
| RingLoss.LogIsWrites | internal/buffer/ring.go:83-95 | the log is exactly what was written before the first Close |
| RingLoss.ReceiveTakes | internal/buffer/ring.go:259-269 | a receive moves the oldest buffered frame to the consumer, once, and concerns no other reader |
| RingSpec.StepKeepsInv | internal/buffer/ring.go:79-250 | every operation (write, subscribe, receive, reader close, ring close) keeps that invariant, and after the ring is closed nobody is registered |
| RingSpec.Isolated | internal/buffer/ring.go:98-117 | a reader's whole state in any interleaving is the one it has on a ring that sees the same writes and serves no other reader |
| RingSpec.NoLagNoLoss | internal/buffer/ring.go:106-116 | a reader with room at every write is never dropped and, while registered, has received or buffered the whole log from where its stream starts; it has no stream only as long as nothing was written after it subscribed that it could start from |
| RingSpec.EveryRunStarts | internal/buffer/ring.go:97-117 | in every run every reader's stream starts at its preload's keyframe, or at position 0 if it subscribed before any write, or at the first keyframe written after it subscribed |
| RingSpec.PreloadIsNewestGop | internal/buffer/ring.go:200-228 | a late subscriber's preload is the newest stretch of the log that starts at its only keyframe, if it lies within the ring; otherwise nothing, and it waits for a keyframe unless nothing was written |
| RingSpec.LatestKey | internal/buffer/ring.go:180-198 | the newest keyframe among the last `capacity` log entries, or -1 when they hold none |
| RingSpec.GatedConsumer | internal/api/ws.go:178-184 | a consumer that discards frames until its first keyframe sees only runs that start at keyframes, early subscribers included |
| RingBuffer.RingBuffer.constructor | internal/buffer/ring.go:53-66 | an empty ring; a capacity of 0 or less means 100 |
| RingBuffer.RingBuffer.Write | internal/buffer/ring.go:83-118 | makes the Write step of the state machine and keeps array, registration and channels consistent; after Close it does nothing |
| RingBuffer.RingBuffer.Store | internal/buffer/ring.go:91-95 | the array keeps holding the last `capacity` log entries at their positions modulo the capacity |
| RingBuffer.RingBuffer.Broadcast | internal/buffer/ring.go:97-117 | every registered reader gets, skips or loses the frame by the delivery rule, all others are untouched, and the drop counter grows by the drops |
| RingBuffer.RingBuffer.Offer | internal/buffer/ring.go:99-116 | one reader's delivery; the channel is open, so the send cannot panic |
| RingBuffer.RingBuffer.FindLastIFrame | internal/buffer/ring.go:182-198 | the search through the circular array finds the newest keyframe of the log that is still held, or reports that there is none |
| RingBuffer.RingBuffer.Subscribe | internal/buffer/ring.go:203-233 | makes the Subscribe step; on a closed ring the new channel is closed |
| RingBuffer.RingBuffer.Preload | internal/buffer/ring.go:217-228 | the channel is filled with the log from the newest held keyframe; each send has room, so none blocks under the lock |
| RingBuffer.RingBuffer.Enlist | internal/buffer/ring.go:230-231 | set and slice both gain exactly the new reader, unless the ring is closed |
| RingBuffer.RingBuffer.Close | internal/buffer/ring.go:156-169 | makes the Close step: each registered channel is closed once, nobody stays registered |
| RingBuffer.RingBuffer.CloseChannels | internal/buffer/ring.go:164-166 | every registered channel is closed, none twice, no other one is touched |
| RingBuffer.Reader.Read | internal/buffer/ring.go:259-269 | takes the oldest buffered frame; end of file exactly when the channel is closed and drained; a cancelled read takes nothing |
| RingBuffer.Reader.Close | internal/buffer/ring.go:236-250 | removes exactly this reader from set and slice; a second call does nothing |
| RingBuffer.Reader.TrySend | internal/buffer/ring.go:107-116 | succeeds exactly when the channel has room |
| RingBuffer.Reader.Send | internal/buffer/ring.go:223 | a send into an open channel with room appends the frame |
| Archive.ReadBoxHeader | internal/archive/hls.go:146-154 | type and size of the header at the position, or failure on fewer than eight bytes, and where the position is left |
| Archive.MeasureInit | internal/archive/hls.go:174-195 | the size of the boxes before the first moof, for every content |
| Archive.ScanBox | internal/archive/hls.go:203-272 | what one iteration of the parts loop does and where it leaves the position, for every content |
| Archive.ScanParts | internal/archive/hls.go:203-273 | the loop computes the recursive scan of the remaining bytes |
| Archive.GetFileIndex | internal/archive/hls.go:157-278 | the index of any file, well-formed or not |
| Archive.PartsInFile | internal/archive/hls.go:262-265 | in every file the indexed offsets increase, lie behind the initialization bytes and inside the file |
| Archive.StopsExactly | internal/archive/hls.go:174-240 | on any bytes, exactly where both loops stop: at a header that is cut off, smaller than eight or over 64 MB, at a moof whose mdat header or body is cut off, and the first loop at a moof |
| Archive.ExportMP4 | internal/archive/export.go:12-71 | fails exactly when nothing is indexed; otherwise writes the initialization bytes and one contiguous stretch of the file for the clamped range; no copy runs short |
| Archive.ExportClamps | internal/archive/export.go:23-31 | on any file an end below zero or past the last fragment means the last one, a start below zero the first one, a start past the end the end |
| Archive.CopyParts | internal/archive/export.go:46-68 | the loop of part copies writes the stretch from the first part's offset to the end of the last |
| Archive.CopyN | internal/archive/export.go:63-67 | the requested bytes, or an error when the file ends first |
| Recordings.IndexExact | internal/archive/hls.go:157-278 | indexing a well-formed recording finds exactly its fragments, at their offsets and with their durations |
| Recordings.IndexedDurations | internal/archive/hls.go:236-260 | a fragment whose durations cannot be read counts as 90000 ticks, any other as the sum of its durations |
| Recordings.OrphanMoof | internal/archive/hls.go:227-266 | after a moof without its mdat the walk resumes right behind the header of the following box |
| Recordings.InStepExact | internal/archive/hls.go:203-272 | for every list of boxes up to 64 MB: one iteration ends where a box starts, or stops, if and only if it does not meet a moof followed by a box with a body that is not an mdat |
| Recordings.IndexFindsPairs | internal/archive/hls.go:157-278 | in every file made of such boxes, in any order, none of whose moofs is followed by anything but an mdat, exactly the moof/mdat pairs are indexed, at their offsets |
| Recordings.WalkFindsPairs | internal/archive/hls.go:203-273 | the same for the second loop from any offset |
| Recordings.FragmentLost | internal/archive/hls.go:227-266 | a fragment right after an orphaned moof is not indexed, whatever it contains and whatever follows |
| Recordings.OrphanExample | internal/archive/hls.go:227-266 | a file of moof, moof, mdat whose only fragment is not indexed |
| Recordings.ExportIsClip | internal/archive/export.go:12-71 | exporting a range of a well-formed recording writes the recording of exactly those fragments |
| Recordings.ExportInRange | internal/archive/export.go:46-68 | a range in bounds writes exactly the fragments from its start to its end |
| Recordings.FullExport | internal/archive/export.go:23-31 | exporting everything reproduces the file byte for byte |
| Recordings.ReindexClip | internal/archive/export.go:46-68 | re-indexing an exported clip gives the fragments of the range with the same durations, all offsets shifted by one constant |
| Recovery.ValidateFMP4File | internal/recorder/recovery.go:22-83 | for every content: accepts exactly the files of at least 32 bytes that boxes tile without remainder and that contain a moov, a moof and an mdat |
| Recovery.ParseSound | internal/recorder/recovery.go:41-73 | whatever the box loop walks through is the encoding of the boxes it sees |
| Recovery.ParseComplete | internal/recorder/recovery.go:41-73 | the encoding of any boxes is walked through and gives those boxes |
| Recovery.CrashAccepted | internal/recorder/recovery.go:34-82 | a recording cut after n bytes is accepted exactly when n is at least 32, on a box boundary, and covers the first moof and mdat |
| Recovery.IndexOfCut | internal/archive/hls.go:203-273 | wherever a recording is cut, exactly the fragments whose moof and mdat lie wholly inside the prefix are indexed |
| Recovery.AcceptedHasFragment | internal/recorder/recovery.go:85-88 | an accepted prefix still has at least one indexed fragment |
| Recovery.AcceptedWithoutFragment | internal/recorder/recovery.go:75-82 | a file the validator accepts and of which nothing is indexed: for files the recorder did not write, acceptance promises no fragment |
| Timestamps.TimestampUnwrapper.Unwrap | internal/rtsp/timestamp.go:27-51 | one step of the unwrapper and its output |
| Timestamps.StepExact | internal/rtsp/timestamp.go:38-50 | for all pairs of true times from the first block on, the output is the true time exactly when the half-range test can resolve the step |
| Timestamps.UnwrapsTimeline | internal/rtsp/timestamp.go:25-51 | along every timeline with steps below 2^31 that stays in or after its first 2^32 block, every output is the true time minus the start of that block |
| Timestamps.ClampsExactly | internal/rtsp/timestamp.go:53-63 | the conversion is exact and clamps at the largest duration if and only if the ticks are outside the last 13070 of second 9223372036, where it turns negative |
| Timestamps.ExactInRange | internal/rtsp/timestamp.go:58-62 | where neither clamping nor overflow occurs, the nanoseconds are exactly those of the ticks, rounded down |
| Timestamps.OverflowExample | internal/rtsp/timestamp.go:58-62 | a tick count in the last second that comes out negative |
| Timestamps.NanosMonotone | internal/rtsp/timestamp.go:55-63 | ticks in order give durations in order where nothing overflows |
| Timestamps.TicksOf | internal/rtsp/timestamp.go:67-71 | for every duration, negative ones included, the ticks are 9/100000 of the nanoseconds truncated toward zero |
| Timestamps.TicksMonotone | internal/rtsp/timestamp.go:67-71 | durations in order give ticks in order |
| Timestamps.TickRoundTrip | internal/rtsp/timestamp.go:55-71 | through nanoseconds and back, where neither clamping nor overflow occurs, t survives if 9 divides it and becomes t-1 otherwise |
| Timestamps.DifferenceOffByOne | internal/rtsp/timestamp.go:55-71 | in the same range any tick difference through both conversions is off by at most one |
| RecorderSpec.EveryRunSound | internal/recorder/recorder.go:148-327 | under arbitrary storage failures: fragments are numbered 1, 2, 3, ... per file, each is one GOP, durations lie in 1..450000, `partsWritten` counts the fragments of the open file, and each file the loop has closed is corrupted if and only if a write to it failed, else final if it has a fragment and deleted if it has none |
| RecorderSpec.ExitSound | internal/recorder/recorder.go:328-345 | at exit the open file gets the buffered samples as its last fragment and is final; if that write fails they are lost and the file is final all the same, or deleted when it has no fragment; files closed earlier are unchanged |
| RecorderSpec.ExitFates | internal/recorder/recorder.go:339-343 | all files of a run are corrupted exactly when a write to them failed if and only if no file was open at exit or the last write succeeded |
| RecorderSpec.FatesExact | internal/recorder/recorder.go:78-120 | for any storage behaviour, a frame leaves a corrupted file if and only if one of its writes fails, a final one if and only if it rotates and that write succeeds, and never deletes one |
| RecorderSpec.RotationExact | internal/recorder/recorder.go:162-202 | with working storage a frame closes a file exactly when a file is open, the frame is a keyframe and the hour is over; the keyframe opens the next file |
| RecorderRuns.ReceivedIsInput | internal/recorder/recorder.go:148-160 | the loop takes every frame once, in order, also those it discards |
| RecorderRuns.NothingLost | internal/recorder/recorder.go:148-327 | without storage failures the frames in all written fragments followed by the buffered ones are the frames from the first keyframe on, each once and in order, across any number of rotations |
| RecorderRuns.NothingLostAtExit | internal/recorder/recorder.go:328-345 | after the final flush the files hold exactly those frames |
| RecorderRuns.AllFinalAtExit | internal/recorder/recorder.go:78-120 | a run with working storage to the end leaves final files only |
| RecorderRuns.NothingInvented | internal/recorder/recorder.go:148-327 | whatever fails, the stored frames are a subsequence of the received ones |
| RecorderGops.FragmentsAreStretches | internal/recorder/recorder.go:148-345 | whatever fails, every fragment of every file of every run, open or closed, is one GOP and one unbroken stretch of the received frames |
| RecorderRuns.TimeIsContinuous | internal/recorder/recorder.go:273-326 | when all time steps lie in 1..450000 ticks, each fragment's base time plus the sum of its durations is the next fragment's base time, in every file, whatever the storage does |
| RecorderRuns.ExitOnTime | internal/recorder/recorder.go:331-342 | the final flush keeps it so |
| RecorderTimes.EveryFileTimed | internal/recorder/recorder.go:273-342 | for every input and any failures: the samples of each file are the first frames handled in one file, each lasting the step to the next frame if that is in 1..450000 ticks and otherwise the latest such step earlier in the run, 3600 if there was none; the last frame of a file lasts the latest such step; each base time is that of the first frame of its fragment; a final file whose writes succeeded holds all its frames |
| RecorderTimes.LatestIn | internal/recorder/recorder.go:276-285 | the latest step in 1..450000 among the first frames of a file, or the given value if there is none |
| RecorderTimes.StreamsReceived | internal/recorder/recorder.go:148-291 | the frames handled in each file are one stretch of the received frames from a keyframe on |
| Recorder.Loop.FinalizeFile | internal/recorder/recorder.go:78-120 | closes the open file with the fate that error flag and fragment count decide |
| Recorder.Loop.RotateIfDue | internal/recorder/recorder.go:162-202 | the rotation step, with its failure exit |
| Recorder.Loop.OpenIfNeeded | internal/recorder/recorder.go:204-271 | the opening step, with its create and init failure exits |
| Recorder.Loop.TakeFrame | internal/recorder/recorder.go:273-291 | the pending sample gets its duration, the frame becomes pending |
| Recorder.Loop.FlushOnKey | internal/recorder/recorder.go:293-326 | the fragment flush, with its failure exit |
| Recorder.Loop.Marshal | internal/recorder/recorder.go:295-312 | a fragment is appended and counted, or the file gains none and the failure is recorded |
| Recorder.Loop.HandleFrame | internal/recorder/recorder.go:148-327 | one turn of the loop is one step of the state machine |
| Recorder.Loop.Exit | internal/recorder/recorder.go:330-344 | the code after the loop |
| Recorder.RunRecorder | internal/recorder/recorder.go:59-345 | the files a whole run leaves: under any storage behaviour and for any times their fragments are sound, timed as EveryFileTimed says, gapless for steady input, and each file is corrupted exactly when a write to it failed, but for a last file whose write at exit failed; with working storage every file is final and together they hold exactly the frames from the first keyframe on |
| WebCodecs.FindUnits | web/src/v2/components/player/WebCodecsPlayerV2.tsx:76-95 | the skipping scan finds the spans between start codes, for every content |
| WebCodecs.WriteLength | web/src/v2/components/player/WebCodecsPlayerV2.tsx:97-105 | four bytes are overwritten with the big-endian length of the unit, nothing else |
| WebCodecs.AnnexBToAvcc | web/src/v2/components/player/WebCodecsPlayerV2.tsx:72-108 | the in-place rewrite puts each span's length over its start code and changes nothing else |
| WebCodecs.ConvertExact | web/src/v2/components/player/WebCodecsPlayerV2.tsx:71-108 | for every list of units below 4 GB, converting the server's payload gives the length-prefixed units if and only if no unit contains 00 00 00 01 |
| WebCodecs.LeadingBytesKept | web/src/v2/components/player/WebCodecsPlayerV2.tsx:79-95 | bytes that no start code precedes are left alone, in front of the converted units or as the whole payload |
| Packets.BuildHeader | internal/api/ws.go:88-120 | the buffer filled with moving offsets is the header packet; refused exactly when a parameter set exceeds 65535 bytes |
| Packets.PutField | internal/api/ws.go:106-120 | one field with its length is placed at the offset, what lies before it is kept |
| Packets.ParseHeader | web/src/v2/components/player/WebCodecsPlayerV2.tsx:142-160 | the offsets read the three length-prefixed fields, for every content of at least two bytes, which the caller checks; a missing length fails, a field is cut off where the data ends |
| Packets.HeaderRoundTrip | web/src/v2/components/player/WebCodecsPlayerV2.tsx:142-160 | the browser gets back SPS, PPS and the codec byte, 2 with a VPS and 1 without, of every header the server sends |
| Packets.HeaderCut | web/src/v2/components/player/WebCodecsPlayerV2.tsx:142-160 | a header cut off at any byte fails as long as the third length is missing, and then configures with what there is of the PPS |
| Packets.Sender.OnFrame | internal/api/ws.go:173-220 | nothing is sent before the first keyframe; then the message is the frame's packet, with no byte of an earlier packet left in the reused buffer |
| Packets.FillPacket | internal/api/ws.go:200-220 | flag, time and payload overwrite the whole front of the buffer |
| Packets.FillPayload | internal/api/ws.go:214-220 | the payload follows the first ten bytes, which are kept |
| Packets.PayloadLength | internal/api/ws.go:186-190 | the computed length is that of the payload |
| Packets.Uint64RoundTrip | internal/api/ws.go:206-212 | eight big-endian bytes anywhere in a packet read back as the number |
| Packets.UnitsBack | web/src/v2/components/player/WebCodecsPlayerV2.tsx:49-56 | a decoder with 4-byte lengths reads the same list of units back |
| Packets.UnitsSound | web/src/v2/components/player/WebCodecsPlayerV2.tsx:49-56 | whatever such a decoder can read is the length-prefixed form of what it reads |
| Packets.DataRoundTrip | web/src/v2/components/player/WebCodecsPlayerV2.tsx:252-270 | a configured decoder gets the flag of every frame and its nanoseconds divided by 1000 and rounded down, zero for negative ones; it gets the length-prefixed units, and reads back the same list of units, if and only if no unit contains a start code |
| Packets.PacketLayout | internal/api/ws.go:200-220 | type bytes 1 and 2, the keyframe flag, and the payload from byte ten on |
| Packets.MessagesIgnored | web/src/v2/components/player/WebCodecsPlayerV2.tsx:134-166 | exactly which messages the browser ignores, and which make its handler throw |
| HlsOwnership.StepOwned | internal/hls/muxer.go:46-61 | every step of muxer, watchdog and handlers, with a release interruptible after its decrement, keeps: a count is one for the window plus the outstanding holders, each buffer has one owner, a reachable segment keeps its data |
| HlsOwnership.RecycleOwned | internal/hls/muxer.go:52-61 | returning a buffer after the last decrement keeps the ownership rules whatever happened in between |
| HlsPool.NoBufferLost | internal/hls/muxer.go:46-61 | until Stop every buffer ever made is in the pool, being filled, or the data of a segment that is still referenced or whose last release is under way, unless sync.Pool drops it |
| HlsPool.LastReleaseReturns | internal/hls/muxer.go:52-61 | the last release returns the buffer to the pool once, empty |
| HlsPool.EveryRunReturns | internal/hls/muxer.go:52-61 | pooled buffers are empty, and evictions and Stop leave none to be returned later |
| HlsPool.HeldExactly | internal/hls/muxer.go:597-599 | the holders of a segment are exactly the requests that found it less the releases |
| HlsOwnership.StepExtends | internal/hls/muxer.go:265-277 | a published segment's name, duration, mark and frames never change |
| HlsWindow.EveryRun | internal/hls/muxer.go:265-286 | in every reachable state before Stop the window holds the newest segments, exactly the smaller of `seqCount` and `maxSegments`, with consecutive numbers up to `seqCount`; index and cached playlists agree with it, and the ownership rules hold |
| HlsWindow.StepSlides | internal/hls/muxer.go:275-285 | one step leaves the window or appends the next number and drops only from the front |
| HlsWindow.HolderReadsOriginal | internal/hls/muxer.go:576-609 | whoever holds a segment reads the frames it was closed with, whatever the pool does meanwhile |
| HlsWindow.MediaSequenceGrows | internal/hls/muxer.go:453-456 | of any two published playlists of a run, video or subtitles, the later one announces an EXT-X-MEDIA-SEQUENCE at least as large |
| HlsWindow.PlaylistsTell | internal/hls/muxer.go:425-509 | a client reads both cached playlists as the window: the k-th entry is the segment numbered media sequence plus k, and EXT-X-TARGETDURATION is one more than the longest duration in whole seconds, at least three, which no rounded duration exceeds |
| HlsWindow.UriResolves | internal/hls/muxer.go:580-609 | every advertised .ts and .vtt name is served by the segment it names |
| HlsWindow.FoundExactly | internal/hls/muxer.go:580-609 | a request for the .ts or .vtt name of any number finds that segment if it is in the window, and nothing once it is evicted or before it exists |
| HlsWindow.StrangerNotFound | internal/hls/muxer.go:588-604 | a name that no segment of the window bears finds nothing |
| HlsWindow.NameSpells | internal/hls/muxer.go:268 | a name is stream_, the number in decimal, .ts |
| HlsWindow.LookupNames | internal/hls/muxer.go:581-585 | a .ts name is looked up as itself, the .vtt name of a segment as its .ts name |
| HlsWindow.NameInjective | internal/hls/muxer.go:268 | segments with different numbers have different names |
| HlsCut.EveryRunCuts | internal/hls/muxer.go:211-312 | until Stop the segments cut from the stream followed by the open buffer are exactly the frames from the first keyframe on; each starts at a keyframe, lasts at least the target duration, holds no keyframe past it, and ends where the next one starts |
| HlsCut.EveryRunPieces | internal/hls/muxer.go:211-312 | the segments cut and the one being built are the pieces of the stream cut before every keyframe that comes at least two seconds after the last cut: no other cut satisfies EveryRunCuts |
| HlsCut.DurationsTelescope | internal/hls/muxer.go:265-270 | the durations add up to the time from the first keyframe to the open segment |
| HlsCut.WatchdogRepeats | internal/hls/muxer.go:383-420 | the watchdog publishes the newest segment's frames and duration again, marked, under the next number |
| HlsCut.EveryRunTagged | internal/hls/muxer.go:404-418 | every repeat and the first segment cut after it carry EXT-X-DISCONTINUITY |
| HlsMarks.MarkedExactly | internal/hls/muxer.go:201-209 | the segment a frame closes is marked if and only if, since the segment before it was cut and up to that frame, the codec parameters changed or the watchdog repeated a segment |
| HlsMarks.FlagExactly | internal/hls/muxer.go:271-275 | in every run a mark is due exactly when the timeline has jumped since the last cut |
| HlsMuxer.LiveMuxer.constructor | internal/hls/muxer.go:114-138 | an empty muxer; a window below three, or none given, means three |
| HlsMuxer.LiveMuxer.RebuildPlaylists | internal/hls/muxer.go:425-509 | index and both playlists are rendered from the window; an empty window clears the index only |
| HlsMuxer.BuildIndex | internal/hls/muxer.go:431-435 | the index maps every name in the window to its last bearer |
| HlsMuxer.LongestSeconds | internal/hls/muxer.go:443-449 | the longest duration in whole seconds, at least two |
| HlsMuxer.RenderEntries | internal/hls/muxer.go:458-467 | one entry for each segment, in order, with its mark, duration and name |
| HlsMuxer.LiveMuxer.Release | internal/hls/muxer.go:52-61 | the last release, and only it, resets the buffer and returns it to the pool |
| HlsMuxer.LiveMuxer.TrimAndRebuild | internal/hls/muxer.go:279-285 | the window is cut to size, the oldest segment released, the playlists rendered |
| HlsMuxer.LiveMuxer.CloseSegment | internal/hls/muxer.go:265-288 | the current buffer becomes the data of the next numbered segment |
| HlsMuxer.LiveMuxer.Append | internal/hls/muxer.go:266-277 | the segment gets the next number and joins the window, nothing else changes |
| HlsMuxer.LiveMuxer.BeginSegment | internal/hls/muxer.go:290-312 | a segment starts with an empty buffer, pooled or new |
| HlsMuxer.LiveMuxer.WriteFrame | internal/hls/muxer.go:350-358 | the frame is appended to the current buffer only |
| HlsMuxer.LiveMuxer.OnFrame | internal/hls/muxer.go:201-359 | one frame of the loop is one step of the state machine |
| HlsMuxer.LiveMuxer.CheckWatchdog | internal/hls/muxer.go:383-421 | the watchdog step |
| HlsMuxer.LiveMuxer.AcquireSegment | internal/hls/muxer.go:580-609 | finds by index, else by scan, and retains what it finds; says whether subtitles were asked for |
| HlsMuxer.LiveMuxer.ScanWindow | internal/hls/muxer.go:589-596 | the first window segment of that name, if any |
| HlsMuxer.LiveMuxer.ReleaseAcquired | internal/hls/muxer.go:52-61 | a holder's release is the decrement followed by the recycling step |
| HlsMuxer.LiveMuxer.StopMuxer | internal/hls/muxer.go:363-378 | every window segment is released once, window and index are emptied |
| HlsMuxer.CueTimes | internal/hls/muxer.go:225-257 | both cue times are well-formed, the start is the offset of the message from the segment start in milliseconds, zero if it is earlier, and the end is 300 ms later across every carry |
| BatcherSpec.WillingSendsAll | internal/webrtc/batch_linux.go:167-204 | however few messages a willing socket takes per call, the flush loop sends all |
| BatcherSpec.EveryRunConserves | internal/webrtc/batch_linux.go:107-256 | for each peer, with a willing socket, packets on the wire followed by those pending are the packets written, each once, in order; with a failing one the wire is a subsequence; fewer than 32 are pending between calls |
| BatcherSpec.NothingWaits | internal/webrtc/batch_linux.go:116-157 | nothing is pending after a packet that is not RTP version 2, has the marker bit or exceeds 1500 bytes, a cleanup tick or Close |
| BatcherSpec.BatchesExactly | internal/webrtc/batch_linux.go:107-157 | any other packet waits: it joins the pending ones and nothing leaves until it is the 32nd; a packet sent alone goes behind what is pending unless its own send fails; after Close and for an empty packet nothing happens |
| BatcherSpec.RememberedExactly | internal/webrtc/batch_linux.go:85-230 | a peer is remembered from its first packet until Close or a cleanup more than 30 s after its latest RTP packet, or after the packet that created it |
| BatcherSpec.FailureStops | internal/webrtc/batch_linux.go:170-201 | a flush ends at the first call that reports an error or nothing, with what was sent until then |
| Batcher.PeerBatch.FlushLocked | internal/webrtc/batch_linux.go:162-205 | the loop terminates, sends the counted leading messages and leaves the batch empty |
| Batcher.PeerBatch.Put | internal/webrtc/batch_linux.go:145-148 | the packet joins the end of the batch, in a slot that is free |
| Batcher.PlatformBatcher.GetOrCreatePeer | internal/webrtc/batch_linux.go:85-105 | the peer's batch, found in or added to the shard its address hashes to |
| Batcher.PlatformBatcher.WriteToAddrPort | internal/webrtc/batch_linux.go:107-160 | one write step of the addressed peer; every other peer is untouched |
| Batcher.PlatformBatcher.WriteRtp | internal/webrtc/batch_linux.go:128-160 | the RTP branch for one peer: oversize packets directly, others batched, flushed on the marker or when full |
| Batcher.PlatformBatcher.FlushAndSend | internal/webrtc/batch_linux.go:118-126 | what is pending goes out before the packet that is not batched |
| Batcher.PlatformBatcher.CleanupTick | internal/webrtc/batch_linux.go:216-233 | the cleanup step of every peer of every shard |
| Batcher.PlatformBatcher.SweepPeer | internal/webrtc/batch_linux.go:221-230 | one peer is flushed and, when idle for more than 30 s, forgotten; every other peer is untouched |
| Batcher.PlatformBatcher.SweepShard | internal/webrtc/batch_linux.go:218-232 | exactly the peers of one shard are swept, each once |
| Batcher.PlatformBatcher.CloseBatcher | internal/webrtc/batch_linux.go:238-256 | the close step of every peer; a second call does nothing |
| BillingSpec.NeverOverbilled | internal/stream/billing.go:30-78 | with all-or-nothing flushes, billed plus pending bytes never exceed the bytes received, and equal them after each tick unless a stream was replaced or removed or the store had no such camera |
| BillingSpec.EveryRunBalanced | internal/stream/billing.go:39-78 | over every run, right after a tick: received bytes plus those committed by failed flushes are exactly the bytes billed and pending, plus what replaced or removed streams received after their last reading, plus readings that hid a restart because the new counter had reached them, plus what was flushed without a record |
| BillingSpec.TickLedgerIsStep | internal/stream/billing.go:39-50 | what the worker and the store do for one camera is the tick of that account |
| BillingSpec.RetryBillsTwice | internal/stream/billing.go:42-49 | for every account with a camera and a stream: bytes committed in a flush that then fails are charged again by the retry |
| BillingFlush.OverchargesExactly | internal/stream/billing.go:39-50 | for all accounts: in some order of the pending map and with some failing transaction a tick charges bytes that it keeps pending, if and only if more than 200 entries are pending after collection and a camera with a record has bytes among them |
| BillingFlush.AlwaysExactExactly | internal/stream/billing.go:39-50 | whatever the order and the failure, each account grows by exactly what was collected, if and only if every camera with pending bytes has a record and at most 200 entries are pending or none holds bytes |
| BillingFlush.OverchargesAt | pkg/storage/storage.go:223-273 | for a given order and failing transaction exactly the cameras with a record and bytes in the transactions before it are charged twice |
| BillingFlush.DoubleBilling | pkg/storage/storage.go:223-273 | any 201 cameras that receive 10 bytes each; the second transaction of a tick fails and the next tick succeeds: 200 of them are billed 20 bytes |
| BillingFlush.DoubleBillingExample | pkg/storage/storage.go:223-273 | 201 such cameras exist |
| BillingSpec.TrafficFollowsBilling | pkg/storage/storage.go:250-257 | the camera's counter grows by what is billed, from zero in the first update of a new month, and a missing limit becomes 200 GB |
| Billing.Worker.AddDeltas | internal/stream/billing.go:59-70 | every active camera's delta is collected once, all other cameras are untouched |
| Billing.Worker.AddDelta | internal/stream/billing.go:61-69 | one counter reading is collected, a smaller one as a restart |
| Billing.Worker.ForgetRemoved | internal/stream/billing.go:72-77 | readings of cameras without a stream are forgotten, their pending bytes are kept |
| Billing.Worker.CollectDelta | internal/stream/billing.go:57-78 | the collection step of every camera, removed ones forgotten |
| Billing.Worker.ChargeChunk | pkg/storage/storage.go:232-268 | one transaction charges every entry whose camera exists and nothing else |
| Billing.Worker.CommitChunk | pkg/storage/storage.go:231-272 | a chunk is charged as a whole or not at all |
| Billing.Worker.BatchUpdateTraffic | pkg/storage/storage.go:207-276 | exactly the entries of the chunks before the failing one are charged, each once; success exactly when no chunk fails |
| Billing.Worker.RunTick | internal/stream/billing.go:39-50 | one tick for all cameras at once: the entries are the collected cameras in traversal order, the flush fails exactly when the failing transaction exists, and then exactly the first 200 times its number of them are charged and all stay pending |
| Billing.Worker.FlushPending | internal/stream/billing.go:41-50 | the flush alone, from any pending map; with nothing pending it succeeds without a transaction |
| Detector.IouLaws | web/src/v2/ai/inference.ts:317-333 | intersection over union is symmetric, lies in 0..1 and is 1 for a non-empty box with itself |
| Detector.IouExactly | web/src/v2/ai/inference.ts:317-333 | the result times the area of the union is the area between the inner corners; a box without area overlaps nothing |
| Detector.SortSorts | web/src/v2/ai/inference.ts:288-289 | the sort is by descending score and a permutation |
| Detector.SortStable | web/src/v2/ai/inference.ts:288-289 | boxes of equal score keep their order |
| Detector.ApplyNms | web/src/v2/ai/inference.ts:285-305 | the loop computes the repeated suppression |
| Detector.FilterRemaining | web/src/v2/ai/inference.ts:297-302 | exactly the boxes that do not overlap the chosen one too much remain, in order |
| Detector.NmsIsOnePass | web/src/v2/ai/inference.ts:285-305 | it keeps the same boxes as one pass that keeps a box unless it overlaps one already kept |
| Detector.NmsSelects | web/src/v2/ai/inference.ts:281-305 | at most 15 given boxes in score order, pairwise within the threshold; a box is left out only if it overlaps a kept box of at least its score or 15 were kept |
| Tracker.BestIsBest | web/src/v2/ai/inference.ts:341-358 | the match is an unmatched track of the same class with the largest overlap above 0.3, the first of several, if there is one |
| Tracker.FindMatch | web/src/v2/ai/inference.ts:341-358 | the loop finds that match |
| Tracker.MatchedOnce | web/src/v2/ai/inference.ts:344-361 | two detections never continue the same track |
| Tracker.AgeUnmatched | web/src/v2/ai/inference.ts:384-395 | the loop keeps the unmatched tracks that may grow older |
| Tracker.AdvanceKeeps | web/src/v2/ai/inference.ts:335-395 | every detection has its track, of age 0 and in order: the detection itself, or a point the fraction `alpha` of the way from the overlapping track of its class that it continues; an unmatched track that may grow older survives one frame older |
| Tracker.AdvanceExactly | web/src/v2/ai/inference.ts:384-395 | and nothing else: behind the tracks of the detections come, in order and each once, exactly the tracks that no detection continues and that may grow older |
| Tracker.EmaTracker.ApplyEmaSmoothing | web/src/v2/ai/inference.ts:335-399 | the loops compute the next tracks and store them |
| Tracker.TracksBounded | web/src/v2/ai/inference.ts:335-399 | over every sequence of frames with a smoothing factor in 0..1 tracks stay in the unit square, at most 15 have any age, and there are at most 15 * (maxAge + 1) |
| Detector.SmoothInUnit | web/src/v2/ai/inference.ts:363-373 | smoothing two ordered boxes of the unit square gives an ordered box of the unit square |
| Pipeline.ArchivedGopsAreWhole | internal/recorder/recorder.go:22-27 | whatever the ring drops, however files rotate and whichever storage calls fail, each fragment of each file of the run, open or closed, is a keyframe with its dependent frames exactly as the camera sent them, one gap-free stretch of the write log |
| Pipeline.CrashKeepsWholeGops | internal/recorder/recorder.go:24-27 | cut the bytes of any file of any run anywhere: exactly the fragments wholly before the cut are indexed, each is a whole GOP of the write log, with the duration the recorder gave it if the fMP4 library reads back what it wrote, and there is at least one if the validator accepts; marshalling is any function to a moof, its mdat and further boxes |

## Left out

- Batcher.PeerBatch.FlushLocked: the 32 slots are a sequence, not pre-allocated byte arrays, so sharing of slot storage is not captured; the one-by-one fallback without a packet connection is the case in which every call takes one message.
- Batcher.PlatformBatcher.WriteToAddrPort: calls for one peer are atomic; a peer object fetched just before a cleanup tick forgets it, and the direct send after the lock is released, are not interleaved.
- HlsMuxer.LiveMuxer.OnFrame: what mpegts.Writer makes of a frame is the frame itself; inserting parameter sets before keyframes is not modelled, and whether they changed is an input.
- HlsMuxer.LiveMuxer.CheckWatchdog: the five-second test, and with it the reset of its timer, is an input; a repeat has no subtitles of its own, and subtitle bytes are not modelled.
- Recorder.Loop.HandleFrame: NewPartSampleH26x is taken to succeed, renames and deletes too; file names and metrics are not modelled.
- Recorder.Loop.Marshal: the bytes a failed write leaves behind are not kept; they are those of a file in which it succeeded, cut off, which Pipeline.CrashKeepsWholeGops covers.
- Packets.DataRoundTrip: the time is the 64-bit number on the wire; rounding by a JavaScript number above 2^53 microseconds is not modelled.
- Packets.Sender.OnFrame: pings, deadlines and the connection itself are not modelled.
- Archive.GetFileIndex: the LRU cache of indexes, and its staleness for growing files, are not modelled; the duration of a fragment is an arbitrary function of its bytes.
- Detector.ApplyNms: boxes are ordered and inside the unit square, as the decoder delivers them; floats are reals.
- Counters (`seqCount`, `epoch`, traffic) are unbounded; their 64-bit wrap-around is not modelled.
- RTSP sessions, WebRTC, gRPC, MQTT, HTTP routing, authentication, metrics and logging: foreign libraries and plumbing.
- fMP4 and MPEG-TS marshalling, VOD playlists and segment transcoding, database internals: abstract functions or atomic transactions.
- Codec parameters of the ring (SetParams, GetParams), stream manager statistics, retention cleanup, the web interface and the command-line tools.
