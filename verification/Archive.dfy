/**
 The fMP4 indexer and the clip exporter (internal/archive/hls.go, internal/archive/export.go).

 A file is its bytes; the walkers keep an explicit seek position. What the fMP4 library makes of a
 fragment is a parameter: `Unmarshal` gives the summed sample durations of its first track, and 0 when the
 bytes do not parse or hold no track.
 */
module Archive {
  import opened Frames
  import opened Boxes

  type Unmarshal = seq<Byte> -> nat

  datatype PartInfo = PartInfo(offset: nat, duration: nat)
  datatype FileIndex = FileIndex(initSize: nat, parts: seq<PartInfo>)
  datatype Result<+T> = Ok(value: T) | Err

  /** The bytes from a seek position on; a position past the end reads nothing. */
  function From(s: seq<Byte>, pos: nat): seq<Byte> {
    if pos <= |s| then s[pos..] else []
  }

  /** The fragment's duration in 90 kHz ticks; one second when nothing better is known. */
  function PartDuration(u: Unmarshal, fragment: seq<Byte>): nat {
    if u(fragment) > 0 then u(fragment) else 90000
  }

  predicate Plausible(size: nat) {
    HEADER_SIZE <= size <= MAX_BOX_SIZE
  }

  /** The first loop of getFileIndex: the bytes before the first moof. */
  function InitSize(s: seq<Byte>): nat
    decreases |s|
  {
    var h := ReadHeader(s);
    if h.NoHeader? || !Plausible(h.size) || h.typ == MOOF then 0
    else h.size + InitSize(From(s, h.size))
  }

  /** What one iteration of the second loop does: stop, pass over some bytes, or record a fragment. */
  datatype Move = Stop | Skip(n: nat) | Part(n: nat)

  function Classify(s: seq<Byte>): (m: Move)
    ensures !m.Stop? ==> |s| >= HEADER_SIZE && m.n >= HEADER_SIZE
    ensures m.Part? ==> m.n <= |s|
  {
    var h := ReadHeader(s);
    if h.NoHeader? || !Plausible(h.size) then Stop
    else if h.typ != MOOF then Skip(h.size)
    else if |s| < h.size then Stop
    else
      var h2 := ReadHeader(s[h.size..]);
      if h2.NoHeader? then Stop
      else if h2.typ == MDAT && Plausible(h2.size) then
        if |s| < h.size + h2.size then Stop else Part(h.size + h2.size)
      else
        // a moof without its mdat: the eight bytes just read are lost and the walk is out of step
        Skip(h.size + HEADER_SIZE)
  }

  /** The second loop, on the remaining bytes `s` that start at file offset `off`. */
  function Scan(u: Unmarshal, s: seq<Byte>, off: nat): seq<PartInfo>
    decreases |s|
  {
    hide Classify;
    match Classify(s)
    case Stop => []
    case Skip(n) => Scan(u, From(s, n), off + n)
    case Part(n) => [PartInfo(off, PartDuration(u, s[..n]))] + Scan(u, From(s, n), off + n)
  }

  function Index(u: Unmarshal, file: seq<Byte>): FileIndex {
    var n := InitSize(file);
    FileIndex(n, Scan(u, From(file, n), n))
  }

  // ---------------------------------------------------------------------------------------------
  // The walkers

  /** readBoxHeader: on success the position is after the header, on failure at the end of the file. */
  method ReadBoxHeader(file: seq<Byte>, pos: nat) returns (h: Header, after: nat)
    ensures h == ReadHeader(From(file, pos)) && (h.Header? <==> pos + HEADER_SIZE <= |file|)
    ensures after == if h.Header? then pos + HEADER_SIZE else if pos <= |file| then |file| else pos
  {
    if pos + HEADER_SIZE <= |file| {
      var header := file[pos..pos + HEADER_SIZE];
      h, after := Header(header[4..8], Uint32(header)), pos + HEADER_SIZE;
      assert file[pos..][4..8] == file[pos + 4..pos + 8] == header[4..8];
    } else {
      h, after := NoHeader, if pos <= |file| then |file| else pos;
    }
  }

  method MeasureInit(file: seq<Byte>) returns (initSize: nat)
    ensures initSize == InitSize(file)
  {
    hide ReadHeader, From;
    initSize := 0;
    var pos := 0;
    FromStart(file);
    while true
      invariant pos == initSize && InitSize(file) == initSize + InitSize(From(file, pos))
      decreases |file| - pos
    {
      var h, after := ReadBoxHeader(file, pos);
      if h.NoHeader? || h.size < HEADER_SIZE || h.size > MAX_BOX_SIZE || h.typ == MOOF {
        break;
      }
      FromFrom(file, pos, h.size);
      initSize := initSize + h.size;
      pos := after + h.size - HEADER_SIZE;
    }
  }

  lemma FromFrom(s: seq<Byte>, a: nat, b: nat)
    ensures From(From(s, a), b) == From(s, a + b)
  {
  }

  lemma FromStart(s: seq<Byte>)
    ensures From(s, 0) == s
  {
  }

  lemma FromSlice(s: seq<Byte>, a: nat, n: nat)
    requires n <= |From(s, a)| && 0 < n
    ensures a + n <= |s| && From(s, a)[..n] == s[a..a + n]
  {
  }

  /** One iteration of the second loop of getFileIndex; `pos` is where it leaves the file position. */
  method ScanBox(file: seq<Byte>, offset: nat) returns (move: Move, pos: nat)
    ensures move == Classify(From(file, offset))
    ensures !move.Stop? ==> pos == offset + move.n && offset < |file|
  {
    hide ReadHeader;
    var h, after := ReadBoxHeader(file, offset);
    if h.NoHeader? || h.size < HEADER_SIZE || h.size > MAX_BOX_SIZE {
      return Stop, after;
    }
    if h.typ != MOOF {
      return Skip(h.size), offset + h.size;
    }
    if offset + h.size > |file| {
      return Stop, |file|;
    }
    FromFrom(file, offset, h.size);
    var mdatOffset := offset + h.size;
    var h2, after2 := ReadBoxHeader(file, mdatOffset);
    if h2.Header? && h2.typ == MDAT && HEADER_SIZE <= h2.size <= MAX_BOX_SIZE {
      if mdatOffset + h2.size > |file| {
        return Stop, |file|;
      }
      return Part(h.size + h2.size), mdatOffset + h2.size;
    }
    return if h2.NoHeader? then Stop else Skip(h.size + HEADER_SIZE), after2;
  }

  lemma Regroup<T>(a: seq<T>, x: T, b: seq<T>)
    ensures a + ([x] + b) == (a + [x]) + b
  {
  }

  /** The second loop of getFileIndex, started at `start`. */
  method ScanParts(u: Unmarshal, file: seq<Byte>, start: nat) returns (parts: seq<PartInfo>)
    ensures parts == Scan(u, From(file, start), start)
  {
    hide Classify, From;
    parts := [];
    var pos := start;
    ghost var whole := Scan(u, From(file, start), start);
    while true
      invariant whole == parts + Scan(u, From(file, pos), pos)
      decreases |file| - pos
    {
      var move, next := ScanBox(file, pos);
      if move.Stop? {
        break;
      }
      FromFrom(file, pos, move.n);
      if move.Part? {
        FromSlice(file, pos, move.n);
        var part := PartInfo(pos, PartDuration(u, file[pos..next]));
        Regroup(parts, part, Scan(u, From(file, next), next));
        parts := parts + [part];
      }
      pos := next;
    }
  }

  /** getFileIndex, without its cache. */
  method GetFileIndex(u: Unmarshal, file: seq<Byte>) returns (idx: FileIndex)
    ensures idx == Index(u, file)
  {
    var initSize := MeasureInit(file);
    var parts := ScanParts(u, file, initSize);
    idx := FileIndex(initSize, parts);
  }

  /** Every indexed fragment lies inside the scanned bytes, after the one before it. */
  lemma {:induction false} ScanBounds(u: Unmarshal, s: seq<Byte>, off: nat)
    ensures forall k :: 0 <= k < |Scan(u, s, off)| ==> off <= Scan(u, s, off)[k].offset < off + |s|
    ensures forall j, k :: 0 <= j < k < |Scan(u, s, off)| ==> Scan(u, s, off)[j].offset < Scan(u, s, off)[k].offset
    decreases |s|
  {
    hide Classify;
    match Classify(s)
    case Stop =>
    case Skip(n) => ScanBounds(u, From(s, n), off + n);
    case Part(n) => ScanBounds(u, From(s, n), off + n);
  }

  /** A header that ends a walk: cut off, smaller than itself, or of a box over 64 MB. */
  predicate BadHeader(s: seq<Byte>) {
    |s| < 8 || Uint32(s) < 8 || Uint32(s) > 67_108_864
  }

  /**
   Where the walks stop, on any bytes. The second loop: at a bad header, at a moof with fewer than eight bytes
   behind it, and at one whose mdat has a good header but is cut off. The first loop: at a bad header and at a moof.
   */
  lemma StopsExactly(s: seq<Byte>)
    ensures Classify(s).Stop? <==>
              || BadHeader(s)
              || (s[4..8] == MOOF &&
                    var n := Uint32(s);
                    || |s| < n + 8
                    || (s[n..][4..8] == MDAT && !BadHeader(s[n..]) && |s| < n + Uint32(s[n..])))
    ensures InitSize(s) == 0 <==> BadHeader(s) || s[4..8] == MOOF
  {
    hide Uint32;
  }

  /** io.CopyN after a seek: the requested bytes, or an error when the file ends first. */
  method CopyN(file: seq<Byte>, from: nat, n: nat) returns (r: Result<seq<Byte>>)
    ensures r == if n == 0 || from + n <= |file| then Ok(From(file, from)[..n]) else Err
  {
    if n == 0 {
      return Ok([]);
    }
    if from + n <= |file| {
      return Ok(file[from..][..n]);
    }
    return Err;
  }

  /** The range ExportMP4 really uses: a negative or too large end means the last fragment. */
  function ClampEnd(n: nat, end: int): (e: nat)
    requires n > 0
    ensures e < n && (0 <= end < n ==> e == end)
  {
    if end >= n || end < 0 then n - 1 else end
  }

  function ClampStart(n: nat, start: int, end: int): (a: nat)
    requires n > 0
    ensures a <= ClampEnd(n, end) && (0 <= start <= ClampEnd(n, end) ==> a == start)
  {
    if start < 0 then 0 else if start > ClampEnd(n, end) then ClampEnd(n, end) else start
  }

  /** Where fragment `i` ends: at the next fragment, or at the end of the file. */
  function PartEnd(file: seq<Byte>, parts: seq<PartInfo>, i: nat): nat {
    if i + 1 < |parts| then parts[i + 1].offset else |file|
  }

  /**
   What a clip consists of, on every file: nothing when no fragment is indexed, otherwise the initialization
   bytes followed by one contiguous stretch of the file.
   */
  function Export(u: Unmarshal, file: seq<Byte>, startSeq: int, endSeq: int): Result<seq<Byte>> {
    var idx := Index(u, file);
    var n := |idx.parts|;
    if n == 0 then Err
    else
      PartsInFile(u, file);
      var lo, hi := ClampStart(n, startSeq, endSeq), ClampEnd(n, endSeq);
      Ok(file[..idx.initSize] + file[idx.parts[lo].offset..PartEnd(file, idx.parts, hi)])
  }

  /** ExportMP4: the range clamping and the byte-range copies; no copy ever runs past the end of the file. */
  method ExportMP4(u: Unmarshal, file: seq<Byte>, startSeq: int, endSeq: int) returns (r: Result<seq<Byte>>)
    ensures r == Export(u, file, startSeq, endSeq)
  {
    hide Index;
    var idx := GetFileIndex(u, file);
    var parts := idx.parts;
    if |parts| == 0 {
      return Err;
    }
    var start, end := startSeq, endSeq;
    if start < 0 {
      start := 0;
    }
    if end >= |parts| || end < 0 {
      end := |parts| - 1;
    }
    if start > end {
      start := end;
    }
    PartsInFile(u, file);
    var init := CopyN(file, 0, idx.initSize);
    if init.Err? {
      return Err;
    }
    assert init.value == file[..idx.initSize];
    var body := CopyParts(file, parts, start, end);
    if body.Err? {
      return Err;
    }
    return Ok(init.value + body.value);
  }

  /**
   What a range out of bounds means, on any file: an end below zero or past the last fragment is the last fragment,
   a start below zero is the first one, and a start past the end is the end.
   */
  lemma ExportClamps(u: Unmarshal, file: seq<Byte>, startSeq: int, endSeq: int)
    ensures var n := |Index(u, file).parts|;
            && (endSeq < 0 || endSeq >= n ==> Export(u, file, startSeq, endSeq) == Export(u, file, startSeq, n - 1))
            && (startSeq < 0 ==> Export(u, file, startSeq, endSeq) == Export(u, file, 0, endSeq))
            && (0 <= endSeq < n && startSeq > endSeq ==>
                  Export(u, file, startSeq, endSeq) == Export(u, file, endSeq, endSeq))
  {
    hide Index;
  }

  /** Fragment offsets increase and lie inside the file. */
  ghost predicate Located(file: seq<Byte>, parts: seq<PartInfo>) {
    && (forall k :: 0 <= k < |parts| ==> parts[k].offset < |file|)
    && (forall j, k :: 0 <= j < k < |parts| ==> parts[j].offset < parts[k].offset)
  }

  lemma PartsInFile(u: Unmarshal, file: seq<Byte>)
    ensures var idx := Index(u, file);
            Located(file, idx.parts) && forall k :: 0 <= k < |idx.parts| ==> idx.initSize <= idx.parts[k].offset
  {
    ScanBounds(u, From(file, InitSize(file)), InitSize(file));
  }

  /** The copy loop of ExportMP4. */
  method CopyParts(file: seq<Byte>, parts: seq<PartInfo>, start: nat, end: nat) returns (r: Result<seq<Byte>>)
    requires Located(file, parts) && start <= end < |parts|
    ensures parts[start].offset <= PartEnd(file, parts, end) <= |file|
    ensures r == Ok(file[parts[start].offset..PartEnd(file, parts, end)])
  {
    var out, i := [], start;
    ghost var at := parts[start].offset;
    while i <= end
      invariant start <= i <= end + 1
      invariant at == if i <= end then parts[i].offset else PartEnd(file, parts, end)
      invariant parts[start].offset <= at <= |file| && out == file[parts[start].offset..at]
    {
      var startOffset := parts[i].offset;
      var partSize := PartEnd(file, parts, i) - startOffset;
      var piece := CopyN(file, startOffset, partSize);
      if piece.Err? {
        return Err;
      }
      assert piece.value == file[at..at + partSize];
      out := out + piece.value;
      i, at := i + 1, at + partSize;
    }
    return Ok(out);
  }
}
