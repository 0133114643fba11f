/**
 Crash recovery: the structural check of an unclosed recording (internal/recorder/recovery.go), on
 arbitrary bytes and on recordings cut at an arbitrary byte.
 */
module Recovery {
  import opened Frames
  import opened Boxes
  import opened Archive
  import opened Recordings

  /** A box as the 32-bit header can describe it. */
  ghost predicate Representable(b: Box) {
    |b.typ| == 4 && Size(b) < 0x1_0000_0000
  }

  ghost predicate AllRepresentable(bs: seq<Box>) {
    forall i :: 0 <= i < |bs| ==> Representable(bs[i])
  }

  predicate Has(bs: seq<Box>, typ: seq<Byte>) {
    exists i :: 0 <= i < |bs| && bs[i].typ == typ
  }

  /** Cuts bytes into boxes; fails on a truncated header, a size below 8, or a box past the end. */
  function Parse(s: seq<Byte>): Option<seq<Box>>
    decreases |s|
  {
    if s == [] then Some([])
    else
      var h := ReadHeader(s);
      if h.NoHeader? || h.size < HEADER_SIZE || h.size > |s| then None
      else
        var rest := Parse(s[h.size..]);
        if rest.None? then None else Some([Box(h.typ, s[HEADER_SIZE..h.size])] + rest.value)
  }

  lemma FirstBox(s: seq<Byte>)
    requires ReadHeader(s).Header? && HEADER_SIZE <= ReadHeader(s).size <= |s|
    ensures var h := ReadHeader(s); var b := Box(h.typ, s[HEADER_SIZE..h.size]);
            Representable(b) && Encode(b) == s[..h.size] && Size(b) == h.size
  {
    Uint32Inverse(s[..4]);
    var h := ReadHeader(s);
    assert s[..h.size] == s[..4] + s[4..8] + s[HEADER_SIZE..h.size];
  }

  /** Whatever parses is the encoding of what it parses to. */
  lemma {:induction false} ParseSound(s: seq<Byte>)
    ensures Parse(s).Some? ==> AllRepresentable(Parse(s).value) && EncodeAll(Parse(s).value) == s
    decreases |s|
  {
    hide ReadHeader, Encode;
    if s == [] {
    } else {
      var h := ReadHeader(s);
      if h.Header? && HEADER_SIZE <= h.size <= |s| {
        FirstBox(s);
        ParseSound(s[h.size..]);
        assert s == s[..h.size] + s[h.size..];
      }
    }
  }

  /** An encoding parses back to the boxes it encodes. */
  lemma {:induction false} ParseComplete(bs: seq<Box>)
    requires AllRepresentable(bs)
    ensures Parse(EncodeAll(bs)) == Some(bs)
  {
    hide ReadHeader;
    if bs == [] {
    } else {
      var s := EncodeAll(bs);
      HeaderOfEncoded(bs[0], EncodeAll(bs[1..]));
      assert s[HEADER_SIZE..Size(bs[0])] == bs[0].body;
      ParseComplete(bs[1..]);
      assert bs == [Box(bs[0].typ, s[HEADER_SIZE..Size(bs[0])])] + bs[1..];
    }
  }

  /** The documented rule for an intact file. */
  ghost predicate Acceptable(file: seq<Byte>) {
    && |file| >= 32
    && exists bs ::
         && AllRepresentable(bs) && EncodeAll(bs) == file
         && Has(bs, MOOV) && Has(bs, MOOF) && Has(bs, MDAT)
  }

  predicate Accepts(file: seq<Byte>) {
    && |file| >= 32
    && var bs := Parse(file);
       bs.Some? && Has(bs.value, MOOV) && Has(bs.value, MOOF) && Has(bs.value, MDAT)
  }

  lemma AcceptsIffAcceptable(file: seq<Byte>)
    ensures Accepts(file) <==> Acceptable(file)
  {
    ParseSound(file);
    forall bs | AllRepresentable(bs) && EncodeAll(bs) == file ensures Parse(file) == Some(bs) {
      ParseComplete(bs);
    }
  }

  lemma HasCons(b: Box, bs: seq<Box>, typ: seq<Byte>)
    ensures Has([b] + bs, typ) <==> b.typ == typ || Has(bs, typ)
  {
    if Has(bs, typ) {
      var i :| 0 <= i < |bs| && bs[i].typ == typ;
      assert ([b] + bs)[i + 1].typ == typ;
    }
    if b.typ == typ {
      assert ([b] + bs)[0].typ == typ;
    }
  }

  /** The box loop on the remaining bytes, with the flags collected so far. */
  ghost predicate Walk(s: seq<Byte>, hasMoov: bool, hasMoof: bool, hasMdat: bool)
    decreases |s|
  {
    if s == [] then hasMoov && hasMoof && hasMdat
    else
      var h := ReadHeader(s);
      && h.Header? && HEADER_SIZE <= h.size <= |s|
      && Walk(s[h.size..], hasMoov || h.typ == MOOV, hasMoof || h.typ == MOOF, hasMdat || h.typ == MDAT)
  }

  lemma {:induction false} WalkIsParse(s: seq<Byte>, hasMoov: bool, hasMoof: bool, hasMdat: bool)
    ensures Walk(s, hasMoov, hasMoof, hasMdat) <==>
              && Parse(s).Some?
              && (hasMoov || Has(Parse(s).value, MOOV))
              && (hasMoof || Has(Parse(s).value, MOOF))
              && (hasMdat || Has(Parse(s).value, MDAT))
    decreases |s|
  {
    hide ReadHeader, Has;
    if s == [] {
      HasNone(MOOV);
      HasNone(MOOF);
      HasNone(MDAT);
    } else {
      var h := ReadHeader(s);
      if h.Header? && HEADER_SIZE <= h.size <= |s| {
        WalkIsParse(s[h.size..], hasMoov || h.typ == MOOV, hasMoof || h.typ == MOOF, hasMdat || h.typ == MDAT);
        var rest := Parse(s[h.size..]);
        if rest.Some? {
          var b := Box(h.typ, s[HEADER_SIZE..h.size]);
          HasCons(b, rest.value, MOOV);
          HasCons(b, rest.value, MOOF);
          HasCons(b, rest.value, MDAT);
        }
      }
    }
  }

  lemma HasNone(typ: seq<Byte>)
    ensures !Has([], typ)
  {
  }

  /**
   ValidateFMP4File: for every content, accepts exactly the files of at least 32 bytes that are tiled by
   boxes without a gap or remainder and contain a moov, a moof and an mdat.
   */
  method ValidateFMP4File(file: seq<Byte>) returns (ok: bool)
    ensures ok <==> Acceptable(file)
  {
    AcceptsIffAcceptable(file);
    hide Acceptable;
    WalkIsParse(file, false, false, false);
    hide Parse, Has, ReadHeader;
    var fileSize := |file|;
    if fileSize < 32 {
      return false;
    }
    var currentOffset, hasMoov, hasMoof, hasMdat := 0, false, false, false;
    assert file[0..] == file;
    while currentOffset < fileSize
      invariant currentOffset <= fileSize
      invariant Accepts(file) <==> Walk(file[currentOffset..], hasMoov, hasMoof, hasMdat)
    {
      if currentOffset + 8 > fileSize {
        return false;
      }
      var header, _ := ReadBoxHeader(file, currentOffset);
      if header.size < 8 {
        return false;
      }
      if currentOffset + header.size > fileSize {
        return false;
      }
      if header.typ == MOOV {
        hasMoov := true;
      } else if header.typ == MOOF {
        hasMoof := true;
      } else if header.typ == MDAT {
        hasMdat := true;
      }
      assert file[currentOffset..][header.size..] == file[currentOffset + header.size..];
      currentOffset := currentOffset + header.size;
    }
    return hasMoov && hasMoof && hasMdat;
  }

  // ---------------------------------------------------------------------------------------------
  // A recording cut at byte n: what the validator says

  /** The boxes of a recording, in file order. */
  function Flat(fs: seq<Fragment>): seq<Box> {
    if fs == [] then [] else [fs[0].moof, fs[0].mdat] + fs[0].extra + Flat(fs[1..])
  }

  function AllBoxes(r: Recording): seq<Box> {
    r.init + Flat(r.fragments)
  }

  lemma PairEncodes(f: Fragment)
    ensures EncodeAll([f.moof, f.mdat]) == Pair(f)
  {
    hide Encode;
    assert [f.moof, f.mdat][1..] == [f.mdat];
    assert EncodeAll([f.mdat]) == Encode(f.mdat);
  }

  lemma {:induction false} FlatEncodes(fs: seq<Fragment>)
    ensures EncodeAll(Flat(fs)) == EncodeFragments(fs)
  {
    hide Encode;
    if fs == [] {
    } else {
      var f := fs[0];
      var pair := [f.moof, f.mdat];
      PairEncodes(f);
      FlatEncodes(fs[1..]);
      EncodeAllConcat(pair + f.extra, Flat(fs[1..]));
      EncodeAllConcat(pair, f.extra);
    }
  }

  lemma {:induction false} FlatRepresentable(fs: seq<Fragment>)
    requires forall i :: 0 <= i < |fs| ==> WellFormedFragment(fs[i])
    ensures AllRepresentable(Flat(fs))
  {
    if fs == [] {
    } else {
      FlatRepresentable(fs[1..]);
    }
  }

  /** How many boxes lie wholly within the first `n` bytes. */
  function Within(bs: seq<Box>, n: nat): (k: nat)
    ensures k <= |bs|
  {
    if bs == [] || n < Size(bs[0]) then 0 else 1 + Within(bs[1..], n - Size(bs[0]))
  }

  /** `n` is the end of one of the boxes, or 0. */
  ghost predicate OnBoundary(bs: seq<Box>, n: nat) {
    n == |EncodeAll(bs[..Within(bs, n)])|
  }

  lemma EncodedSize(b: Box)
    requires Representable(b)
    ensures |Encode(b)| == Size(b)
  {
  }

  lemma WithinStep(bs: seq<Box>, n: nat)
    requires AllRepresentable(bs) && bs != [] && Size(bs[0]) <= n
    ensures Within(bs, n) == 1 + Within(bs[1..], n - Size(bs[0]))
    ensures OnBoundary(bs, n) <==> OnBoundary(bs[1..], n - Size(bs[0]))
    ensures bs[..Within(bs, n)] == [bs[0]] + bs[1..][..Within(bs[1..], n - Size(bs[0]))]
  {
    hide Encode;
    EncodedSize(bs[0]);
    var k := Within(bs[1..], n - Size(bs[0]));
    assert bs[..k + 1] == [bs[0]] + bs[1..][..k];
  }

  /** A cut of a box file parses exactly when it falls on a boundary, and then to the boxes before it. */
  lemma {:induction false} ParseCut(bs: seq<Box>, n: nat)
    requires AllRepresentable(bs) && n <= |EncodeAll(bs)|
    ensures Parse(EncodeAll(bs)[..n]) == if OnBoundary(bs, n) then Some(bs[..Within(bs, n)]) else None
  {
    hide ReadHeader, Encode;
    var s := EncodeAll(bs)[..n];
    if bs != [] && n > 0 {
      var b, tail := bs[0], EncodeAll(bs[1..]);
      EncodedSize(b);
      if n < Size(b) {
        HeaderOfTorn(b, n);
        assert s == Encode(b)[..n];
      } else {
        WithinStep(bs, n);
        CutAfterBox(b, tail, n);
        ParseCut(bs[1..], n - Size(b));
      }
    }
  }

  lemma CutAfterBox(b: Box, tail: seq<Byte>, n: nat)
    requires Representable(b) && Size(b) <= n <= Size(b) + |tail|
    ensures |Encode(b)| == Size(b)
    ensures var s := (Encode(b) + tail)[..n];
            && ReadHeader(s) == Header(b.typ, Size(b))
            && s[HEADER_SIZE..Size(b)] == b.body
            && s[Size(b)..] == tail[..n - Size(b)]
  {
    hide ReadHeader;
    HeaderOfEncoded(b, tail[..n - Size(b)]);
    assert (Encode(b) + tail)[..n] == Encode(b) + tail[..n - Size(b)];
  }

  lemma {:induction false} WithinAtLeast(bs: seq<Box>, n: nat, k: nat)
    requires AllRepresentable(bs) && k <= |bs|
    ensures k <= Within(bs, n) <==> |EncodeAll(bs[..k])| <= n
  {
    hide Encode;
    if k > 0 {
      EncodedSize(bs[0]);
      assert bs[..k] == [bs[0]] + bs[1..][..k - 1];
      if Size(bs[0]) <= n {
        WithinAtLeast(bs[1..], n - Size(bs[0]), k - 1);
      }
    }
  }

  /** The recorder's files: a moov and no mdat before the first fragment. */
  ghost predicate Recorded(r: Recording) {
    WellFormed(r) && Has(r.init, MOOV) && !Has(r.init, MDAT)
  }

  lemma BoxesFacts(r: Recording)
    requires WellFormed(r)
    ensures AllRepresentable(AllBoxes(r)) && EncodeAll(AllBoxes(r)) == EncodeRecording(r)
  {
    FlatRepresentable(r.fragments);
    FlatEncodes(r.fragments);
    EncodeAllConcat(r.init, Flat(r.fragments));
  }

  /** The first `k` boxes contain moov, moof and mdat exactly when they reach past the first mdat. */
  lemma FirstMdatDecides(r: Recording, k: nat)
    requires Recorded(r) && k <= |AllBoxes(r)|
    ensures var p := AllBoxes(r)[..k];
            Has(p, MOOV) && Has(p, MOOF) && Has(p, MDAT) <==> r.fragments != [] && |r.init| + 2 <= k
  {
    var bs := AllBoxes(r);
    var p := bs[..k];
    if r.fragments != [] && |r.init| + 2 <= k {
      var i :| 0 <= i < |r.init| && r.init[i].typ == MOOV;
      assert p[i].typ == MOOV;
      assert p[|r.init|] == r.fragments[0].moof && p[|r.init| + 1] == r.fragments[0].mdat;
    } else {
      forall i | 0 <= i < k ensures p[i].typ != MDAT {
        if i < |r.init| {
          assert p[i] == r.init[i];
        } else {
          assert p[i] == r.fragments[0].moof;
        }
      }
    }
  }

  lemma FirstMdatEnd(r: Recording)
    requires WellFormed(r) && r.fragments != []
    ensures |r.init| + 2 <= |AllBoxes(r)|
    ensures EncodeAll(AllBoxes(r)[..|r.init| + 2]) == EncodeAll(r.init) + Pair(r.fragments[0])
  {
    hide Encode;
    var f := r.fragments[0];
    var pair := [f.moof, f.mdat];
    assert AllBoxes(r)[..|r.init| + 2] == r.init + pair;
    EncodeAllConcat(r.init, pair);
    PairEncodes(f);
  }

  /**
   A recording cut by a crash after `n` bytes is accepted exactly when `n` is at least 32, lies on a box
   boundary, and covers the initialization boxes and the first moof and mdat.
   */
  lemma CrashAccepted(r: Recording, n: nat)
    requires Recorded(r) && n <= |EncodeRecording(r)|
    ensures Acceptable(EncodeRecording(r)[..n]) <==>
              && 32 <= n && OnBoundary(AllBoxes(r), n)
              && r.fragments != [] && |EncodeAll(r.init)| + |Pair(r.fragments[0])| <= n
  {
    hide Encode, Has, EncodeAll, Parse, Acceptable;
    var bs := AllBoxes(r);
    BoxesFacts(r);
    AcceptsIffAcceptable(EncodeRecording(r)[..n]);
    ParseCut(bs, n);
    FirstMdatDecides(r, Within(bs, n));
    if r.fragments != [] {
      FirstMdatEnd(r);
      WithinAtLeast(bs, n, |r.init| + 2);
    }
  }

  // ---------------------------------------------------------------------------------------------
  // A recording cut at byte n: what the indexer finds

  /** How many moof/mdat pairs lie wholly within the first `m` bytes after the initialization boxes. */
  function Complete(fs: seq<Fragment>, m: int): (k: nat)
    ensures k <= |fs|
  {
    if fs == [] || m < |Pair(fs[0])| then 0 else 1 + Complete(fs[1..], m - |EncodeFragment(fs[0])|)
  }

  lemma {:induction false} CompleteMeans(fs: seq<Fragment>, m: int, i: nat)
    requires i < |fs| && forall j :: 0 <= j < |fs| ==> |Pair(fs[j])| > 0
    ensures i < Complete(fs, m) <==> |EncodeFragments(fs[..i])| + |Pair(fs[i])| <= m
  {
    hide Pair;
    if i > 0 {
      assert fs[..i] == [fs[0]] + fs[1..][..i - 1];
      CompleteMeans(fs[1..], m - |EncodeFragment(fs[0])|, i - 1);
    }
  }

  lemma TornHeaderStops(b: Box, n: nat)
    requires Fits(b) && n < Size(b) && (n < HEADER_SIZE || b.typ == MOOF)
    ensures |Encode(b)| == Size(b) && Classify(Encode(b)[..n]) == Stop
  {
    hide ReadHeader;
    HeaderOfTorn(b, n);
  }

  lemma TornOtherSkips(b: Box, n: nat)
    requires Fits(b) && HEADER_SIZE <= n < Size(b) && b.typ != MOOF
    ensures |Encode(b)| == Size(b) && Classify(Encode(b)[..n]) == Skip(Size(b))
  {
    hide ReadHeader;
    HeaderOfTorn(b, n);
  }

  lemma TornPairStops(f: Fragment, m: nat)
    requires WellFormedFragment(f) && m < |Pair(f)|
    ensures Classify(Pair(f)[..m]) == Stop
  {
    hide ReadHeader;
    EncodedSize(f.moof);
    EncodedSize(f.mdat);
    var s := Pair(f)[..m];
    if m < Size(f.moof) {
      TornHeaderStops(f.moof, m);
      assert s == Encode(f.moof)[..m];
    } else {
      var rest := Encode(f.mdat)[..m - Size(f.moof)];
      assert s == Encode(f.moof) + rest;
      HeaderOfEncoded(f.moof, rest);
      HeaderOfTorn(f.mdat, m - Size(f.moof));
    }
  }

  lemma {:induction false} ScanTornOthers(u: Unmarshal, bs: seq<Box>, m: nat, off: nat)
    requires NoMoof(bs) && m <= |EncodeAll(bs)|
    ensures Scan(u, EncodeAll(bs)[..m], off) == []
  {
    hide Classify, Encode;
    var s := EncodeAll(bs)[..m];
    if bs == [] || m == 0 {
      assert s == [];
      ScanEmpty(u, off);
    } else {
      var b, tail := bs[0], EncodeAll(bs[1..]);
      EncodedSize(b);
      if m < Size(b) {
        assert s == Encode(b)[..m];
        if m < HEADER_SIZE {
          TornHeaderStops(b, m);
        } else {
          TornOtherSkips(b, m);
          ScanEmpty(u, off + Size(b));
        }
      } else {
        assert s == Encode(b) + tail[..m - Size(b)];
        ClassifyOther(b, tail[..m - Size(b)]);
        ScanTornOthers(u, bs[1..], m - Size(b), off + Size(b));
      }
    }
  }

  lemma ScanTornFragment(u: Unmarshal, f: Fragment, m: nat, off: nat)
    requires WellFormedFragment(f) && m < |EncodeFragment(f)|
    ensures Scan(u, EncodeFragment(f)[..m], off)
         == if m < |Pair(f)| then [] else [PartInfo(off, PartDuration(u, Pair(f)))]
  {
    hide Classify, From, Pair;
    var n := |Pair(f)|;
    if m < n {
      assert EncodeFragment(f)[..m] == Pair(f)[..m];
      TornPairStops(f, m);
    } else {
      var rest := EncodeAll(f.extra)[..m - n];
      assert EncodeFragment(f)[..m] == Pair(f) + rest;
      ClassifyPair(f, rest);
      ScanTornOthers(u, f.extra, m - n, off + n);
    }
  }

  lemma {:induction false} ScanTorn(u: Unmarshal, fs: seq<Fragment>, m: nat, off: nat)
    requires forall i :: 0 <= i < |fs| ==> WellFormedFragment(fs[i])
    requires m <= |EncodeFragments(fs)|
    ensures Scan(u, EncodeFragments(fs)[..m], off) == PartsOf(u, fs[..Complete(fs, m)], off)
  {
    hide Scan, EncodeFragment, Pair;
    if fs == [] {
      ScanEmpty(u, off);
    } else {
      var f, tail := fs[0], EncodeFragments(fs[1..]);
      var n := |EncodeFragment(f)|;
      FragmentLongerThanPair(f);
      if m < n {
        assert EncodeFragments(fs)[..m] == EncodeFragment(f)[..m];
        ScanTornFragment(u, f, m, off);
        CompleteNegative(fs[1..], m - n);
        assert m >= |Pair(f)| ==> fs[..1] == [f];
      } else {
        assert EncodeFragments(fs)[..m] == EncodeFragment(f) + tail[..m - n];
        ScanFragment(u, f, tail[..m - n], off);
        ScanTorn(u, fs[1..], m - n, off + n);
        var k := Complete(fs[1..], m - n);
        assert fs[..k + 1] == [f] + fs[1..][..k];
      }
    }
  }

  lemma FragmentLongerThanPair(f: Fragment)
    ensures |EncodeFragment(f)| >= |Pair(f)|
  {
  }

  lemma CompleteNegative(fs: seq<Fragment>, m: int)
    requires m < 0
    ensures Complete(fs, m) == 0
  {
  }

  lemma {:induction false} InitOfTorn(u: Unmarshal, bs: seq<Box>, n: nat)
    requires NoMoof(bs) && n < |EncodeAll(bs)|
    ensures var s := EncodeAll(bs)[..n]; forall off :: Scan(u, From(s, InitSize(s)), off) == []
  {
    hide Scan, Encode, ReadHeader;
    var s := EncodeAll(bs)[..n];
    var b, tail := bs[0], EncodeAll(bs[1..]);
    EncodedSize(b);
    forall off ensures Scan(u, From(s, InitSize(s)), off) == [] {
      if n < Size(b) {
        assert s == Encode(b)[..n];
        HeaderOfTorn(b, n);
        if n < HEADER_SIZE {
          TornHeaderStops(b, n);
          ScanStopped(u, s, off);
        } else {
          InitEmpty();
          ScanEmpty(u, off);
        }
      } else {
        var s' := tail[..n - Size(b)];
        assert s == Encode(b) + s';
        HeaderOfEncoded(b, s');
        InitOfTorn(u, bs[1..], n - Size(b));
        FromFrom(s, Size(b), InitSize(s'));
      }
    }
  }

  lemma ScanStopped(u: Unmarshal, s: seq<Byte>, off: nat)
    requires Classify(s) == Stop
    ensures Scan(u, s, off) == []
  {
  }

  lemma InitStopsAtTorn(fs: seq<Fragment>, m: nat)
    requires forall i :: 0 <= i < |fs| ==> WellFormedFragment(fs[i])
    requires m <= |EncodeFragments(fs)|
    ensures InitSize(EncodeFragments(fs)[..m]) == 0
  {
    hide Encode, ReadHeader, EncodeFragment;
    var s := EncodeFragments(fs)[..m];
    if fs == [] {
      InitEmpty();
    } else {
      var b := fs[0].moof;
      var rest := Encode(fs[0].mdat) + (EncodeAll(fs[0].extra) + EncodeFragments(fs[1..]));
      StartsWithMoof(fs[0], EncodeFragments(fs[1..]));
      EncodedSize(b);
      if m < Size(b) {
        assert s == Encode(b)[..m];
        HeaderOfTorn(b, m);
      } else {
        assert s == Encode(b) + rest[..m - Size(b)];
        InitAtMoof(b, rest[..m - Size(b)]);
      }
    }
  }

  /**
   Indexing a recording cut after `n` bytes, wherever the cut falls: exactly the fragments whose moof and mdat
   lie wholly inside the prefix are found, at their offsets and with their durations.
   */
  lemma IndexOfCut(u: Unmarshal, r: Recording, n: nat)
    requires WellFormed(r) && n <= |EncodeRecording(r)|
    ensures var off := |EncodeAll(r.init)|;
            var k := Complete(r.fragments, n - off);
            && Index(u, EncodeRecording(r)[..n]).parts == PartsOf(u, r.fragments[..k], off)
            && forall i :: 0 <= i < |r.fragments| ==>
                 (i < k <==> off + |EncodeFragments(r.fragments[..i])| + |Pair(r.fragments[i])| <= n)
  {
    hide Scan, EncodeFragments, PartsOf, Encode, InitSize;
    var init, body := EncodeAll(r.init), EncodeFragments(r.fragments);
    var s := EncodeRecording(r)[..n];
    if n < |init| {
      assert s == init[..n];
      InitOfTorn(u, r.init, n);
      CompleteNegative(r.fragments, n - |init|);
      NoParts(u, |init|);
    } else {
      var m := n - |init|;
      assert s == init + body[..m];
      InitStopsAtTorn(r.fragments, m);
      InitOfOthers(r.init, body[..m]);
      assert From(s, |init|) == body[..m];
      ScanTorn(u, r.fragments, m, |init|);
    }
    forall i | 0 <= i < |r.fragments|
      ensures i < Complete(r.fragments, n - |init|) <==>
                |init| + |EncodeFragments(r.fragments[..i])| + |Pair(r.fragments[i])| <= n
    {
      PairsNonEmpty(r.fragments);
      CompleteMeans(r.fragments, n - |init|, i);
    }
  }

  lemma NoParts(u: Unmarshal, off: nat)
    ensures PartsOf(u, [], off) == []
  {
  }

  lemma PairsNonEmpty(fs: seq<Fragment>)
    ensures forall j :: 0 <= j < |fs| ==> |Pair(fs[j])| > 0
  {
  }

  /** A cut file that the validator accepts still has a fragment to show; what is indexed is always a prefix. */
  lemma AcceptedHasFragment(u: Unmarshal, r: Recording, n: nat)
    requires Recorded(r) && n <= |EncodeRecording(r)|
    ensures var left := EncodeRecording(r)[..n];
            var parts := Index(u, left).parts;
            && |parts| <= |r.fragments|
            && parts == PartsOf(u, r.fragments[..|parts|], |EncodeAll(r.init)|)
            && (Acceptable(left) ==> |parts| >= 1)
  {
    hide EncodeRecording, PartsOf, Index, Acceptable, Has, Pair, EncodeAll, Complete, OnBoundary;
    IndexOfCut(u, r, n);
    CrashAccepted(r, n);
    if r.fragments != [] {
      assert r.fragments[..0] == [];
      assert EncodeFragments([]) == [];
    }
  }

  const EXAMPLE_MOOV := Box(MOOV, [0, 0, 0, 0])
  const EXAMPLE_FILE: seq<Box> := [EXAMPLE_MOOV, EXAMPLE_MOOF, EXAMPLE_MOOF, EXAMPLE_MDAT]

  lemma ExampleBytes()
    ensures EncodeAll(EXAMPLE_FILE) == Encode(EXAMPLE_MOOV) + EncodeAll([EXAMPLE_MOOF, EXAMPLE_MOOF, EXAMPLE_MDAT])
    ensures |Encode(EXAMPLE_MOOV)| == 12 && |EncodeAll(EXAMPLE_FILE)| == 48
  {
    HeaderOfEncoded(EXAMPLE_MOOV, []);
    HeaderOfEncoded(EXAMPLE_MOOF, []);
    HeaderOfEncoded(EXAMPLE_MDAT, []);
    ThreeBoxes(EXAMPLE_MOOF, EXAMPLE_MOOF, EXAMPLE_MDAT);
    hide Encode;
    assert EXAMPLE_FILE[1..] == [EXAMPLE_MOOF, EXAMPLE_MOOF, EXAMPLE_MDAT];
  }

  lemma ExampleAccepted()
    ensures Acceptable(EncodeAll(EXAMPLE_FILE))
  {
    hide Encode, EncodeAll;
    ExampleBytes();
    var bs := EXAMPLE_FILE;
    assert bs[0].typ == MOOV && bs[1].typ == MOOF && bs[3].typ == MDAT;
    assert AllRepresentable(bs) && Has(bs, MOOV) && Has(bs, MOOF) && Has(bs, MDAT);
  }

  /**
   Acceptance alone does not promise a fragment: the validator accepts moov, moof, moof, mdat, and nothing of it is
   indexed. For what the recorder writes, cut anywhere, AcceptedHasFragment promises one.
   */
  lemma AcceptedWithoutFragment(u: Unmarshal)
    ensures Acceptable(EncodeAll(EXAMPLE_FILE)) && Index(u, EncodeAll(EXAMPLE_FILE)).parts == []
  {
    hide Encode, EncodeAll, Scan, InitSize, Acceptable;
    ExampleAccepted();
    ExampleBytes();
    var tail := [EXAMPLE_MOOF, EXAMPLE_MOOF, EXAMPLE_MDAT];
    EncodeOne(EXAMPLE_MOOV);
    InitBeforeMoof(tail);
    InitOfOthers([EXAMPLE_MOOV], EncodeAll(tail));
    ExampleScan(u, 12);
    assert From(Encode(EXAMPLE_MOOV) + EncodeAll(tail), 12) == EncodeAll(tail);
  }
}
