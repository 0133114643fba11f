/**
 What the walkers of module Archive do on the files the recorder writes, whole or cut off by a crash.

 A recording is initialization boxes followed by fragments; a fragment is a moof, its mdat, and any boxes
 other than moof after it.
 */
module Recordings {
  import opened Frames
  import opened Boxes
  import opened Archive

  datatype Fragment = Fragment(moof: Box, mdat: Box, extra: seq<Box>)
  datatype Recording = Recording(init: seq<Box>, fragments: seq<Fragment>)

  ghost predicate NoMoof(bs: seq<Box>) {
    forall i :: 0 <= i < |bs| ==> Fits(bs[i]) && bs[i].typ != MOOF
  }

  ghost predicate WellFormedFragment(f: Fragment) {
    && Fits(f.moof) && f.moof.typ == MOOF
    && Fits(f.mdat) && f.mdat.typ == MDAT
    && NoMoof(f.extra)
  }

  ghost predicate WellFormed(r: Recording) {
    NoMoof(r.init) && forall i :: 0 <= i < |r.fragments| ==> WellFormedFragment(r.fragments[i])
  }

  function Pair(f: Fragment): seq<Byte> {
    Encode(f.moof) + Encode(f.mdat)
  }

  function EncodeFragment(f: Fragment): seq<Byte> {
    Pair(f) + EncodeAll(f.extra)
  }

  function EncodeFragments(fs: seq<Fragment>): seq<Byte> {
    if fs == [] then [] else EncodeFragment(fs[0]) + EncodeFragments(fs[1..])
  }

  function EncodeRecording(r: Recording): seq<Byte> {
    EncodeAll(r.init) + EncodeFragments(r.fragments)
  }

  /** The index entries of fragments laid out from offset `off` on. */
  function PartsOf(u: Unmarshal, fs: seq<Fragment>, off: nat): (ps: seq<PartInfo>)
    ensures |ps| == |fs|
  {
    if fs == [] then []
    else [PartInfo(off, PartDuration(u, Pair(fs[0])))] + PartsOf(u, fs[1..], off + |EncodeFragment(fs[0])|)
  }

  // ---------------------------------------------------------------------------------------------
  // Indexing a whole recording

  lemma ClassifyPair(f: Fragment, rest: seq<Byte>)
    requires WellFormedFragment(f)
    ensures Classify(Pair(f) + rest) == Part(|Pair(f)|)
    ensures (Pair(f) + rest)[..|Pair(f)|] == Pair(f) && From(Pair(f) + rest, |Pair(f)|) == rest
  {
    var s := Pair(f) + rest;
    assert s == Encode(f.moof) + (Encode(f.mdat) + rest);
    HeaderOfEncoded(f.moof, Encode(f.mdat) + rest);
    HeaderOfEncoded(f.mdat, rest);
  }

  lemma ClassifyOther(b: Box, rest: seq<Byte>)
    requires Fits(b) && b.typ != MOOF
    ensures Classify(Encode(b) + rest) == Skip(|Encode(b)|)
    ensures From(Encode(b) + rest, |Encode(b)|) == rest
  {
    HeaderOfEncoded(b, rest);
  }

  lemma {:induction false} ScanOthers(u: Unmarshal, bs: seq<Box>, rest: seq<Byte>, off: nat)
    requires NoMoof(bs)
    ensures Scan(u, EncodeAll(bs) + rest, off) == Scan(u, rest, off + |EncodeAll(bs)|)
  {
    hide Classify, From, Encode;
    if bs == [] {
      assert EncodeAll(bs) + rest == rest;
    } else {
      assert EncodeAll(bs) + rest == Encode(bs[0]) + (EncodeAll(bs[1..]) + rest);
      ClassifyOther(bs[0], EncodeAll(bs[1..]) + rest);
      ScanOthers(u, bs[1..], rest, off + |Encode(bs[0])|);
    }
  }

  lemma ScanFragment(u: Unmarshal, f: Fragment, rest: seq<Byte>, off: nat)
    requires WellFormedFragment(f)
    ensures Scan(u, EncodeFragment(f) + rest, off)
         == [PartInfo(off, PartDuration(u, Pair(f)))] + Scan(u, rest, off + |EncodeFragment(f)|)
  {
    hide Classify, From;
    var tail := EncodeAll(f.extra) + rest;
    assert EncodeFragment(f) + rest == Pair(f) + tail;
    ClassifyPair(f, tail);
    ScanOthers(u, f.extra, rest, off + |Pair(f)|);
  }

  lemma ScanEmpty(u: Unmarshal, off: nat)
    ensures Scan(u, [], off) == []
  {
  }

  lemma {:induction false} ScanFragments(u: Unmarshal, fs: seq<Fragment>, off: nat)
    requires forall i :: 0 <= i < |fs| ==> WellFormedFragment(fs[i])
    ensures Scan(u, EncodeFragments(fs), off) == PartsOf(u, fs, off)
  {
    hide Scan, EncodeFragment;
    if fs == [] {
      ScanEmpty(u, off);
    }
    if fs == [] {
    } else {
      ScanFragment(u, fs[0], EncodeFragments(fs[1..]), off);
      ScanFragments(u, fs[1..], off + |EncodeFragment(fs[0])|);
    }
  }

  lemma {:induction false} InitOfOthers(bs: seq<Box>, rest: seq<Byte>)
    requires NoMoof(bs) && InitSize(rest) == 0
    ensures InitSize(EncodeAll(bs) + rest) == |EncodeAll(bs)|
  {
    hide Encode, ReadHeader;
    if bs == [] {
      assert EncodeAll(bs) + rest == rest;
    } else {
      assert EncodeAll(bs) + rest == Encode(bs[0]) + (EncodeAll(bs[1..]) + rest);
      HeaderOfEncoded(bs[0], EncodeAll(bs[1..]) + rest);
      InitOfOthers(bs[1..], rest);
    }
  }

  lemma InitEmpty()
    ensures InitSize([]) == 0
  {
  }

  lemma InitAtMoof(b: Box, rest: seq<Byte>)
    requires Fits(b) && b.typ == MOOF
    ensures InitSize(Encode(b) + rest) == 0
  {
    HeaderOfEncoded(b, rest);
  }

  lemma StartsWithMoof(f: Fragment, rest: seq<Byte>)
    ensures EncodeFragment(f) + rest == Encode(f.moof) + (Encode(f.mdat) + (EncodeAll(f.extra) + rest))
  {
    hide Encode, EncodeAll;
  }

  lemma InitStopsAtFragments(fs: seq<Fragment>)
    requires forall i :: 0 <= i < |fs| ==> WellFormedFragment(fs[i])
    ensures InitSize(EncodeFragments(fs)) == 0
  {
    hide Encode, EncodeAll, InitSize, EncodeFragment;
    if fs == [] {
      InitEmpty();
    } else {
      StartsWithMoof(fs[0], EncodeFragments(fs[1..]));
      InitAtMoof(fs[0].moof, Encode(fs[0].mdat) + (EncodeAll(fs[0].extra) + EncodeFragments(fs[1..])));
    }
  }

  /** Indexing a well-formed recording finds exactly its fragments, where they are and as long as they are. */
  lemma IndexExact(u: Unmarshal, r: Recording)
    requires WellFormed(r)
    ensures var init := |EncodeAll(r.init)|;
            Index(u, EncodeRecording(r)) == FileIndex(init, PartsOf(u, r.fragments, init))
  {
    var init, body := EncodeAll(r.init), EncodeFragments(r.fragments);
    InitStopsAtFragments(r.fragments);
    InitOfOthers(r.init, body);
    assert From(init + body, |init|) == body;
    ScanFragments(u, r.fragments, |init|);
  }

  // ---------------------------------------------------------------------------------------------
  // Walking over any boxes

  ghost predicate AllFit(bs: seq<Box>) {
    forall k :: 0 <= k < |bs| ==> Fits(bs[k])
  }

  /** After one iteration the walk has stopped or stands where a box starts or the file ends. */
  ghost predicate InStep(bs: seq<Box>) {
    var move := Classify(EncodeAll(bs));
    move.Stop? || exists k :: 0 <= k <= |bs| && move.n == |EncodeAll(bs[..k])|
  }

  /** A moof, and then a box that is not its mdat. */
  ghost predicate Orphaned(bs: seq<Box>) {
    |bs| >= 2 && bs[0].typ == MOOF && bs[1].typ != MDAT
  }

  /**
   When the walk loses step, for every list of boxes: exactly at a moof that is followed by a box with a body other
   than its mdat. (A box without a body is passed over together with the moof.)
   */
  lemma InStepExact(bs: seq<Box>)
    requires AllFit(bs)
    ensures InStep(bs) <==> !(Orphaned(bs) && bs[1].body != [])
  {
    hide Classify, EncodeAll;
    if bs == [] {
      EmptyStops();
    } else if |bs| == 1 {
      LastBox(bs[0]);
      BoundaryAt(bs, 1);
      assert bs == [bs[0]];
    } else {
      TwoBoxes(bs);
      BoundaryAt(bs, 1);
      BoundaryAt(bs, 2);
      if Orphaned(bs) {
        forall k | 0 <= k <= |bs| ensures |EncodeAll(bs[..k])| == Size(bs[0]) + HEADER_SIZE ==> bs[1].body == [] {
          BoundaryBounds(bs, k);
        }
      }
    }
  }

  lemma EmptyStops()
    ensures Classify(EncodeAll([])).Stop?
  {
  }

  lemma EncodeOne(b: Box)
    ensures EncodeAll([b]) == Encode(b)
  {
    hide Encode;
    assert EncodeAll([b]) == Encode(b) + EncodeAll([]);
  }

  lemma EncodeTwo(bs: seq<Box>)
    requires |bs| >= 2
    ensures EncodeAll(bs) == Encode(bs[0]) + (Encode(bs[1]) + EncodeAll(bs[2..]))
  {
    hide Encode;
    assert bs[1..][1..] == bs[2..];
    assert EncodeAll(bs[1..]) == Encode(bs[1]) + EncodeAll(bs[2..]);
  }

  lemma LastBox(b: Box)
    requires Fits(b)
    ensures EncodeAll([b]) == Encode(b) && Classify(Encode(b)) == if b.typ == MOOF then Stop else Skip(Size(b))
  {
    EncodeOne(b);
    HeaderOfEncoded(b, []);
    assert Encode(b) + [] == Encode(b);
  }

  lemma EncodedLength(b: Box)
    requires Fits(b)
    ensures |Encode(b)| == Size(b)
  {
  }

  lemma TwoBoxes(bs: seq<Box>)
    requires AllFit(bs) && |bs| >= 2
    ensures Classify(EncodeAll(bs))
         == if bs[0].typ != MOOF then Skip(Size(bs[0]))
            else if bs[1].typ == MDAT then Part(Size(bs[0]) + Size(bs[1])) else Skip(Size(bs[0]) + HEADER_SIZE)
  {
    hide Encode, Classify, EncodeAll, From;
    var a, b, rest := bs[0], bs[1], EncodeAll(bs[2..]);
    EncodeTwo(bs);
    EncodedLength(a);
    EncodedLength(b);
    if a.typ != MOOF {
      ClassifyOther(a, Encode(b) + rest);
    } else if b.typ == MDAT {
      PairClassified(a, b, rest);
    } else {
      OrphanClassified(a, b, rest);
    }
  }

  lemma PairClassified(moof: Box, mdat: Box, rest: seq<Byte>)
    requires Fits(moof) && moof.typ == MOOF && Fits(mdat) && mdat.typ == MDAT
    ensures Classify(Encode(moof) + (Encode(mdat) + rest)) == Part(Size(moof) + Size(mdat))
  {
    hide Encode, Classify, From;
    EncodedLength(moof);
    EncodedLength(mdat);
    ClassifyPair(Fragment(moof, mdat, []), rest);
    assert Encode(moof) + (Encode(mdat) + rest) == (Encode(moof) + Encode(mdat)) + rest;
  }

  lemma BoundaryAt(bs: seq<Box>, k: nat)
    requires AllFit(bs) && 1 <= k <= 2 && k <= |bs|
    ensures |EncodeAll(bs[..k])| == Size(bs[0]) + if k == 2 then Size(bs[1]) else 0
  {
    hide Encode, EncodeAll;
    HeaderOfEncoded(bs[0], []);
    if k == 1 {
      EncodeOne(bs[0]);
      assert bs[..1] == [bs[0]];
    } else {
      HeaderOfEncoded(bs[1], []);
      EncodeOne(bs[0]);
      EncodeOne(bs[1]);
      EncodeAllConcat([bs[0]], [bs[1]]);
      assert bs[..2] == [bs[0]] + [bs[1]];
    }
  }

  lemma BoundaryBounds(bs: seq<Box>, k: nat)
    requires AllFit(bs) && |bs| >= 2 && k <= |bs|
    ensures |EncodeAll(bs[..k])| <= Size(bs[0]) || |EncodeAll(bs[..k])| >= Size(bs[0]) + Size(bs[1])
  {
    if k == 0 {
      assert EncodeAll(bs[..0]) == [];
    } else if k == 1 {
      BoundaryAt(bs, 1);
    } else {
      BoundaryAt(bs, 2);
      assert bs[..k] == bs[..2] + bs[2..k];
      EncodeAllConcat(bs[..2], bs[2..k]);
    }
  }

  /** The index entries of the moof/mdat pairs among `bs`, laid out from offset `off` on. */
  function PairsOf(u: Unmarshal, bs: seq<Box>, off: nat): seq<PartInfo> {
    if |bs| < 2 then []
    else
      (if bs[0].typ == MOOF && bs[1].typ == MDAT
       then [PartInfo(off, PartDuration(u, Encode(bs[0]) + Encode(bs[1])))]
       else [])
      + PairsOf(u, bs[1..], off + |Encode(bs[0])|)
  }

  ghost predicate NoOrphan(bs: seq<Box>) {
    forall k :: 0 <= k < |bs| ==> !Orphaned(bs[k..])
  }

  lemma NoOrphanTail(bs: seq<Box>)
    requires AllFit(bs) && NoOrphan(bs) && bs != []
    ensures !Orphaned(bs) && AllFit(bs[1..]) && NoOrphan(bs[1..])
  {
    assert bs[0..] == bs;
    forall k | 0 <= k < |bs[1..]| ensures !Orphaned(bs[1..][k..]) {
      assert bs[1..][k..] == bs[k + 1..];
    }
  }

  /** Over any boxes none of whose moofs is orphaned, in whatever order, the walk finds exactly the moof/mdat pairs. */
  lemma {:induction false} WalkFindsPairs(u: Unmarshal, bs: seq<Box>, off: nat)
    requires AllFit(bs) && NoOrphan(bs)
    ensures Scan(u, EncodeAll(bs), off) == PairsOf(u, bs, off)
  {
    hide Classify, From, Encode, Orphaned, Scan, NoOrphan;
    if bs == [] {
      ScanEmpty(u, off);
    } else {
      NoOrphanTail(bs);
      var rest := EncodeAll(bs[1..]);
      if bs[0].typ != MOOF {
        ScanOther(u, bs[0], rest, off);
        WalkFindsPairs(u, bs[1..], off + |Encode(bs[0])|);
      } else if |bs| == 1 {
        LastBox(bs[0]);
        ScanStops(u, Encode(bs[0]), off);
        assert bs == [bs[0]];
      } else {
        PairNext(bs);
        NoOrphanTail(bs[1..]);
        WalkFindsPairs(u, bs[1..], off + |Encode(bs[0])|);
        var after := EncodeAll(bs[2..]);
        assert bs[1..][1..] == bs[2..] && rest == Encode(bs[1]) + after;
        ScanOther(u, bs[1], after, off + |Encode(bs[0])|);
        ScanPair(u, bs[0], bs[1], after, off);
      }
    }
  }

  /** The whole index of such a file. */
  lemma IndexFindsPairs(u: Unmarshal, bs: seq<Box>)
    requires AllFit(bs) && NoOrphan(bs)
    ensures Index(u, EncodeAll(bs)).parts == PairsOf(u, bs, 0)
  {
    hide Scan, EncodeAll, InitSize, PairsOf;
    var n := FirstMoof(bs);
    var a, b := bs[..n], bs[n..];
    assert bs == a + b;
    EncodeAllConcat(a, b);
    InitBeforeMoof(b);
    InitOfOthers(a, EncodeAll(b));
    ScanOthers(u, a, EncodeAll(b), 0);
    assert From(EncodeAll(a) + EncodeAll(b), |EncodeAll(a)|) == EncodeAll(b);
    WalkFindsPairs(u, bs, 0);
  }

  lemma InitBeforeMoof(bs: seq<Box>)
    requires AllFit(bs) && (bs != [] ==> bs[0].typ == MOOF)
    ensures InitSize(EncodeAll(bs)) == 0
  {
    hide InitSize, Encode;
    if bs == [] {
      InitEmpty();
    } else {
      InitAtMoof(bs[0], EncodeAll(bs[1..]));
    }
  }

  /** The index of the first moof, or the length if there is none. */
  function FirstMoof(bs: seq<Box>): (k: nat)
    ensures k <= |bs| && (k < |bs| ==> bs[k].typ == MOOF) && forall j :: 0 <= j < k ==> bs[j].typ != MOOF
  {
    if bs == [] || bs[0].typ == MOOF then 0 else 1 + FirstMoof(bs[1..])
  }

  lemma PairNext(bs: seq<Box>)
    requires |bs| >= 2 && bs[0].typ == MOOF && !Orphaned(bs)
    ensures bs[1].typ == MDAT && bs[1].typ != MOOF
  {
  }

  lemma ScanStops(u: Unmarshal, s: seq<Byte>, off: nat)
    requires Classify(s).Stop?
    ensures Scan(u, s, off) == []
  {
  }

  lemma ScanOther(u: Unmarshal, b: Box, rest: seq<Byte>, off: nat)
    requires Fits(b) && b.typ != MOOF
    ensures Scan(u, Encode(b) + rest, off) == Scan(u, rest, off + |Encode(b)|)
  {
    hide Classify, From, Encode;
    ClassifyOther(b, rest);
  }

  lemma ScanPair(u: Unmarshal, moof: Box, mdat: Box, rest: seq<Byte>, off: nat)
    requires Fits(moof) && moof.typ == MOOF && Fits(mdat) && mdat.typ == MDAT
    ensures Scan(u, Encode(moof) + (Encode(mdat) + rest), off)
         == [PartInfo(off, PartDuration(u, Encode(moof) + Encode(mdat)))]
            + Scan(u, rest, off + |Encode(moof)| + |Encode(mdat)|)
  {
    hide Classify, From, Encode;
    var f := Fragment(moof, mdat, []);
    assert Encode(moof) + (Encode(mdat) + rest) == Pair(f) + rest;
    ClassifyPair(f, rest);
  }

  /**
   After an orphaned moof the walk resumes right behind the header of the box that follows: inside its body, or
   after it when it has none.
   */
  lemma OrphanMoof(u: Unmarshal, moof: Box, other: Box, rest: seq<Byte>, off: nat)
    requires Fits(moof) && moof.typ == MOOF && Fits(other) && other.typ != MDAT
    ensures Scan(u, Encode(moof) + (Encode(other) + rest), off)
         == Scan(u, other.body + rest, off + Size(moof) + HEADER_SIZE)
  {
    hide Classify, From, Encode;
    OrphanClassified(moof, other, rest);
  }

  /**
   A fragment right after an orphaned moof is lost, whatever it contains and whatever follows it: nothing is indexed
   there.
   */
  lemma FragmentLost(u: Unmarshal, moof: Box, f: Fragment, rest: seq<Byte>, off: nat)
    requires Fits(moof) && moof.typ == MOOF && WellFormedFragment(f)
    ensures var parts := Scan(u, Encode(moof) + (EncodeFragment(f) + rest), off);
            forall k :: 0 <= k < |parts| ==> parts[k].offset > off + |Encode(moof)|
  {
    hide Scan, Encode, EncodeAll, Located;
    var after := Encode(f.mdat) + (EncodeAll(f.extra) + rest);
    StartsWithMoof(f, rest);
    HeaderOfEncoded(moof, []);
    OrphanMoof(u, moof, f.moof, after, off);
    ScanBounds(u, f.moof.body + after, off + Size(moof) + HEADER_SIZE);
  }

  const EXAMPLE_MOOF := Box(MOOF, [0, 0, 0, 0])
  const EXAMPLE_MDAT := Box(MDAT, [1, 2, 3, 4])

  lemma ExampleScan(u: Unmarshal, off: nat)
    ensures Scan(u, EncodeAll([EXAMPLE_MOOF, EXAMPLE_MOOF, EXAMPLE_MDAT]), off) == []
  {
    hide Scan, Encode, Classify;
    var moof, rest := EXAMPLE_MOOF, Encode(EXAMPLE_MDAT) + [];
    ThreeBoxes(moof, moof, EXAMPLE_MDAT);
    OrphanMoof(u, moof, moof, rest, off);
    ZeroSizeStops(moof.body, rest);
    ScanStops(u, moof.body + rest, off + Size(moof) + HEADER_SIZE);
  }

  /** A file of three boxes, moof, moof, mdat, whose only fragment is not indexed. */
  lemma OrphanExample(u: Unmarshal)
    ensures var bs := [EXAMPLE_MOOF, EXAMPLE_MOOF, EXAMPLE_MDAT];
            && Index(u, EncodeAll(bs)) == FileIndex(0, [])
            && PairsOf(u, bs, 0) == [PartInfo(12, PartDuration(u, Encode(EXAMPLE_MOOF) + Encode(EXAMPLE_MDAT)))]
  {
    var moof, mdat := EXAMPLE_MOOF, EXAMPLE_MDAT;
    var bs := [moof, moof, mdat];
    HeaderOfEncoded(moof, []);
    hide Encode, Scan, InitSize, EncodeAll, PartDuration;
    InitBeforeMoof(bs);
    FromStart(EncodeAll(bs));
    ExampleScan(u, 0);
    assert bs[1..] == [moof, mdat] && [moof, mdat][1..] == [mdat];
    assert PairsOf(u, [mdat], 24) == [];
    assert PairsOf(u, [moof, mdat], 12) == [PartInfo(12, PartDuration(u, Encode(moof) + Encode(mdat)))] + [];
  }

  lemma ThreeBoxes(a: Box, b: Box, c: Box)
    ensures EncodeAll([a, b, c]) == Encode(a) + (Encode(b) + (Encode(c) + []))
  {
    hide Encode;
    assert [a, b, c][2..] == [c];
    EncodeTwo([a, b, c]);
    EncodeOne(c);
  }

  lemma ZeroSizeStops(zeros: seq<Byte>, rest: seq<Byte>)
    requires zeros == [0, 0, 0, 0]
    ensures Classify(zeros + rest).Stop?
  {
    assert |zeros + rest| >= HEADER_SIZE ==> Uint32(zeros + rest) == 0;
  }

  lemma OrphanClassified(moof: Box, other: Box, rest: seq<Byte>)
    requires Fits(moof) && moof.typ == MOOF && Fits(other) && other.typ != MDAT
    ensures var s := Encode(moof) + (Encode(other) + rest);
            && Classify(s) == Skip(Size(moof) + HEADER_SIZE)
            && From(s, Size(moof) + HEADER_SIZE) == other.body + rest
  {
    hide ReadHeader, PutUint32;
    HeaderOfEncoded(moof, Encode(other) + rest);
    HeaderOfEncoded(other, rest);
    var s := Encode(moof) + (Encode(other) + rest);
    assert From(s, Size(moof) + HEADER_SIZE) == (Encode(other) + rest)[HEADER_SIZE..];
  }

  // ---------------------------------------------------------------------------------------------
  // Exporting a range

  lemma {:induction false} EncodeFragmentsConcat(a: seq<Fragment>, b: seq<Fragment>)
    ensures EncodeFragments(a + b) == EncodeFragments(a) + EncodeFragments(b)
  {
    if a == [] {
      assert a + b == b;
    } else {
      assert (a + b)[1..] == a[1..] + b;
      EncodeFragmentsConcat(a[1..], b);
    }
  }

  /** The k-th entry sits after the first k fragments and carries the k-th fragment's duration. */
  lemma {:induction false} PartsOfAt(u: Unmarshal, fs: seq<Fragment>, off: nat, k: nat)
    requires k < |fs|
    ensures PartsOf(u, fs, off)[k] == PartInfo(off + |EncodeFragments(fs[..k])|, PartDuration(u, Pair(fs[k])))
  {
    hide EncodeFragment, PartDuration;
    if k == 0 {
      assert EncodeFragments(fs[..0]) == [];
    } else {
      PartsOfAt(u, fs[1..], off + |EncodeFragment(fs[0])|, k - 1);
      var prefix := fs[..k];
      assert prefix[0] == fs[0] && prefix[1..] == fs[1..][..k - 1] && fs[1..][k - 1] == fs[k];
    }
  }

  /** The recording that consists of the fragments `lo` to `hi` of `r`. */
  function Clip(r: Recording, lo: nat, hi: nat): Recording
    requires lo <= hi < |r.fragments|
  {
    Recording(r.init, r.fragments[lo..hi + 1])
  }

  /** The bytes of fragments `lo` to `hi` are the stretch between their offsets. */
  lemma FragmentStretch(fs: seq<Fragment>, lo: nat, hi: nat)
    requires lo <= hi <= |fs|
    ensures |EncodeFragments(fs[..lo])| <= |EncodeFragments(fs[..hi])| <= |EncodeFragments(fs)|
    ensures EncodeFragments(fs)[|EncodeFragments(fs[..lo])|..|EncodeFragments(fs[..hi])|] == EncodeFragments(fs[lo..hi])
  {
    assert fs == fs[..hi] + fs[hi..] && fs[..hi] == fs[..lo] + fs[lo..hi];
    EncodeFragmentsConcat(fs[..hi], fs[hi..]);
    EncodeFragmentsConcat(fs[..lo], fs[lo..hi]);
  }

  /** Exporting a range of a well-formed recording writes the recording of just those fragments. */
  lemma ExportIsClip(u: Unmarshal, r: Recording, startSeq: int, endSeq: int)
    requires WellFormed(r) && r.fragments != []
    ensures var n := |r.fragments|;
            var lo, hi := ClampStart(n, startSeq, endSeq), ClampEnd(n, endSeq);
            Export(u, EncodeRecording(r), startSeq, endSeq) == Ok(EncodeRecording(Clip(r, lo, hi)))
  {
    hide Index, EncodeAll, EncodeFragments, PartsOf, PartDuration;
    var fs, n := r.fragments, |r.fragments|;
    var lo, hi := ClampStart(n, startSeq, endSeq), ClampEnd(n, endSeq);
    var init, body := EncodeAll(r.init), EncodeFragments(fs);
    var file := init + body;
    IndexExact(u, r);
    PartsOfAt(u, fs, |init|, lo);
    if hi + 1 < n {
      PartsOfAt(u, fs, |init|, hi + 1);
    } else {
      assert fs[..hi + 1] == fs;
    }
    FragmentStretch(fs, lo, hi + 1);
    var a, b := |EncodeFragments(fs[..lo])|, |EncodeFragments(fs[..hi + 1])|;
    SliceAfter(init, body, a, b);
  }

  lemma SliceAfter(init: seq<Byte>, body: seq<Byte>, a: nat, b: nat)
    requires a <= b <= |body|
    ensures (init + body)[..|init|] == init && (init + body)[|init| + a..|init| + b] == body[a..b]
  {
  }

  /** A range in bounds is exactly the fragments from its start to its end. */
  lemma ExportInRange(u: Unmarshal, r: Recording, startSeq: nat, endSeq: nat)
    requires WellFormed(r) && startSeq <= endSeq < |r.fragments|
    ensures Export(u, EncodeRecording(r), startSeq, endSeq)
         == Ok(EncodeAll(r.init) + EncodeFragments(r.fragments[startSeq..endSeq + 1]))
  {
    hide Export, EncodeAll, EncodeFragments;
    ExportIsClip(u, r, startSeq, endSeq);
  }

  /** Exporting everything reproduces the file byte for byte. */
  lemma FullExport(u: Unmarshal, r: Recording)
    requires WellFormed(r) && r.fragments != []
    ensures Export(u, EncodeRecording(r), 0, -1) == Ok(EncodeRecording(r))
    ensures Export(u, EncodeRecording(r), 0, |r.fragments| - 1) == Ok(EncodeRecording(r))
  {
    hide Export, EncodeRecording;
    ExportIsClip(u, r, 0, -1);
    ExportIsClip(u, r, 0, |r.fragments| - 1);
    assert r.fragments[0..|r.fragments|] == r.fragments;
  }

  /** A fragment whose durations cannot be read counts as one second, any other as the sum of its durations. */
  lemma IndexedDurations(u: Unmarshal, r: Recording, k: nat)
    requires WellFormed(r) && k < |r.fragments|
    ensures var parts := Index(u, EncodeRecording(r)).parts;
            var d := u(Encode(r.fragments[k].moof) + Encode(r.fragments[k].mdat));
            |parts| == |r.fragments| && parts[k].duration == if d == 0 then 90_000 else d
  {
    hide Index, EncodeRecording, PartsOf, EncodeFragments, EncodeAll, Encode;
    IndexExact(u, r);
    PartsOfAt(u, r.fragments, |EncodeAll(r.init)|, k);
  }

  /** `qs` is `ps` with every offset lowered by `delta`. */
  ghost predicate ShiftedBy(ps: seq<PartInfo>, qs: seq<PartInfo>, delta: int) {
    && |ps| == |qs|
    && forall k :: 0 <= k < |ps| ==> qs[k].offset == ps[k].offset - delta && qs[k].duration == ps[k].duration
  }

  /**
   Re-indexing an exported clip: the same initialization size, exactly the fragments of the range, the same
   durations, and all offsets shifted by one constant.
   */
  lemma ReindexClip(u: Unmarshal, r: Recording, startSeq: int, endSeq: int)
    requires WellFormed(r) && r.fragments != []
    ensures var file := EncodeRecording(r);
            var idx := Index(u, file);
            var lo, hi := ClampStart(|r.fragments|, startSeq, endSeq), ClampEnd(|r.fragments|, endSeq);
            && |idx.parts| == |r.fragments|
            && Export(u, file, startSeq, endSeq).Ok?
            && var again := Index(u, Export(u, file, startSeq, endSeq).value);
            && again.initSize == idx.initSize
            && ShiftedBy(idx.parts[lo..hi + 1], again.parts, idx.parts[lo].offset - idx.initSize)
  {
    hide Export, Index, EncodeRecording, PartsOf, EncodeAll;
    var fs, n, off := r.fragments, |r.fragments|, |EncodeAll(r.init)|;
    var lo, hi := ClampStart(n, startSeq, endSeq), ClampEnd(n, endSeq);
    ExportIsClip(u, r, startSeq, endSeq);
    IndexExact(u, r);
    IndexExact(u, Clip(r, lo, hi));
    PartsOfSlice(u, fs, off, lo, hi);
  }

  lemma PartsOfSlice(u: Unmarshal, fs: seq<Fragment>, off: nat, lo: nat, hi: nat)
    requires lo <= hi < |fs|
    ensures ShiftedBy(PartsOf(u, fs, off)[lo..hi + 1], PartsOf(u, fs[lo..hi + 1], off),
                      PartsOf(u, fs, off)[lo].offset - off)
  {
    hide PartsOf, EncodeFragments, PartDuration;
    PartsOfAt(u, fs, off, lo);
    var ps, qs := PartsOf(u, fs, off)[lo..hi + 1], PartsOf(u, fs[lo..hi + 1], off);
    forall k | 0 <= k < |qs|
      ensures qs[k].offset == ps[k].offset - |EncodeFragments(fs[..lo])| && qs[k].duration == ps[k].duration
    {
      PartsOfAt(u, fs, off, lo + k);
      PartsOfAt(u, fs[lo..hi + 1], off, k);
      assert fs[..lo + k] == fs[..lo] + fs[lo..hi + 1][..k];
      EncodeFragmentsConcat(fs[..lo], fs[lo..hi + 1][..k]);
    }
  }
}
