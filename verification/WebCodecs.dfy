/**
 The WebCodecs wire format: the server's packets (internal/api/ws.go) and the browser's parser
 (web/src/v2/components/player/WebCodecsPlayerV2.tsx).
 */
module WebCodecs {
  import opened Frames
  import opened Boxes

  const START_CODE: seq<Byte> := [0, 0, 0, 1]

  /** The access unit as the server sends it (Annex B of ITU-T H.264). */
  function AnnexB(nalus: seq<seq<Byte>>): seq<Byte> {
    if nalus == [] then [] else START_CODE + nalus[0] + AnnexB(nalus[1..])
  }

  /** The access unit as the decoder wants it: every unit behind its 4-byte length. */
  function Avcc(nalus: seq<seq<Byte>>): seq<Byte> {
    if nalus == [] then [] else PutUint32(|nalus[0]|) + nalus[0] + Avcc(nalus[1..])
  }

  // ---------------------------------------------------------------------------------------------
  // annexBToAvcc

  predicate CodeAt(s: seq<Byte>, i: nat) {
    i + 4 <= |s| && s[i] == 0 && s[i + 1] == 0 && s[i + 2] == 0 && s[i + 3] == 1
  }

  datatype Span = Span(pos: nat, end: nat)

  function CloseSpan(start: int, end: nat): seq<Span> {
    if start < 0 then [] else [Span(start, end)]
  }

  /** The scan from index `i` with the last start code seen at `start` (or -1). */
  function Spans(s: seq<Byte>, start: int, i: nat): seq<Span>
    decreases |s| - i
  {
    if i + 4 > |s| then CloseSpan(start, |s|)
    else if CodeAt(s, i) then CloseSpan(start, i) + Spans(s, i, i + 4)
    else Spans(s, start, i + 1)
  }

  /** Spans whose four length bytes lie inside `n` bytes. */
  ghost predicate Placed(spans: seq<Span>, n: nat) {
    forall k :: 0 <= k < |spans| ==> spans[k].pos + 4 <= spans[k].end <= n
  }

  function PutLength(s: seq<Byte>, span: Span): (r: seq<Byte>)
    requires span.pos + 4 <= span.end <= |s|
    ensures |r| == |s|
  {
    s[..span.pos] + PutUint32(span.end - (span.pos + 4)) + s[span.pos + 4..]
  }

  function Overwrite(s: seq<Byte>, spans: seq<Span>): (r: seq<Byte>)
    requires Placed(spans, |s|)
    ensures |r| == |s|
    decreases |spans|
  {
    if spans == [] then s else Overwrite(PutLength(s, spans[0]), spans[1..])
  }

  lemma {:induction false} SpansPlaced(s: seq<Byte>, start: int, i: nat)
    requires start + 4 <= i <= |s| || start < 0
    ensures Placed(Spans(s, start, i), |s|)
    ensures forall k :: 0 <= k < |Spans(s, start, i)| ==> Spans(s, start, i)[k].pos >= if start < 0 then i else start
    decreases |s| - i
  {
    if i + 4 <= |s| {
      if CodeAt(s, i) {
        SpansPlaced(s, i, i + 4);
      } else {
        SpansPlaced(s, start, i + 1);
      }
    }
  }

  function Convert(s: seq<Byte>): seq<Byte> {
    SpansPlaced(s, -1, 0);
    Overwrite(s, Spans(s, -1, 0))
  }

  /** annexBToAvcc: a scan that records the unit positions, then the length bytes written over the start codes. */
  method AnnexBToAvcc(annexB: seq<Byte>) returns (output: array<Byte>)
    ensures fresh(output) && output[..] == Convert(annexB)
  {
    ghost var goal := Convert(annexB);
    var naluPositions := FindUnits(annexB);
    SpansPlaced(annexB, -1, 0);
    hide Spans, PutLength, Overwrite;
    output := new Byte[|annexB|](k requires 0 <= k < |annexB| => annexB[k]);
    assert output[..] == annexB;
    assert naluPositions[0..] == naluPositions;
    assert Overwrite(output[..], naluPositions) == goal;
    for j := 0 to |naluPositions|
      invariant Placed(naluPositions[j..], output.Length)
      invariant Overwrite(output[..], naluPositions[j..]) == goal
    {
      assert naluPositions[j..] == [naluPositions[j]] + naluPositions[j + 1..];
      OverwriteFirst(output[..], naluPositions[j], naluPositions[j + 1..]);
      WriteLength(output, naluPositions[j]);
    }
    OverwriteNone(output[..], naluPositions[|naluPositions|..]);
  }

  method WriteLength(output: array<Byte>, span: Span)
    requires span.pos + 4 <= span.end <= output.Length
    modifies output
    ensures output[..] == PutLength(old(output[..]), span)
  {
    var naluLen := span.end - (span.pos + 4);
    output[span.pos] := naluLen / 16777216 % 256;
    output[span.pos + 1] := naluLen / 65536 % 256;
    output[span.pos + 2] := naluLen / 256 % 256;
    output[span.pos + 3] := naluLen % 256;
  }

  lemma OverwriteNone(s: seq<Byte>, spans: seq<Span>)
    requires spans == []
    ensures Overwrite(s, spans) == s
  {
  }

  lemma OverwriteFirst(s: seq<Byte>, span: Span, spans: seq<Span>)
    requires span.pos + 4 <= span.end <= |s| && Placed(spans, |s|)
    ensures Placed([span] + spans, |s|)
    ensures Overwrite(s, [span] + spans) == Overwrite(PutLength(s, span), spans)
  {
    assert ([span] + spans)[1..] == spans;
  }

  method FindUnits(annexB: seq<Byte>) returns (positions: seq<Span>)
    ensures positions == Spans(annexB, -1, 0)
  {
    positions := [];
    var start, i := -1, 0;
    while i < |annexB| - 3
      invariant -1 <= start && 0 <= i
      invariant Spans(annexB, -1, 0) == positions + Spans(annexB, start, i)
    {
      if annexB[i] == 0 && annexB[i + 1] == 0 && annexB[i + 2] == 0 && annexB[i + 3] == 1 {
        if start != -1 {
          positions := positions + [Span(start, i)];
        }
        start := i;
        i := i + 3;
      }
      i := i + 1;
    }
    if start != -1 {
      positions := positions + [Span(start, |annexB|)];
    }
  }

  /** A unit the format can carry: no start code inside. */
  predicate Clean(nalu: seq<Byte>) {
    forall j :: 0 <= j < |nalu| ==> !CodeAt(nalu, j)
  }

  /** Scanning over a stretch without start codes changes nothing. */
  lemma {:induction false} SpansSkip(s: seq<Byte>, start: int, i: nat, j: nat)
    requires i <= j && forall k :: i <= k < j ==> !CodeAt(s, k)
    requires j + 4 > |s| || CodeAt(s, j)
    ensures Spans(s, start, i) == Spans(s, start, j)
    decreases j - i
  {
    if i < j && i + 4 <= |s| {
      SpansSkip(s, start, i + 1, j);
    }
  }

  /** The scan looks only at the bytes from its index on. */
  lemma {:induction false} SpansLocal(s: seq<Byte>, s': seq<Byte>, start: int, i: nat)
    requires |s| == |s'| && i <= |s| && s[i..] == s'[i..]
    ensures Spans(s, start, i) == Spans(s', start, i)
    decreases |s| - i
  {
    if i + 4 <= |s| {
      assert forall k :: i <= k < |s| ==> s[k] == s[i..][k - i] == s'[k];
      assert s[i + 1..] == s'[i + 1..] && s[i + 4..] == s'[i + 4..];
      SpansLocal(s, s', start, i + 1);
      SpansLocal(s, s', i, i + 4);
    }
  }

  /** Lengths written from position `q` on leave the bytes before it alone. */
  lemma {:induction false} OverwriteKeeps(s: seq<Byte>, spans: seq<Span>, q: nat)
    requires Placed(spans, |s|) && q <= |s| && forall k :: 0 <= k < |spans| ==> q <= spans[k].pos
    ensures Overwrite(s, spans)[..q] == s[..q]
    decreases |spans|
  {
    if spans == [] {
    } else {
      OverwriteKeeps(PutLength(s, spans[0]), spans[1..], q);
      assert PutLength(s, spans[0])[..q] == s[..q];
    }
  }

  /** `pre` followed by one unit behind its start code and the rest of the access unit. */
  function Laid(pre: seq<Byte>, nalu: seq<Byte>, rest: seq<seq<Byte>>): seq<Byte> {
    pre + START_CODE + nalu + AnnexB(rest)
  }

  /** Inside the unit the scan finds what the unit itself contains, never a code straddling its end. */
  lemma CodesInUnit(pre: seq<Byte>, nalu: seq<Byte>, rest: seq<seq<Byte>>, j: nat)
    requires j < |nalu|
    ensures CodeAt(Laid(pre, nalu, rest), |pre| + 4 + j) <==> CodeAt(nalu, j)
  {
    var s, at := Laid(pre, nalu, rest), |pre| + 4 + j;
    if j + 4 <= |nalu| {
      assert s[at] == nalu[j] && s[at + 1] == nalu[j + 1] && s[at + 2] == nalu[j + 2] && s[at + 3] == nalu[j + 3];
    } else if at + 4 <= |s| {
      assert rest != [];
      assert s[at + 3] == AnnexB(rest)[j + 3 - |nalu|] == 0;
    }
  }

  lemma NextCode(pre: seq<Byte>, nalu: seq<Byte>, rest: seq<seq<Byte>>)
    ensures var s, e := Laid(pre, nalu, rest), |pre| + 4 + |nalu|;
            e <= |s| && (if rest == [] then e == |s| else CodeAt(s, e))
  {
    if rest != [] {
      var s, e := Laid(pre, nalu, rest), |pre| + 4 + |nalu|;
      assert forall k :: 0 <= k < 4 ==> s[e + k] == AnnexB(rest)[k] == START_CODE[k];
      assert START_CODE[0] == 0 && START_CODE[1] == 0 && START_CODE[2] == 0 && START_CODE[3] == 1;
    }
  }

  /** The scan of a clean unit yields its span and goes on with the next unit. */
  lemma SpansCleanUnit(pre: seq<Byte>, nalu: seq<Byte>, rest: seq<seq<Byte>>)
    requires Clean(nalu)
    ensures var s, p, e := Laid(pre, nalu, rest), |pre|, |pre| + 4 + |nalu|;
            Spans(s, p, p + 4) == [Span(p, e)] + if rest == [] then [] else Spans(s, e, e + 4)
  {
    hide Laid, CodeAt;
    var s, p, e := Laid(pre, nalu, rest), |pre|, |pre| + 4 + |nalu|;
    forall k | p + 4 <= k < e ensures !CodeAt(s, k) {
      CodesInUnit(pre, nalu, rest, k - (p + 4));
    }
    NextCode(pre, nalu, rest);
    SpansSkip(s, p, p + 4, e);
    if rest != [] {
      CodeFits(s, e);
    }
  }

  lemma CodeFits(s: seq<Byte>, i: nat)
    ensures CodeAt(s, i) ==> i + 4 <= |s|
  {
  }

  /** The scan of a unit with a start code inside cuts it short at the first one. */
  lemma SpansDirtyUnit(pre: seq<Byte>, nalu: seq<Byte>, rest: seq<seq<Byte>>) returns (j: nat)
    requires !Clean(nalu)
    ensures j < |nalu| && CodeAt(nalu, j)
    ensures var s, p := Laid(pre, nalu, rest), |pre|;
            CodeAt(s, p + 4 + j) && Spans(s, p, p + 4) == [Span(p, p + 4 + j)] + Spans(s, p + 4 + j, p + 4 + j + 4)
  {
    hide Laid, CodeAt;
    var s, p := Laid(pre, nalu, rest), |pre|;
    j := FirstCode(nalu);
    CodesInUnit(pre, nalu, rest, j);
    forall k | p + 4 <= k < p + 4 + j ensures !CodeAt(s, k) {
      CodesInUnit(pre, nalu, rest, k - (p + 4));
    }
    SpansSkip(s, p, p + 4, p + 4 + j);
    CodeFits(s, p + 4 + j);
  }

  lemma FirstCode(nalu: seq<Byte>) returns (j: nat)
    requires !Clean(nalu)
    ensures j < |nalu| && CodeAt(nalu, j) && forall k :: 0 <= k < j ==> !CodeAt(nalu, k)
  {
    j := 0;
    while !CodeAt(nalu, j)
      invariant j < |nalu| && forall k :: 0 <= k < j ==> !CodeAt(nalu, k)
      decreases |nalu| - j
    {
      j := j + 1;
    }
  }

  ghost predicate Lengths32(nalus: seq<seq<Byte>>) {
    forall k :: 0 <= k < |nalus| ==> |nalus[k]| < 0x1_0000_0000
  }

  ghost predicate AllClean(nalus: seq<seq<Byte>>) {
    forall k :: 0 <= k < |nalus| ==> Clean(nalus[k])
  }

  lemma DirtyUnitDiffers(pre: seq<Byte>, nalu: seq<Byte>, rest: seq<seq<Byte>>)
    requires !Clean(nalu) && |nalu| < 0x1_0000_0000
    ensures var s := Laid(pre, nalu, rest);
            && Placed(Spans(s, |pre|, |pre| + 4), |s|)
            && Overwrite(s, Spans(s, |pre|, |pre| + 4))[..|pre| + 4] != pre + PutUint32(|nalu|)
  {
    hide CodeAt, Spans;
    var s, p := Laid(pre, nalu, rest), |pre|;
    var j := SpansDirtyUnit(pre, nalu, rest);
    var more := Spans(s, p + 4 + j, p + 4 + j + 4);
    CodeFits(s, p + 4 + j);
    SpansPlaced(s, p, p + 4);
    SpansPlaced(s, p + 4 + j, p + 4 + j + 4);
    var s1 := PutLength(s, Span(p, p + 4 + j));
    assert Spans(s, p, p + 4)[1..] == more;
    OverwriteKeeps(s1, more, p + 4);
    assert s1[..p + 4][p..] == PutUint32(j);
    Uint32RoundTrip(j);
    Uint32RoundTrip(|nalu|);
    assert (pre + PutUint32(|nalu|))[p..] == PutUint32(|nalu|);
  }

  /** Writing a clean unit's length in place of its start code moves the boundary past the unit. */
  lemma UnitDone(pre: seq<Byte>, nalu: seq<Byte>, rest: seq<seq<Byte>>)
    ensures var s, p, e := Laid(pre, nalu, rest), |pre|, |pre| + 4 + |nalu|;
            && e <= |s|
            && PutLength(s, Span(p, e)) == (pre + PutUint32(|nalu|) + nalu) + AnnexB(rest)
            && PutLength(s, Span(p, e))[e..] == s[e..]
  {
    hide AnnexB, PutUint32;
  }

  lemma Assoc(a: seq<Byte>, b: seq<Byte>, c: seq<Byte>, d: seq<Byte>)
    ensures a + (b + c + d) == (a + b + c) + d && (a + (b + c + d))[..|a| + |b|] == a + b
  {
  }

  lemma AvccUnit(pre: seq<Byte>, nalus: seq<seq<Byte>>)
    requires nalus != []
    ensures pre + AnnexB(nalus) == Laid(pre, nalus[0], nalus[1..])
    ensures pre + Avcc(nalus) == (pre + PutUint32(|nalus[0]|) + nalus[0]) + Avcc(nalus[1..])
    ensures (pre + Avcc(nalus))[..|pre| + 4] == pre + PutUint32(|nalus[0]|)
  {
    hide PutUint32;
    Assoc(pre, START_CODE, nalus[0], AnnexB(nalus[1..]));
    Assoc(pre, PutUint32(|nalus[0]|), nalus[0], Avcc(nalus[1..]));
  }

  /** One unit at a time: the client reproduces the access unit exactly when no unit hides a start code. */
  lemma {:induction false} ConvertFrom(pre: seq<Byte>, nalus: seq<seq<Byte>>)
    requires nalus != [] && Lengths32(nalus)
    ensures var s := pre + AnnexB(nalus);
            && |pre| + 4 <= |s| && Placed(Spans(s, |pre|, |pre| + 4), |s|)
            && (Overwrite(s, Spans(s, |pre|, |pre| + 4)) == pre + Avcc(nalus) <==> AllClean(nalus))
    decreases |nalus|
  {
    hide CodeAt, Spans, Clean, Avcc, AnnexB, PutUint32, PutLength, Overwrite, Laid;
    var nalu, rest := nalus[0], nalus[1..];
    var s, p, e := Laid(pre, nalu, rest), |pre|, |pre| + 4 + |nalu|;
    AvccUnit(pre, nalus);
    UnitDone(pre, nalu, rest);
    SpansPlaced(s, p, p + 4);
    if !Clean(nalu) {
      DirtyUnitDiffers(pre, nalu, rest);
    } else {
      SpansCleanUnit(pre, nalu, rest);
      var pre' := pre + PutUint32(|nalu|) + nalu;
      var s' := PutLength(s, Span(p, e));
      assert AllClean(nalus) <==> AllClean(rest);
      if rest == [] {
        OverwriteFirst(s, Span(p, e), []);
        OverwriteNone(s', []);
        NoUnits();
      } else {
        ConvertFrom(pre', rest);
        assert s[e + 4..] == s[e..][4..] == s'[e + 4..];
        SpansLocal(s, s', e, e + 4);
        OverwriteFirst(s, Span(p, e), Spans(s, e, e + 4));
      }
    }
  }

  lemma NoUnits()
    ensures AnnexB([]) == [] && Avcc([]) == []
  {
  }

  /**
   For every list of units below 4 GB: the browser's conversion of the server's payload is the length-prefixed form
   of the same units if and only if no unit contains the start code 00 00 00 01.
   */
  lemma ConvertExact(nalus: seq<seq<Byte>>)
    requires Lengths32(nalus)
    ensures Convert(AnnexB(nalus)) == Avcc(nalus) <==> AllClean(nalus)
  {
    hide Overwrite, AnnexB, Avcc, PutUint32, Clean;
    if nalus == [] {
      NoUnits();
      OverwriteNone([], []);
    } else {
      var s := AnnexB(nalus);
      assert [] + s == s && [] + Avcc(nalus) == Avcc(nalus);
      ConvertFrom([], nalus);
      StartsWithCode(nalus);
      assert Spans(s, -1, 0) == Spans(s, 0, 4);
    }
  }

  lemma StartsWithCode(nalus: seq<seq<Byte>>)
    requires nalus != []
    ensures CodeAt(AnnexB(nalus), 0)
  {
  }

  /**
   Bytes that no start code precedes are left alone: a payload without one comes back as it is, and bytes before the
   first one stay in front of the converted units.
   */
  lemma LeadingBytesKept(pre: seq<Byte>, nalus: seq<seq<Byte>>)
    requires Lengths32(nalus) && AllClean(nalus)
    requires forall k :: 0 <= k < |pre| ==> !CodeAt(pre + AnnexB(nalus), k)
    ensures Convert(pre + AnnexB(nalus)) == pre + Avcc(nalus)
  {
    hide Overwrite, AnnexB, Avcc, PutUint32, Clean, CodeAt;
    var s, p := pre + AnnexB(nalus), |pre|;
    if nalus == [] {
      NoUnits();
      SpansSkip(s, -1, 0, p);
      assert s == pre && pre + Avcc(nalus) == pre;
      OverwriteNone(s, Spans(s, -1, 0));
    } else {
      ConvertFrom(pre, nalus);
      CodeAfter(pre, nalus);
      SpansSkip(s, -1, 0, p);
      assert Spans(s, -1, p) == Spans(s, p, p + 4);
    }
  }

  lemma CodeAfter(pre: seq<Byte>, nalus: seq<seq<Byte>>)
    requires nalus != []
    ensures CodeAt(pre + AnnexB(nalus), |pre|)
  {
    StartsWithCode(nalus);
    var s, a := pre + AnnexB(nalus), AnnexB(nalus);
    assert s[|pre|..] == a;
    assert forall k :: 0 <= k < 4 ==> s[|pre| + k] == a[k];
  }
}
