/**
 The two packets of the WebCodecs socket, as the server fills them into byte buffers (internal/api/ws.go) and as the
 browser reads them back (web/src/v2/components/player/WebCodecsPlayerV2.tsx).
 */
module Packets {
  import opened Frames
  import opened Boxes
  import opened WebCodecs

  // ---------------------------------------------------------------------------------------------
  // Big-endian fields

  function PutUint16(n: nat): (s: seq<Byte>)
    ensures |s| == 2
  {
    [n / 256 % 256, n % 256]
  }

  function Uint16(s: seq<Byte>, at: nat): nat
    requires at + 2 <= |s|
  {
    256 * (s[at] as int) + s[at + 1] as int
  }

  function PutUint64(n: nat): (s: seq<Byte>)
    ensures |s| == 8
  {
    PutUint32(n / 0x1_0000_0000) + PutUint32(n % 0x1_0000_0000)
  }

  function Uint64(s: seq<Byte>, at: nat): nat
    requires at + 8 <= |s|
  {
    0x1_0000_0000 * Uint32(s[at..at + 4]) + Uint32(s[at + 4..at + 8])
  }

  lemma Uint64RoundTrip(n: nat, pre: seq<Byte>, post: seq<Byte>)
    requires n < 0x1_0000_0000_0000_0000
    ensures Uint64(pre + PutUint64(n) + post, |pre|) == n
  {
    var s, at := pre + PutUint64(n) + post, |pre|;
    assert s[at..at + 4] == PutUint32(n / 0x1_0000_0000);
    assert s[at + 4..at + 8] == PutUint32(n % 0x1_0000_0000);
    Uint32RoundTrip(n / 0x1_0000_0000);
    Uint32RoundTrip(n % 0x1_0000_0000);
  }

  // ---------------------------------------------------------------------------------------------
  // The header packet

  /** A parameter set behind its 16-bit length. */
  function Field(s: seq<Byte>): seq<Byte> {
    PutUint16(|s|) + s
  }

  function CodecType(vps: seq<Byte>): Byte {
    if |vps| > 0 then 2 else 1
  }

  function HeaderPacket(vps: seq<Byte>, sps: seq<Byte>, pps: seq<Byte>): seq<Byte> {
    [1, CodecType(vps)] + Field(vps) + Field(sps) + Field(pps)
  }

  /** Copies `src` into the buffer at `offset`, as Go's copy does when the buffer is long enough. */
  method CopyInto(buf: array<Byte>, offset: nat, src: seq<Byte>)
    requires offset + |src| <= buf.Length
    modifies buf
    ensures buf[..offset + |src|] == old(buf[..offset]) + src
    ensures buf[offset + |src|..] == old(buf[offset + |src|..])
  {
    forall k | 0 <= k < |src| {
      buf[offset + k] := src[k];
    }
  }

  method PutField(buf: array<Byte>, offset: nat, src: seq<Byte>) returns (after: nat)
    requires offset + 2 + |src| <= buf.Length
    modifies buf
    ensures after == offset + 2 + |src| && buf[..after] == old(buf[..offset]) + Field(src)
  {
    CopyInto(buf, offset, PutUint16(|src|));
    CopyInto(buf, offset + 2, src);
    after := offset + 2 + |src|;
  }

  /** Builds the header packet; parameter sets over 65535 bytes end the connection instead. */
  method BuildHeader(vps: seq<Byte>, sps: seq<Byte>, pps: seq<Byte>) returns (r: Option<seq<Byte>>)
    ensures r.None? <==> |vps| > 0xFFFF || |sps| > 0xFFFF || |pps| > 0xFFFF
    ensures r.Some? ==> r.value == HeaderPacket(vps, sps, pps)
  {
    var codecType := 1;
    if |vps| > 0 {
      codecType := 2;
    }
    if |vps| > 0xFFFF || |sps| > 0xFFFF || |pps| > 0xFFFF {
      return None;
    }
    var headerBuf := new Byte[1 + 1 + 2 + |vps| + 2 + |sps| + 2 + |pps|];
    headerBuf[0] := 1;
    headerBuf[1] := codecType;
    assert headerBuf[..2] == [1, CodecType(vps)];
    var offset := PutField(headerBuf, 2, vps);
    offset := PutField(headerBuf, offset, sps);
    offset := PutField(headerBuf, offset, pps);
    assert headerBuf[..offset] == headerBuf[..];
    return Some(headerBuf[..]);
  }

  datatype Config = Config(codecType: Byte, sps: seq<Byte>, pps: seq<Byte>)

  /** data.slice(from, to): clamped to the data. */
  function Slice(s: seq<Byte>, from: nat, to: nat): seq<Byte>
    requires from <= to
  {
    if to <= |s| then s[from..to] else if from <= |s| then s[from..] else []
  }

  /** The header branch of ws.onmessage; reading a length past the end throws. */
  method ParseHeader(data: seq<Byte>) returns (r: Option<Config>)
    requires |data| >= 2
    ensures r == ReadConfig(data)
  {
    hide Uint16, Slice;
    var codecType := data[1];
    var offset := 2;
    if offset + 2 > |data| {
      return None;
    }
    var vpsLen := Uint16(data, offset);
    offset := offset + 2;
    offset := offset + vpsLen;
    if offset + 2 > |data| {
      return None;
    }
    var spsLen := Uint16(data, offset);
    offset := offset + 2;
    var sps := Slice(data, offset, offset + spsLen);
    offset := offset + spsLen;
    if offset + 2 > |data| {
      return None;
    }
    var ppsLen := Uint16(data, offset);
    offset := offset + 2;
    var pps := Slice(data, offset, offset + ppsLen);
    return Some(Config(codecType, sps, pps));
  }

  /** The field at `at`, cut off where the data ends. */
  datatype FieldAt = Missing | Found(value: seq<Byte>, next: nat)

  function ReadField(data: seq<Byte>, at: nat): FieldAt {
    if at + 2 > |data| then Missing
    else Found(Slice(data, at + 2, at + 2 + Uint16(data, at)), at + 2 + Uint16(data, at))
  }

  function ReadConfig(data: seq<Byte>): Option<Config>
    requires |data| >= 2
  {
    var vps := ReadField(data, 2);
    if vps.Missing? then None
    else
      var sps := ReadField(data, vps.next);
      if sps.Missing? then None
      else
        var pps := ReadField(data, sps.next);
        if pps.Missing? then None else Some(Config(data[1], sps.value, pps.value))
  }

  lemma ReadFieldBack(pre: seq<Byte>, s: seq<Byte>, post: seq<Byte>)
    requires |s| <= 0xFFFF
    ensures ReadField(pre + Field(s) + post, |pre|) == Found(s, |pre| + 2 + |s|)
  {
    var data := pre + Field(s) + post;
    assert data[|pre|] == |s| / 256 % 256 && data[|pre| + 1] == |s| % 256;
    assert data[|pre| + 2..|pre| + 2 + |s|] == s;
  }

  lemma ConfigBack(vps: seq<Byte>, sps: seq<Byte>, pps: seq<Byte>)
    requires |vps| <= 0xFFFF && |sps| <= 0xFFFF && |pps| <= 0xFFFF
    ensures ReadConfig(HeaderPacket(vps, sps, pps)) == Some(Config(CodecType(vps), sps, pps))
  {
    hide Field, ReadField;
    var a := [1, CodecType(vps)];
    var data := HeaderPacket(vps, sps, pps);
    FieldSize(vps);
    FieldSize(sps);
    ReadFieldBack(a, vps, Field(sps) + Field(pps));
    assert data == a + Field(vps) + (Field(sps) + Field(pps));
    ReadFieldBack(a + Field(vps), sps, Field(pps));
    ReadFieldBack(a + Field(vps) + Field(sps), pps, []);
    assert data == a + Field(vps) + Field(sps) + Field(pps) + [];
  }

  lemma FieldSize(s: seq<Byte>)
    ensures |Field(s)| == 2 + |s|
  {
  }

  // ---------------------------------------------------------------------------------------------
  // The data packet

  /** Timestamp.Microseconds() clamped at zero. */
  function Micros(timestamp: int): nat {
    if timestamp < 0 then 0 else timestamp / 1000
  }

  function DataPacket(f: Frame): seq<Byte> {
    [2, if f.isKeyFrame then 1 else 0] + PutUint64(Micros(f.timestamp)) + AnnexB(f.nalus)
  }

  /** StreamWS's sending side: the keyframe gate and the packet buffer that is reused while it is large enough. */
  class Sender {
    var packetBuf: array<Byte>
    var syncedKeyFrame: bool

    constructor ()
      ensures fresh(packetBuf) && !syncedKeyFrame
    {
      packetBuf := new Byte[0];
      syncedKeyFrame := false;
    }

    /**
     Sends nothing before the first keyframe; afterwards the message is the frame's packet, with no byte of an
     earlier packet left in it.
     */
    method OnFrame(frame: Frame) returns (message: Option<seq<Byte>>)
      modifies this, packetBuf
      ensures packetBuf == old(packetBuf) || fresh(packetBuf)
      ensures syncedKeyFrame == (old(syncedKeyFrame) || frame.isKeyFrame)
      ensures message == if syncedKeyFrame then Some(DataPacket(frame)) else None
    {
      if !syncedKeyFrame {
        if !frame.isKeyFrame {
          return None;
        }
        syncedKeyFrame := true;
      }
      var reqLen := PayloadLength(frame.nalus);
      reqLen := 1 + 1 + 8 + reqLen;
      if packetBuf.Length < reqLen {
        packetBuf := new Byte[reqLen];
      }
      FillPacket(packetBuf, frame);
      message := Some(packetBuf[..reqLen]);
    }
  }

  /** Writes the packet over the front of the buffer. */
  method FillPacket(buf: array<Byte>, frame: Frame)
    requires 10 + |AnnexB(frame.nalus)| <= buf.Length
    modifies buf
    ensures buf[..10 + |AnnexB(frame.nalus)|] == DataPacket(frame)
  {
    hide AnnexB, PutUint64;
    buf[0] := 2;
    buf[1] := if frame.isKeyFrame then 1 else 0;
    assert buf[..2] == [2, if frame.isKeyFrame then 1 else 0];
    var tsMicro := Micros(frame.timestamp);
    CopyInto(buf, 2, PutUint64(tsMicro));
    FillPayload(buf, frame.nalus);
  }

  lemma {:induction false} AnnexBAppend(nalus: seq<seq<Byte>>, nalu: seq<Byte>)
    ensures AnnexB(nalus + [nalu]) == AnnexB(nalus) + START_CODE + nalu
  {
    if nalus == [] {
      assert (nalus + [nalu])[1..] == [];
    } else {
      assert (nalus + [nalu])[1..] == nalus[1..] + [nalu];
      AnnexBAppend(nalus[1..], nalu);
    }
  }

  method PayloadLength(nalus: seq<seq<Byte>>) returns (total: nat)
    ensures total == |AnnexB(nalus)|
  {
    total := 0;
    for n := 0 to |nalus|
      invariant total == |AnnexB(nalus[..n])|
    {
      AnnexBAppend(nalus[..n], nalus[n]);
      assert nalus[..n + 1] == nalus[..n] + [nalus[n]];
      total := total + 4 + |nalus[n]|;
    }
    assert nalus[..|nalus|] == nalus;
  }

  /** The write loop from position 10 on. */
  method FillPayload(buf: array<Byte>, nalus: seq<seq<Byte>>)
    requires 10 + |AnnexB(nalus)| <= buf.Length
    modifies buf
    ensures buf[..10 + |AnnexB(nalus)|] == old(buf[..10]) + AnnexB(nalus)
  {
    var writePos := 10;
    ghost var head := buf[..10];
    for n := 0 to |nalus|
      invariant writePos == 10 + |AnnexB(nalus[..n])| <= buf.Length
      invariant buf[..writePos] == head + AnnexB(nalus[..n])
    {
      PrefixFits(nalus, n);
      CopyInto(buf, writePos, START_CODE);
      writePos := writePos + 4;
      CopyInto(buf, writePos, nalus[n]);
      writePos := writePos + |nalus[n]|;
    }
    assert nalus[..|nalus|] == nalus;
  }

  lemma PrefixFits(nalus: seq<seq<Byte>>, n: nat)
    requires n < |nalus|
    ensures AnnexB(nalus[..n + 1]) == AnnexB(nalus[..n]) + START_CODE + nalus[n]
    ensures |AnnexB(nalus[..n + 1])| <= |AnnexB(nalus)|
  {
    assert nalus[..n + 1] == nalus[..n] + [nalus[n]];
    AnnexBAppend(nalus[..n], nalus[n]);
    assert nalus == nalus[..n + 1] + nalus[n + 1..];
    AnnexBConcat(nalus[..n + 1], nalus[n + 1..]);
  }

  lemma {:induction false} AnnexBConcat(a: seq<seq<Byte>>, b: seq<seq<Byte>>)
    ensures AnnexB(a + b) == AnnexB(a) + AnnexB(b)
  {
    if a == [] {
      assert a + b == b;
    } else {
      assert (a + b)[1..] == a[1..] + b;
      AnnexBConcat(a[1..], b);
    }
  }

  datatype Chunk = Chunk(isKey: bool, timestamp: nat, data: seq<Byte>)

  /** The data branch of ws.onmessage: what is handed to the decoder. */
  function ReadChunk(data: seq<Byte>): Option<Chunk>
    requires |data| >= 2
  {
    if |data| < 10 then None else Some(Chunk(data[1] == 1, Uint64(data, 2), Convert(data[10..])))
  }

  /** How a decoder configured for 4-byte lengths reads a chunk. */
  function ReadUnits(s: seq<Byte>): Option<seq<seq<Byte>>>
    decreases |s|
  {
    if s == [] then Some([])
    else if |s| < 4 || 4 + Uint32(s) > |s| then None
    else
      var n := 4 + Uint32(s);
      var rest := ReadUnits(s[n..]);
      if rest.None? then None else Some([s[4..n]] + rest.value)
  }

  lemma {:induction false} UnitsBack(nalus: seq<seq<Byte>>)
    requires Lengths32(nalus)
    ensures ReadUnits(Avcc(nalus)) == Some(nalus)
  {
    if nalus == [] {
    } else {
      var s, n := Avcc(nalus), 4 + |nalus[0]|;
      Uint32RoundTrip(|nalus[0]|);
      assert s[..4] == PutUint32(|nalus[0]|);
      assert s[4..n] == nalus[0] && s[n..] == Avcc(nalus[1..]);
      UnitsBack(nalus[1..]);
      assert nalus == [nalus[0]] + nalus[1..];
    }
  }

  /** What a decoder can read is the length-prefixed form of what it reads. */
  lemma {:induction false} UnitsSound(s: seq<Byte>)
    ensures ReadUnits(s).Some? ==> Avcc(ReadUnits(s).value) == s
    decreases |s|
  {
    hide Uint32, Avcc;
    if s == [] {
      AvccNone();
    } else if 4 <= |s| && 4 + Uint32(s) <= |s| {
      var n := 4 + Uint32(s);
      UnitsSound(s[n..]);
      if ReadUnits(s[n..]).Some? {
        FirstUnit(s, ReadUnits(s[n..]).value);
      }
    }
  }

  lemma AvccNone()
    ensures Avcc([]) == []
  {
  }

  lemma FirstUnit(s: seq<Byte>, rest: seq<seq<Byte>>)
    requires 4 <= |s| && 4 + Uint32(s) <= |s| && Avcc(rest) == s[4 + Uint32(s)..]
    ensures Avcc([s[4..4 + Uint32(s)]] + rest) == s
  {
    var n := 4 + Uint32(s);
    Uint32Inverse(s[..4]);
    assert Uint32(s[..4]) == Uint32(s);
    hide PutUint32, Uint32, Avcc;
    AvccCons(s[4..n], rest);
    assert s == s[..4] + s[4..n] + s[n..];
  }

  lemma AvccCons(nalu: seq<Byte>, rest: seq<seq<Byte>>)
    ensures Avcc([nalu] + rest) == PutUint32(|nalu|) + nalu + Avcc(rest)
  {
    assert ([nalu] + rest)[1..] == rest;
  }

  // ---------------------------------------------------------------------------------------------
  // ws.onmessage

  /** What the browser does with a message; `Threw` is an exception out of the handler. */
  datatype Reaction = Ignored | Configure(config: Option<Config>) | Decode(chunk: Chunk) | Threw

  /** `configured` says whether a decoder has been configured. */
  function OnMessage(data: seq<Byte>, configured: bool): Reaction {
    if |data| < 2 then Ignored
    else if data[0] == 1 then Configure(ReadConfig(data))
    else if data[0] == 2 && configured then
      var chunk := ReadChunk(data);
      if chunk.Some? then Decode(chunk.value) else Threw
    else Ignored
  }

  /** The browser gets back the codec and both parameter sets whenever the server sends the header at all. */
  lemma HeaderRoundTrip(vps: seq<Byte>, sps: seq<Byte>, pps: seq<Byte>, configured: bool)
    requires |vps| <= 0xFFFF && |sps| <= 0xFFFF && |pps| <= 0xFFFF
    ensures OnMessage(HeaderPacket(vps, sps, pps), configured)
         == Configure(Some(Config(if vps != [] then 2 else 1, sps, pps)))
  {
    ConfigBack(vps, sps, pps);
    hide ReadConfig;
  }

  /**
   The whole path of a frame: a configured decoder gets the frame's flag, its time in microseconds and, exactly when
   no unit contains a start code, the length-prefixed form of its units; exactly then it reads back the same list.
   */
  lemma DataRoundTrip(f: Frame)
    requires Lengths32(f.nalus) && f.timestamp < 0x8000_0000_0000_0000
    ensures var got := OnMessage(DataPacket(f), true);
            && got.Decode?
            && got.chunk.isKey == f.isKeyFrame
            && (f.timestamp < 0 ==> got.chunk.timestamp == 0)
            && (f.timestamp >= 0 ==>
                  1000 * got.chunk.timestamp <= f.timestamp < 1000 * (got.chunk.timestamp + 1))
            && (got.chunk.data == Avcc(f.nalus) <==> AllClean(f.nalus))
            && (ReadUnits(got.chunk.data) == Some(f.nalus) <==> AllClean(f.nalus))
  {
    hide AnnexB, Uint64, PutUint64, Convert, ReadUnits, AllClean;
    var p := DataPacket(f);
    var head := [2, if f.isKeyFrame then 1 else 0];
    Uint64RoundTrip(Micros(f.timestamp), head, AnnexB(f.nalus));
    assert p[10..] == AnnexB(f.nalus);
    ConvertExact(f.nalus);
    UnitsBack(f.nalus);
    UnitsSound(Convert(AnnexB(f.nalus)));
  }

  /** The layout of both packets: type byte, flag or codec byte, and where the time and the payload are. */
  lemma PacketLayout(f: Frame, vps: seq<Byte>, sps: seq<Byte>, pps: seq<Byte>)
    ensures var data, header := DataPacket(f), HeaderPacket(vps, sps, pps);
            && |data| >= 10 && data[0] == 2 && data[1] == (if f.isKeyFrame then 1 else 0)
            && data[10..] == AnnexB(f.nalus)
            && |header| == 8 + |vps| + |sps| + |pps| && header[0] == 1
  {
    hide AnnexB, PutUint64, PutUint16;
  }

  /**
   A header cut off anywhere: the browser fails as long as the third length is not there, and then configures itself
   with what there is of the PPS.
   */
  lemma HeaderCut(vps: seq<Byte>, sps: seq<Byte>, pps: seq<Byte>, n: nat)
    requires |vps| <= 0xFFFF && |sps| <= 0xFFFF && |pps| <= 0xFFFF && 2 <= n <= 8 + |vps| + |sps| + |pps|
    ensures |HeaderPacket(vps, sps, pps)| == 8 + |vps| + |sps| + |pps|
    ensures var body := 8 + |vps| + |sps|;
            ReadConfig(HeaderPacket(vps, sps, pps)[..n])
            == if n < body then None else Some(Config(if vps != [] then 2 else 1, sps, pps[..n - body]))
  {
    hide Field, ReadField;
    FieldSize(vps);
    FieldSize(sps);
    FieldSize(pps);
    var head := [1, CodecType(vps)];
    var whole := HeaderPacket(vps, sps, pps);
    var data := whole[..n];
    var sets, both := head + Field(vps), head + Field(vps) + Field(sps);
    assert whole == head + Field(vps) + (Field(sps) + Field(pps));
    FieldCut(head, vps, Field(sps) + Field(pps), n);
    assert |head| == 2 && ReadField(data, 2).Missing? == (n < 4);
    assert whole == sets + Field(sps) + Field(pps);
    FieldCut(sets, sps, Field(pps), n);
    assert |sets| == 4 + |vps| && ReadField(data, 4 + |vps|).Missing? == (n < 6 + |vps|);
    assert whole == both + Field(pps) + [];
    FieldCut(both, pps, [], n);
    assert |both| == 6 + |vps| + |sps| && data[1] == whole[1] == CodecType(vps);
    assert pps[..|pps|] == pps;
  }

  lemma FieldCut(pre: seq<Byte>, s: seq<Byte>, post: seq<Byte>, n: nat)
    requires |s| <= 0xFFFF && n <= |pre + Field(s) + post|
    ensures var data := (pre + Field(s) + post)[..n];
            ReadField(data, |pre|)
            == if n < |pre| + 2 then Missing
               else Found(if n < |pre| + 2 + |s| then s[..n - |pre| - 2] else s, |pre| + 2 + |s|)
  {
    var all := pre + Field(s) + post;
    var data, p := all[..n], |pre|;
    FieldBody(pre, s, post);
    if n >= p + 2 {
      LengthBytes(pre, s, post);
      assert data[p] == all[p] && data[p + 1] == all[p + 1];
      assert Uint16(data, p) == |s|;
      hide Field, Uint16;
      SliceOfPrefix(all, p + 2, p + 2 + |s|, n);
    }
  }

  lemma LengthBytes(pre: seq<Byte>, s: seq<Byte>, post: seq<Byte>)
    ensures var all := pre + Field(s) + post;
            |all| >= |pre| + 2 && all[|pre|] == |s| / 256 % 256 && all[|pre| + 1] == |s| % 256
  {
  }

  lemma SliceOfPrefix(s: seq<Byte>, a: nat, b: nat, n: nat)
    requires a <= b <= |s| && a <= n <= |s|
    ensures n < b ==> s[..n][a..] == s[a..b][..n - a]
    ensures n >= b ==> s[..n][a..b] == s[a..b]
  {
  }

  lemma FieldBody(pre: seq<Byte>, s: seq<Byte>, post: seq<Byte>)
    ensures |Field(s)| == 2 + |s| && (pre + Field(s) + post)[|pre| + 2..|pre| + 2 + |s|] == s
  {
    hide PutUint16;
    assert Field(s)[2..] == s;
    var all := pre + Field(s) + post;
    assert all[|pre|..|pre| + 2 + |s|] == Field(s);
    assert all[|pre| + 2..|pre| + 2 + |s|] == Field(s)[2..];
  }

  /** Messages the browser does nothing with, and those that make its handler throw. */
  lemma MessagesIgnored(data: seq<Byte>, configured: bool)
    ensures OnMessage(data, configured).Ignored? <==>
              |data| < 2 || (data[0] != 1 && data[0] != 2) || (data[0] == 2 && !configured)
    ensures OnMessage(data, configured).Threw? <==> 2 <= |data| < 10 && data[0] == 2 && configured
    ensures OnMessage(data, configured).Decode? ==> (OnMessage(data, configured).chunk.isKey <==> data[1] == 1)
  {
    hide ReadConfig, Convert;
  }
}
