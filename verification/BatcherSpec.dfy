/**
 Batched UDP sending, seen from one peer (internal/webrtc/batch_linux.go).

 What the socket answers is an input: the k-th batched send of a flush takes some leading messages and may report an
 error; a direct send goes out or not. Calls for one peer are atomic steps, as its lock makes them.
 */
module BatcherSpec {
  import opened Frames

  const MAX_BATCH := 32
  const MAX_PACKET := 1500
  const IDLE_LIMIT := 30_000_000_000

  type Packet = seq<Byte>

  datatype Reply = Reply(n: int, err: bool)
  type Socket = nat -> Reply

  datatype Peer = Peer(pending: seq<Packet>, lastUsed: int)

  /** The batcher's view of one address, with the packets accepted for it and those that left, in order. */
  datatype Conn = Conn(peer: Option<Peer>, closed: bool, written: seq<Packet>, wire: seq<Packet>)

  datatype Op =
    | Write(buf: Packet, now: int, socket: Socket, directOk: bool)
    | Cleanup(now: int, socket: Socket)
    | Close(socket: Socket)

  const UNUSED := Conn(None, false, [], [])

  /** The number of messages a send really takes of `len`. */
  function Taken(r: Reply, len: nat): (n: nat)
    ensures n <= len
  {
    if r.n <= 0 then 0 else if r.n > len then len else r.n
  }

  /** How many of `len` messages the flush loop sends, from its k-th call on. */
  function SentCount(len: nat, socket: Socket, k: nat): (n: nat)
    ensures n <= len
    decreases len
  {
    if len == 0 then 0
    else
      var n := Taken(socket(k), len);
      if socket(k).err || n == 0 then n else n + SentCount(len - n, socket, k + 1)
  }

  /** flushLocked: the batch is empty afterwards, whatever was sent of it. */
  function Flush(c: Conn, socket: Socket): Conn {
    if c.peer.None? then c
    else
      var p := c.peer.value;
      c.(peer := Some(p.(pending := [])), wire := c.wire + p.pending[..SentCount(|p.pending|, socket, 0)])
  }

  predicate IsRtp(buf: Packet) {
    |buf| >= 12 && buf[0] / 64 == 2
  }

  predicate IsMarker(buf: Packet) {
    |buf| >= 2 && buf[1] >= 128
  }

  function GetOrCreate(c: Conn, now: int): Conn {
    if c.peer.Some? then c else c.(peer := Some(Peer([], now)))
  }

  function Direct(c: Conn, buf: Packet, ok: bool): Conn {
    if ok then c.(wire := c.wire + [buf]) else c
  }

  function Enqueue(c: Conn, buf: Packet): Conn
    requires c.peer.Some?
  {
    c.(peer := Some(c.peer.value.(pending := c.peer.value.pending + [buf])))
  }

  function Touch(c: Conn, now: int): Conn
    requires c.peer.Some?
  {
    c.(peer := Some(c.peer.value.(lastUsed := now)))
  }

  /** The RTP branch of WriteToAddrPort. */
  function WriteRtpTo(c: Conn, buf: Packet, now: int, socket: Socket, directOk: bool): Conn
    requires c.peer.Some?
  {
    var c1 := Touch(c, now);
    if |buf| > MAX_PACKET then Direct(Flush(c1, socket), buf, directOk)
    else
      var c2 := Enqueue(c1, buf);
      if IsMarker(buf) || |c2.peer.value.pending| >= MAX_BATCH then Flush(c2, socket) else c2
  }

  /** WriteToAddrPort */
  function WriteTo(c: Conn, buf: Packet, now: int, socket: Socket, directOk: bool): Conn {
    if c.closed || |buf| == 0 then c
    else
      var c0 := GetOrCreate(c.(written := c.written + [buf]), now);
      if !IsRtp(buf) then Direct(Flush(c0, socket), buf, directOk) else WriteRtpTo(c0, buf, now, socket, directOk)
  }

  /** Flush and, in a cleanup tick, forget a peer that has been idle. */
  function Swept(c: Conn, tick: Option<int>, socket: Socket): Conn {
    if c.peer.None? then c
    else
      var c1 := Flush(c, socket);
      if tick.Some? && tick.value - c.peer.value.lastUsed > IDLE_LIMIT then c1.(peer := None) else c1
  }

  /** The tick of cleanupLoop. */
  function CleanUp(c: Conn, now: int, socket: Socket): Conn {
    Swept(c, Some(now), socket)
  }

  function CloseAll(c: Conn, socket: Socket): Conn {
    if c.closed then c else Swept(c, None, socket).(peer := None, closed := true)
  }

  function Step(c: Conn, op: Op): Conn {
    match op
    case Write(buf, now, socket, directOk) => WriteTo(c, buf, now, socket, directOk)
    case Cleanup(now, socket) => CleanUp(c, now, socket)
    case Close(socket) => CloseAll(c, socket)
  }

  function Run(ops: seq<Op>): Conn {
    if ops == [] then UNUSED else Step(Run(ops[..|ops| - 1]), ops[|ops| - 1])
  }

  function Pending(c: Conn): seq<Packet> {
    if c.peer.Some? then c.peer.value.pending else []
  }

  // ---------------------------------------------------------------------------------------------
  // Conservation

  /** The socket takes at least one message per call and reports no error; direct sends succeed. */
  ghost predicate Willing(socket: Socket) {
    forall k :: socket(k).n > 0 && !socket(k).err
  }

  ghost predicate WillingOp(op: Op) {
    Willing(op.socket) && (op.Write? ==> op.directOk)
  }

  /** However little a willing socket takes per call, the flush loop sends everything. */
  lemma {:induction false} WillingSendsAll(len: nat, socket: Socket, k: nat)
    requires Willing(socket)
    ensures SentCount(len, socket, k) == len
    decreases len
  {
    if len > 0 {
      WillingSendsAll(len - Taken(socket(k), len), socket, k + 1);
    }
  }

  /** The messages `m` calls of a flush, from the k-th on, report as sent. */
  function Sum(socket: Socket, k: nat, m: nat): int
    decreases m
  {
    if m == 0 then 0 else socket(k).n + Sum(socket, k + 1, m - 1)
  }

  /**
   A flush that fails: when `m` calls succeed without sending everything and the next one reports an error or nothing,
   the flush ends with what was sent until then, that call included.
   */
  lemma {:induction false} FailureStops(len: nat, socket: Socket, k: nat, m: nat)
    requires forall i :: k <= i < k + m ==> socket(i).n > 0 && !socket(i).err
    requires Sum(socket, k, m) < len && (socket(k + m).err || socket(k + m).n <= 0)
    ensures 0 <= Sum(socket, k, m)
    ensures SentCount(len, socket, k) == Sum(socket, k, m) + Taken(socket(k + m), len - Sum(socket, k, m))
    decreases m
  {
    if m == 0 {
    } else {
      SumPositive(socket, k + 1, m - 1);
      FailureStops(len - socket(k).n, socket, k + 1, m - 1);
    }
  }

  lemma {:induction false} SumPositive(socket: Socket, k: nat, m: nat)
    requires forall i :: k <= i < k + m ==> socket(i).n > 0
    ensures Sum(socket, k, m) >= 0
    decreases m
  {
    if m == 0 {
    } else {
      SumPositive(socket, k + 1, m - 1);
    }
  }

  ghost predicate Bounded(c: Conn) {
    |Pending(c)| < MAX_BATCH && (c.closed ==> c.peer.None?)
  }

  lemma FlushConserves(c: Conn, socket: Socket)
    ensures Pending(Flush(c, socket)) == [] && Flush(c, socket).written == c.written
    ensures Willing(socket) ==> Flush(c, socket).wire == c.wire + Pending(c)
    ensures Subsequence(c.wire + Pending(c), c.written) ==> Subsequence(Flush(c, socket).wire, c.written)
  {
    if c.peer.Some? {
      var p := c.peer.value.pending;
      var n := SentCount(|p|, socket, 0);
      if Willing(socket) {
        WillingSendsAll(|p|, socket, 0);
        assert p[..|p|] == p;
      }
      if Subsequence(c.wire + p, c.written) {
        assert c.wire + p == (c.wire + p[..n]) + p[n..];
        SubsequenceDropTail(c.wire + p[..n], p[n..], c.written);
      }
    } else {
      assert c.wire + [] == c.wire;
    }
  }

  /** The packets accepted are those on the wire followed by those pending, each once and in order. */
  ghost predicate Conserved(c: Conn) {
    c.written == c.wire + Pending(c)
  }

  ghost predicate NeverInvents(c: Conn) {
    Subsequence(c.wire + Pending(c), c.written)
  }

  lemma DirectConserves(c: Conn, buf: Packet, ok: bool, before: seq<Packet>)
    requires Pending(c) == [] && c.written == before + [buf]
    ensures c.wire == before && ok ==> Conserved(Direct(c, buf, ok))
    ensures Subsequence(c.wire, before) ==> NeverInvents(Direct(c, buf, ok))
  {
    hide Subsequence;
    var r := Direct(c, buf, ok);
    assert r.wire + Pending(r) == r.wire;
    if Subsequence(c.wire, before) {
      SubsequenceKeep(c.wire, before, buf);
      SubsequenceSkip(c.wire, before, buf);
    }
  }

  lemma FlushThenDirect(c: Conn, c0: Conn, buf: Packet, socket: Socket, ok: bool)
    requires c0.wire == c.wire && Pending(c0) == Pending(c) && c0.written == c.written + [buf]
    ensures Conserved(c) && Willing(socket) && ok ==> Conserved(Direct(Flush(c0, socket), buf, ok))
    ensures NeverInvents(c) ==> NeverInvents(Direct(Flush(c0, socket), buf, ok))
    ensures Pending(Direct(Flush(c0, socket), buf, ok)) == []
  {
    hide Subsequence;
    var old0 := c0.(written := c.written);
    FlushConserves(old0, socket);
    FlushConserves(c0, socket);
    assert Flush(c0, socket).wire == Flush(old0, socket).wire;
    DirectConserves(Flush(c0, socket), buf, ok, c.written);
  }

  lemma EnqueueConserves(c: Conn, c1: Conn, buf: Packet)
    requires c1.peer.Some? && c1.wire == c.wire && Pending(c1) == Pending(c) && c1.written == c.written + [buf]
    ensures Conserved(c) ==> Conserved(Enqueue(c1, buf))
    ensures NeverInvents(c) ==> NeverInvents(Enqueue(c1, buf))
  {
    hide Subsequence;
    var r := Enqueue(c1, buf);
    assert r.wire + Pending(r) == (c.wire + Pending(c)) + [buf];
    if NeverInvents(c) {
      SubsequenceKeep(c.wire + Pending(c), c.written, buf);
    }
  }

  lemma FlushKeeps(c: Conn, socket: Socket)
    ensures Conserved(c) && Willing(socket) ==> Conserved(Flush(c, socket))
    ensures NeverInvents(c) ==> NeverInvents(Flush(c, socket))
  {
    hide Subsequence;
    FlushConserves(c, socket);
    var r := Flush(c, socket);
    assert r.wire + Pending(r) == r.wire;
  }

  /** Writes that must not wait: non-RTP packets, oversize packets and the last packet of a frame. */
  predicate Urgent(buf: Packet) {
    !IsRtp(buf) || |buf| > MAX_PACKET || IsMarker(buf)
  }

  lemma WriteConserves(c: Conn, buf: Packet, now: int, socket: Socket, directOk: bool)
    requires Bounded(c) && NeverInvents(c)
    ensures var r := WriteTo(c, buf, now, socket, directOk);
            && Bounded(r) && NeverInvents(r)
            && (Conserved(c) && Willing(socket) && directOk ==> Conserved(r))
            && (!c.closed && |buf| > 0 && Urgent(buf) ==> Pending(r) == [])
  {
    hide Subsequence, NeverInvents, Conserved;
    if !c.closed && |buf| > 0 {
      var c0 := GetOrCreate(c.(written := c.written + [buf]), now);
      var c1 := Touch(c0, now);
      FlushThenDirect(c, c0, buf, socket, directOk);
      FlushThenDirect(c, c1, buf, socket, directOk);
      EnqueueConserves(c, c1, buf);
      FlushKeeps(Enqueue(c1, buf), socket);
      FlushConserves(Enqueue(c1, buf), socket);
    }
  }

  lemma ForgetPeer(c: Conn)
    requires Pending(c) == []
    ensures Conserved(c) ==> Conserved(c.(peer := None)) && Conserved(c.(peer := None, closed := true))
    ensures NeverInvents(c) ==> NeverInvents(c.(peer := None)) && NeverInvents(c.(peer := None, closed := true))
  {
  }

  lemma StepConserves(c: Conn, op: Op)
    requires Bounded(c) && NeverInvents(c)
    ensures Bounded(Step(c, op)) && NeverInvents(Step(c, op))
    ensures Conserved(c) && WillingOp(op) ==> Conserved(Step(c, op))
    ensures op.Cleanup? || op.Close? ==> Pending(Step(c, op)) == []
  {
    hide Subsequence, NeverInvents, Conserved, WriteTo;
    match op
    case Write(buf, now, socket, directOk) => WriteConserves(c, buf, now, socket, directOk);
    case Cleanup(now, socket) =>
      FlushConserves(c, socket);
      FlushKeeps(c, socket);
      ForgetPeer(Flush(c, socket));
    case Close(socket) =>
      FlushConserves(c, socket);
      FlushKeeps(c, socket);
      ForgetPeer(Flush(c, socket));
  }

  /**
   Over every run of one peer, with a socket that takes any positive number of messages per call: the packets
   accepted are the packets on the wire followed by those pending, each exactly once and in order. With a failing
   socket the packets on the wire are still a subsequence of those accepted. Fewer than 32 are ever pending between
   calls.
   */
  lemma {:induction false} EveryRunConserves(ops: seq<Op>)
    ensures Bounded(Run(ops)) && NeverInvents(Run(ops))
    ensures (forall k :: 0 <= k < |ops| ==> WillingOp(ops[k])) ==> Conserved(Run(ops))
  {
    if ops == [] {
      assert UNUSED.wire + Pending(UNUSED) == [];
    } else {
      var init := ops[..|ops| - 1];
      EveryRunConserves(init);
      hide Step, NeverInvents, Conserved, Bounded, WillingOp;
      StepConserves(Run(init), ops[|ops| - 1]);
    }
  }

  /** A batched packet, by its bytes: RTP version 2, no marker bit, at most 1500 bytes. */
  predicate Batched(buf: Packet) {
    12 <= |buf| <= 1500 && 128 <= buf[0] < 192 && buf[1] < 128
  }

  /** A packet that is sent on its own, by its bytes: not RTP version 2, or over 1500 bytes. */
  predicate SentAlone(buf: Packet) {
    !(12 <= |buf| <= 1500 && 128 <= buf[0] < 192)
  }

  lemma BatchedOrUrgent(buf: Packet)
    ensures Urgent(buf) <==> !Batched(buf)
  {
  }

  /** Nothing is pending after a packet that is not batched, a cleanup tick or Close. */
  lemma NothingWaits(ops: seq<Op>)
    requires ops != []
    ensures var op := ops[|ops| - 1];
            var before := Run(ops[..|ops| - 1]);
            op.Write? && |op.buf| > 0 && !Batched(op.buf) && !before.closed ==> Pending(Run(ops)) == []
    ensures !ops[|ops| - 1].Write? ==> Pending(Run(ops)) == []
  {
    var init, op := ops[..|ops| - 1], ops[|ops| - 1];
    EveryRunConserves(init);
    StepConserves(Run(init), op);
    if op.Write? {
      BatchedOrUrgent(op.buf);
      WriteConserves(Run(init), op.buf, op.now, op.socket, op.directOk);
    }
  }

  /**
   And a batched packet does wait: it joins the pending ones and nothing leaves, until it is the 32nd, with which the
   whole batch goes out. Any other packet goes out behind what is pending, unless it is sent alone and that fails. After
   Close, and for an empty packet, nothing happens at all.
   */
  lemma BatchesExactly(ops: seq<Op>, buf: Packet, now: int, socket: Socket, directOk: bool)
    ensures var c, d := Run(ops), Run(ops + [Write(buf, now, socket, directOk)]);
            && (c.closed || buf == [] ==> d == c)
            && (!c.closed && buf != [] ==> d.written == c.written + [buf])
            && (!c.closed && Batched(buf) && |Pending(c)| < 31 ==> Pending(d) == Pending(c) + [buf] && d.wire == c.wire)
            && (!c.closed && Batched(buf) && |Pending(c)| == 31 ==> Pending(d) == [])
            && (!c.closed && Batched(buf) && |Pending(c)| == 31 && Willing(socket) ==>
                  d.wire == c.wire + (Pending(c) + [buf]))
            && (!c.closed && !Batched(buf) && buf != [] && Willing(socket) ==>
                  d.wire == c.wire + Pending(c) + if directOk || !SentAlone(buf) then [buf] else [])
  {
    assert (ops + [Write(buf, now, socket, directOk)])[..|ops|] == ops;
    var c := Run(ops);
    assert Run(ops + [Write(buf, now, socket, directOk)]) == WriteTo(c, buf, now, socket, directOk);
    hide Run, WriteTo, Batched, SentAlone, Willing;
    if c.closed || buf == [] {
      IgnoredWrite(c, buf, now, socket, directOk);
      NothingBatched();
    } else if Batched(buf) {
      BatchedWrite(c, buf, now, socket, directOk);
    } else {
      UnbatchedWrite(c, buf, now, socket, directOk);
    }
  }

  lemma NothingBatched()
    ensures !Batched([])
  {
  }

  lemma IgnoredWrite(c: Conn, buf: Packet, now: int, socket: Socket, directOk: bool)
    requires c.closed || buf == []
    ensures WriteTo(c, buf, now, socket, directOk) == c
  {
  }

  lemma BatchedWrite(c: Conn, buf: Packet, now: int, socket: Socket, directOk: bool)
    requires Batched(buf) && !c.closed
    ensures var d := WriteTo(c, buf, now, socket, directOk);
            && d.written == c.written + [buf]
            && (|Pending(c)| < 31 ==> Pending(d) == Pending(c) + [buf] && d.wire == c.wire)
            && (|Pending(c)| == 31 ==> Pending(d) == [])
            && (|Pending(c)| == 31 && Willing(socket) ==> d.wire == c.wire + (Pending(c) + [buf]))
  {
    var c1 := Touch(GetOrCreate(c.(written := c.written + [buf]), now), now);
    FlushConserves(Enqueue(c1, buf), socket);
    hide Flush, Subsequence, Willing;
  }

  lemma UnbatchedWrite(c: Conn, buf: Packet, now: int, socket: Socket, directOk: bool)
    requires !Batched(buf) && buf != [] && !c.closed
    ensures var d := WriteTo(c, buf, now, socket, directOk);
            && d.written == c.written + [buf]
            && (Willing(socket) ==> d.wire == c.wire + Pending(c) + if directOk || !SentAlone(buf) then [buf] else [])
  {
    hide Flush, Subsequence, Willing;
    var c0 := GetOrCreate(c.(written := c.written + [buf]), now);
    if SentAlone(buf) {
      AloneAfterFlush(c0, buf, socket, directOk);
      AloneAfterFlush(Touch(c0, now), buf, socket, directOk);
    } else {
      FlushConserves(Enqueue(Touch(c0, now), buf), socket);
    }
  }

  lemma AloneAfterFlush(c: Conn, buf: Packet, socket: Socket, ok: bool)
    ensures var d := Direct(Flush(c, socket), buf, ok);
            && d.written == c.written
            && (Willing(socket) ==> d.wire == c.wire + Pending(c) + if ok then [buf] else [])
  {
    FlushConserves(c, socket);
    hide Flush, Subsequence, Willing;
  }

  // ---------------------------------------------------------------------------------------------
  // How long a peer is remembered

  /**
   The time a peer was last used, None when it has no batch: that of its latest RTP packet, or of the packet that
   created it if none has been RTP; a cleanup more than 30 seconds later, and Close, forget it.
   */
  function LastUse(ops: seq<Op>): Option<int> {
    if ops == [] then None
    else
      var init := ops[..|ops| - 1];
      var before := LastUse(init);
      match ops[|ops| - 1]
      case Write(buf, now, _, _) =>
        if HasClosed(init) || buf == [] then before
        else if before.Some? && !(|buf| >= 12 && 128 <= buf[0] < 192) then before
        else Some(now)
      case Cleanup(now, _) => if before.Some? && now - before.value > 30_000_000_000 then None else before
      case Close(_) => None
  }

  predicate HasClosed(ops: seq<Op>) {
    exists k :: 0 <= k < |ops| && ops[k].Close?
  }

  lemma HasClosedAppend(ops: seq<Op>)
    requires ops != []
    ensures HasClosed(ops) <==> HasClosed(ops[..|ops| - 1]) || ops[|ops| - 1].Close?
  {
    var init := ops[..|ops| - 1];
    if HasClosed(init) {
      var k :| 0 <= k < |init| && init[k].Close?;
      assert ops[k].Close?;
    }
    if HasClosed(ops) {
      var k :| 0 <= k < |ops| && ops[k].Close?;
      assert k == |ops| - 1 || init[k].Close?;
    }
  }

  /** In every run a peer has a batch, and the time it was last used, exactly as LastUse says. */
  lemma {:induction false} RememberedExactly(ops: seq<Op>)
    ensures Run(ops).closed == HasClosed(ops)
    ensures LastUse(ops) == if Run(ops).peer.Some? then Some(Run(ops).peer.value.lastUsed) else None
  {
    if ops == [] {
    } else {
      var init, op := ops[..|ops| - 1], ops[|ops| - 1];
      RememberedExactly(init);
      HasClosedAppend(ops);
      hide HasClosed;
      EveryRunConserves(init);
      StepRemembers(Run(init), op);
      hide Step, Run, NeverInvents, Conserved;
    }
  }

  /** One call, in terms of the peer's time alone. */
  lemma StepRemembers(c: Conn, op: Op)
    requires Bounded(c)
    ensures var d := Step(c, op);
            var before := if c.peer.Some? then Some(c.peer.value.lastUsed) else None;
            && d.closed == (c.closed || op.Close?)
            && (if d.peer.Some? then Some(d.peer.value.lastUsed) else None)
            == match op
               case Write(buf, now, _, _) =>
                 if c.closed || buf == [] then before
                 else if before.Some? && !(|buf| >= 12 && 128 <= buf[0] < 192) then before
                 else Some(now)
               case Cleanup(now, _) => if before.Some? && now - before.value > 30_000_000_000 then None else before
               case Close(_) => None
  {
    hide SentCount;
  }
}
