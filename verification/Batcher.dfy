/**
 The UDP batcher, updating its slots and shard maps in place (internal/webrtc/batch_linux.go).

 Each method is proved, for every address at once, to make the steps of module BatcherSpec on the addressed peer and to
 leave all others alone.
 */
module Batcher {
  import opened Frames
  import opened BatcherSpec

  datatype Addr = Addr(ip: seq<Byte>, port: nat)

  const NUM_SHARDS := 64

  /** Any hash of an address picks its shard; the source mixes the port with the last four address bytes. */
  type Hash = Addr -> nat

  function ShardOf(hash: Hash, a: Addr): (i: nat)
    ensures i < NUM_SHARDS
  {
    hash(a) % NUM_SHARDS
  }

  /** The pre-allocated slots of one peer: 32 of them, of which the first `count` are in use. */
  class PeerBatch {
    var slots: seq<Packet>
    var count: nat
    var lastUsed: int

    ghost predicate Valid()
      reads this
    {
      |slots| == MAX_BATCH && count <= MAX_BATCH
    }

    ghost function View(): Peer
      requires Valid()
      reads this
    {
      Peer(slots[..count], lastUsed)
    }

    constructor (now: int)
      ensures Valid() && View() == Peer([], now)
    {
      slots := seq(MAX_BATCH, _ => []);
      count, lastUsed := 0, now;
    }

    method Put(buf: Packet)
      requires Valid() && count < MAX_BATCH
      modifies this`slots, this`count
      ensures Valid() && View() == old(View()).(pending := old(View()).pending + [buf])
    {
      slots := slots[count := buf];
      count := count + 1;
    }

    /** flushLocked: repeats the batched send until everything is gone, an error, or a send that takes nothing. */
    method FlushLocked(socket: Socket) returns (sent: nat)
      requires Valid()
      modifies this`count
      ensures Valid() && View() == old(View()).(pending := [])
      ensures sent == SentCount(old(count), socket, 0)
    {
      var total := count;
      sent := 0;
      var k := 0;
      while sent < total
        invariant 0 <= sent <= total
        invariant SentCount(total, socket, 0) == sent + SentCount(total - sent, socket, k)
      {
        var reply := socket(k);
        var n := Taken(reply, total - sent);
        sent := sent + n;
        k := k + 1;
        if reply.err || n <= 0 {
          break;
        }
      }
      count := 0;
    }
  }

  /** Every peer sits in the shard its address hashes to. */
  ghost predicate Sharded(hash: Hash, shards: seq<map<Addr, PeerBatch>>, peers: map<Addr, PeerBatch>) {
    && |shards| == NUM_SHARDS
    && (forall a :: a in peers ==> a in shards[ShardOf(hash, a)] && shards[ShardOf(hash, a)][a] == peers[a])
    && (forall i, a :: 0 <= i < NUM_SHARDS && a in shards[i] ==> ShardOf(hash, a) == i && a in peers)
  }

  /** No two addresses share a batch. */
  ghost predicate Separate(peers: map<Addr, PeerBatch>) {
    forall a, b :: a in peers && b in peers && a != b ==> peers[a] != peers[b]
  }

  lemma ShardedAdd(hash: Hash, shards: seq<map<Addr, PeerBatch>>, peers: map<Addr, PeerBatch>, addr: Addr,
                   pb: PeerBatch)
    requires Sharded(hash, shards, peers)
    ensures Sharded(hash, shards[ShardOf(hash, addr) := shards[ShardOf(hash, addr)][addr := pb]], peers[addr := pb])
  {
    hide ShardOf;
  }

  lemma ShardedRemove(hash: Hash, shards: seq<map<Addr, PeerBatch>>, peers: map<Addr, PeerBatch>, addr: Addr)
    requires Sharded(hash, shards, peers)
    ensures Sharded(hash, shards[ShardOf(hash, addr) := shards[ShardOf(hash, addr)] - {addr}], peers - {addr})
  {
    hide ShardOf;
  }

  lemma ShardedFinds(hash: Hash, shards: seq<map<Addr, PeerBatch>>, peers: map<Addr, PeerBatch>, addr: Addr)
    requires Sharded(hash, shards, peers)
    ensures |shards| == NUM_SHARDS
    ensures addr in shards[ShardOf(hash, addr)] <==> addr in peers
    ensures addr in peers ==> shards[ShardOf(hash, addr)][addr] == peers[addr]
  {
    hide ShardOf;
  }

  lemma SeparateAdd(peers: map<Addr, PeerBatch>, addr: Addr, pb: PeerBatch)
    requires Separate(peers) && forall a :: a in peers ==> peers[a] != pb
    ensures Separate(peers[addr := pb])
  {
  }

  lemma SeparateRemove(peers: map<Addr, PeerBatch>, addr: Addr)
    requires Separate(peers)
    ensures Separate(peers - {addr})
  {
  }

  class PlatformBatcher {
    const hash: Hash
    var shards: seq<map<Addr, PeerBatch>>
    var closed: bool
    ghost var peers: map<Addr, PeerBatch>   // the union of the shards
    ghost var conns: map<Addr, Conn>        // what has happened to each address
    ghost var repr: set<PeerBatch>

    ghost function View(a: Addr): (c: Conn)
      reads this`conns, this`closed
    {
      (if a in conns then conns[a] else UNUSED).(closed := closed)
    }

    /** The recorded state of every address is that of its batch, if it has one. */
    ghost predicate Mirrors()
      reads this`peers, this`conns, this`repr, repr
    {
      && (forall a :: a in peers ==> a in conns && peers[a] in repr)
      && (forall a :: a in peers ==> peers[a].Valid() && conns[a].peer == Some(peers[a].View()))
      && (forall a :: a in conns && conns[a].peer.Some? ==> a in peers)
    }

    ghost predicate Valid()
      reads this, repr
    {
      Sharded(hash, shards, peers) && Separate(peers) && Mirrors() && (closed ==> peers == map[])
    }

    constructor (hash: Hash)
      ensures Valid() && fresh(repr) && forall a :: View(a) == UNUSED
    {
      this.hash := hash;
      shards := seq(NUM_SHARDS, _ => map[]);
      closed, peers, conns, repr := false, map[], map[], {};
    }

    lemma PeerFacts(addr: Addr, pb: PeerBatch)
      requires Valid() && addr in peers && peers[addr] == pb
      ensures addr in conns && pb.Valid() && conns[addr].peer == Some(pb.View()) && pb in repr && !closed
    {
    }

    lemma OthersDiffer(addr: Addr, pb: PeerBatch)
      requires Separate(peers) && addr in peers && peers[addr] == pb
      ensures forall a :: a in peers && a != addr ==> peers[a] != pb
    {
    }

    /** As Mirrors, with one address left open while its batch is being changed. */
    ghost predicate MirrorsBut(addr: Addr)
      reads this`peers, this`conns, this`repr, repr
    {
      && (forall a :: a in peers ==> a in conns && peers[a] in repr)
      && (forall a :: a in peers && a != addr ==> peers[a].Valid() && conns[a].peer == Some(peers[a].View()))
      && (forall a :: a in conns && conns[a].peer.Some? ==> a in peers)
    }

    /** Records the new state of an address whose batch has just been changed. */
    ghost method Record(addr: Addr, c: Conn)
      requires MirrorsBut(addr) && addr in peers && peers[addr].Valid()
      requires c.peer == Some(peers[addr].View()) && c.closed == closed
      modifies this`conns
      ensures Mirrors() && View(addr) == c && forall a :: a != addr ==> View(a) == old(View(a))
    {
      conns := conns[addr := c];
    }

    /** getOrCreatePeerBatch */
    method GetOrCreatePeer(addr: Addr, now: int) returns (pb: PeerBatch)
      requires Valid() && !closed
      modifies this`shards, this`peers, this`conns, this`repr
      ensures Valid() && addr in peers && peers[addr] == pb && fresh(repr - old(repr))
      ensures View(addr) == GetOrCreate(old(View(addr)), now)
      ensures forall a :: a != addr ==> View(a) == old(View(a))
    {
      hide ShardOf, Sharded, Separate;
      var i := ShardOf(hash, addr);
      ShardedFinds(hash, shards, peers, addr);
      if addr in shards[i] {
        return shards[i][addr];
      }
      pb := new PeerBatch(now);
      AddPeer(addr, pb, now);
    }

    method AddPeer(addr: Addr, pb: PeerBatch, now: int)
      requires Valid() && !closed && addr !in peers && pb !in repr && pb.Valid() && pb.View() == Peer([], now)
      modifies this`shards, this`peers, this`conns, this`repr
      ensures Valid() && addr in peers && peers[addr] == pb && repr == old(repr) + {pb}
      ensures View(addr) == GetOrCreate(old(View(addr)), now)
      ensures forall a :: a != addr ==> View(a) == old(View(a))
    {
      hide ShardOf, Sharded, Separate;
      ShardedFinds(hash, shards, peers, addr);
      ShardedAdd(hash, shards, peers, addr, pb);
      SeparateAdd(peers, addr, pb);
      var i := ShardOf(hash, addr);
      shards := shards[i := shards[i][addr := pb]];
      peers := peers[addr := pb];
      conns := conns[addr := GetOrCreate(View(addr), now)];
      repr := repr + {pb};
    }

    /** Flushes the peer's batch and records what left. */
    method FlushPeer(addr: Addr, pb: PeerBatch, socket: Socket)
      requires Valid() && addr in peers && peers[addr] == pb
      modifies this`conns, pb`count
      ensures Valid() && View(addr) == Flush(old(View(addr)), socket)
      ensures forall a :: a != addr ==> View(a) == old(View(a))
    {
      OthersDiffer(addr, pb);
      hide Sharded, Separate;
      var sent := pb.FlushLocked(socket);
      Record(addr, Flush(View(addr), socket));
    }

    method PutPacket(addr: Addr, pb: PeerBatch, buf: Packet)
      requires Valid() && addr in peers && peers[addr] == pb && pb.count < MAX_BATCH
      modifies this`conns, pb`slots, pb`count
      ensures Valid() && View(addr) == Enqueue(old(View(addr)), buf)
      ensures forall a :: a != addr ==> View(a) == old(View(a))
    {
      OthersDiffer(addr, pb);
      hide Sharded, Separate;
      pb.Put(buf);
      Record(addr, Enqueue(View(addr), buf));
    }

    method TouchPeer(addr: Addr, pb: PeerBatch, now: int)
      requires Valid() && addr in peers && peers[addr] == pb
      modifies this`conns, pb`lastUsed
      ensures Valid() && View(addr) == Touch(old(View(addr)), now)
      ensures forall a :: a != addr ==> View(a) == old(View(a))
    {
      OthersDiffer(addr, pb);
      hide Sharded, Separate;
      pb.lastUsed := now;
      Record(addr, Touch(View(addr), now));
    }

    /** Records a packet as accepted. */
    method Accept(addr: Addr, buf: Packet)
      requires Valid() && !closed
      modifies this`conns
      ensures Valid() && View(addr) == old(View(addr)).(written := old(View(addr)).written + [buf])
      ensures forall a :: a != addr ==> View(a) == old(View(a))
    {
      hide Sharded, Separate;
      conns := conns[addr := View(addr).(written := View(addr).written + [buf])];
    }

    /** udpConn.WriteToUDPAddrPort */
    method SendDirect(addr: Addr, buf: Packet, ok: bool)
      requires Valid() && !closed
      modifies this`conns
      ensures Valid() && View(addr) == Direct(old(View(addr)), buf, ok)
      ensures forall a :: a != addr ==> View(a) == old(View(a))
    {
      hide Sharded, Separate;
      conns := conns[addr := Direct(View(addr), buf, ok)];
    }

    /** Packets that are not batched: what is pending goes first, then the packet itself. */
    method FlushAndSend(addr: Addr, pb: PeerBatch, buf: Packet, socket: Socket, ok: bool)
      requires Valid() && addr in peers && peers[addr] == pb && !closed
      modifies this`conns, pb`count
      ensures Valid() && View(addr) == Direct(Flush(old(View(addr)), socket), buf, ok)
      ensures forall a :: a != addr ==> View(a) == old(View(a))
    {
      hide Valid, View, Flush, Direct;
      FlushPeer(addr, pb, socket);
      SendDirect(addr, buf, ok);
    }

    /** WriteToAddrPort: one step of the addressed peer; every other peer is untouched. */
    method WriteToAddrPort(buf: Packet, addr: Addr, now: int, socket: Socket, directOk: bool)
      requires Valid() && Bounded(View(addr))
      modifies this, repr
      ensures Valid() && fresh(repr - old(repr))
      ensures View(addr) == Step(old(View(addr)), Write(buf, now, socket, directOk))
      ensures forall a :: a != addr ==> View(a) == old(View(a))
    {
      if closed || |buf| == 0 {
        return;
      }
      hide Sharded, Separate, Mirrors, Flush, Direct, WriteRtpTo;
      Accept(addr, buf);
      var pb := GetOrCreatePeer(addr, now);
      if !IsRtp(buf) {
        PeerFacts(addr, pb);
        FlushAndSend(addr, pb, buf, socket, directOk);
        return;
      }
      WriteRtp(buf, addr, pb, now, socket, directOk);
    }

    /** The RTP branch, under the peer's lock. */
    method WriteRtp(buf: Packet, addr: Addr, pb: PeerBatch, now: int, socket: Socket, directOk: bool)
      requires Valid() && addr in peers && peers[addr] == pb && |Pending(View(addr))| < MAX_BATCH
      modifies this`conns, pb
      ensures Valid() && peers == old(peers) && repr == old(repr) && closed == old(closed)
      ensures View(addr) == WriteRtpTo(old(View(addr)), buf, now, socket, directOk)
      ensures forall a :: a != addr ==> View(a) == old(View(a))
    {
      PeerFacts(addr, pb);
      TouchPeer(addr, pb, now);
      if |buf| > MAX_PACKET {
        FlushAndSend(addr, pb, buf, socket, directOk);
        return;
      }
      PeerFacts(addr, pb);
      PutPacket(addr, pb, buf);
      PeerFacts(addr, pb);
      if IsMarker(buf) || pb.count >= MAX_BATCH {
        FlushPeer(addr, pb, socket);
      }
    }

    method RemovePeer(addr: Addr)
      requires Valid() && addr in peers
      modifies this`shards, this`peers, this`conns
      ensures Valid() && peers == old(peers) - {addr} && View(addr) == old(View(addr)).(peer := None)
      ensures forall a :: a != addr ==> View(a) == old(View(a))
    {
      hide ShardOf, Sharded, Separate;
      var i := ShardOf(hash, addr);
      ShardedFinds(hash, shards, peers, addr);
      ShardedRemove(hash, shards, peers, addr);
      SeparateRemove(peers, addr);
      shards := shards[i := shards[i] - {addr}];
      peers := peers - {addr};
      conns := conns[addr := View(addr).(peer := None)];
    }

    /** One peer of a sweep: flush it and, in a cleanup tick, forget it when it has been idle. */
    method SweepPeer(addr: Addr, tick: Option<int>, socket: Socket)
      requires Valid() && addr in peers
      modifies this`shards, this`peers, this`conns, repr
      ensures Valid() && (peers == old(peers) || peers == old(peers) - {addr})
      ensures View(addr) == Swept(old(View(addr)), tick, socket)
      ensures forall a :: a != addr ==> View(a) == old(View(a))
    {
      ShardedFinds(hash, shards, peers, addr);
      hide ShardOf, Sharded, Separate;
      var pb := shards[ShardOf(hash, addr)][addr];
      PeerFacts(addr, pb);
      var last := pb.lastUsed;
      FlushPeer(addr, pb, socket);
      if tick.Some? && tick.value - last > IDLE_LIMIT {
        RemovePeer(addr);
      }
    }

    lemma AbsentUnswept(tick: Option<int>, sockets: Addr -> Socket)
      requires Valid()
      ensures forall a :: a !in peers ==> Swept(View(a), tick, sockets(a)) == View(a)
    {
      hide Sharded, Separate;
    }

    method ShardKeys(i: nat) returns (keys: set<Addr>)
      requires Valid() && i < NUM_SHARDS
      ensures forall a :: a in keys <==> a in peers && ShardOf(hash, a) == i
    {
      hide ShardOf;
      keys := shards[i].Keys;
    }

    /** All peers of one shard, in any order. */
    method SweepShard(i: nat, tick: Option<int>, sockets: Addr -> Socket)
      requires Valid() && i < NUM_SHARDS
      modifies this`shards, this`peers, this`conns, repr
      ensures Valid() && forall a :: a in peers ==> a in old(peers)
      ensures forall a :: a in old(peers) && ShardOf(hash, a) != i ==> a in peers
      ensures forall a ::
                View(a) == if ShardOf(hash, a) == i then Swept(old(View(a)), tick, sockets(a)) else old(View(a))
    {
      hide ShardOf, Swept, Valid, View;
      AbsentUnswept(tick, sockets);
      var todo := ShardKeys(i);
      while todo != {}
        invariant Valid() && todo <= peers.Keys
        invariant forall a :: a in peers ==> a in old(peers)
        invariant forall a :: a in old(peers) && ShardOf(hash, a) != i ==> a in peers
        invariant forall a :: a in todo ==> ShardOf(hash, a) == i && a in old(peers)
        invariant forall a ::
          View(a) == if a in old(peers) && ShardOf(hash, a) == i && a !in todo
                     then Swept(old(View(a)), tick, sockets(a)) else old(View(a))
        decreases todo
      {
        var addr :| addr in todo;
        SweepPeer(addr, tick, sockets(addr));
        todo := todo - {addr};
      }
    }

    /** All shards in turn. */
    method Sweep(tick: Option<int>, sockets: Addr -> Socket)
      requires Valid()
      modifies this`shards, this`peers, this`conns, repr
      ensures Valid() && forall a :: View(a) == Swept(old(View(a)), tick, sockets(a))
    {
      hide Swept, Valid, View;
      for i := 0 to NUM_SHARDS
        invariant Valid()
        invariant forall a ::
          View(a) == if ShardOf(hash, a) < i then Swept(old(View(a)), tick, sockets(a)) else old(View(a))
      {
        SweepShard(i, tick, sockets);
      }
    }

    /** The tick of cleanupLoop. */
    method CleanupTick(now: int, sockets: Addr -> Socket)
      requires Valid()
      modifies this`shards, this`peers, this`conns, repr
      ensures Valid() && forall a :: View(a) == Step(old(View(a)), Cleanup(now, sockets(a)))
    {
      hide Swept, Valid, View;
      Sweep(Some(now), sockets);
    }

    /** Close: what is pending is flushed, and the batcher accepts nothing more. */
    method CloseBatcher(sockets: Addr -> Socket)
      requires Valid()
      modifies this, repr
      ensures Valid() && forall a :: View(a) == Step(old(View(a)), Close(sockets(a)))
    {
      if closed {
        return;
      }
      Sweep(None, sockets);
      Clear();
    }

    method Clear()
      requires Valid() && !closed
      modifies this
      ensures Valid() && forall a :: View(a) == old(View(a)).(peer := None, closed := true)
    {
      hide ShardOf;
      shards := seq(NUM_SHARDS, _ => map[]);
      peers := map[];
      conns := map a | a in conns :: conns[a].(peer := None);
      closed := true;
    }
  }
}
