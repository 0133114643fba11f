/**
 The circular buffer and its subscribers, updated in place (internal/buffer/ring.go).

 Every method is one lock-protected call. The Go channel operations that can block or panic carry the
 condition under which they do not as a `requires`: `Send` needs room and an open channel, `TrySend`
 and `CloseChannel` need an open channel.
 */
module RingBuffer {
  import opened Frames
  import opened RingSpec

  /** What ReadContext ends with; `Blocked` means that it goes on waiting. */
  datatype ReadResult = Got(frame: Frame) | Eof | Cancelled | Blocked

  class Reader {
    const rb: RingBuffer
    const capacity: nat
    var c: seq<Frame>          // the buffered channel
    var cClosed: bool
    var drops: nat
    var needsIFrame: bool
    ghost const since: nat
    ghost var received: seq<Frame>
    ghost var sent: seq<nat>

    /** Whether a reader is registered is recorded in the ring, so the view takes it as an argument. */
    ghost function View(active: bool): ReaderState
      reads this
    {
      ReaderState(c, drops, needsIFrame, active, cClosed, since, received, sent)
    }

    constructor (rb: RingBuffer, capacity: nat, ghost since: nat)
      ensures this.rb == rb && this.capacity == capacity
      ensures View(false) == ReaderState([], 0, false, false, false, since, [], [])
    {
      this.rb, this.capacity := rb, capacity;
      c, cClosed, drops, needsIFrame := [], false, 0, false;
      this.since, received, sent := since, [], [];
    }

    /** `r.C <- f`: with room in an open channel it neither blocks nor panics. */
    method Send(f: Frame, ghost pos: nat)
      requires !cClosed && |c| < capacity
      modifies this`c, this`sent
      ensures c == old(c) + [f] && sent == old(sent) + [pos]
    {
      c := c + [f];
      sent := sent + [pos];
    }

    /** `select { case sub.C <- f: default: }` on an open channel. */
    method TrySend(f: Frame, ghost pos: nat) returns (ok: bool)
      requires !cClosed
      modifies this`c, this`sent
      ensures ok == (|old(c)| < capacity)
      ensures ok ==> c == old(c) + [f] && sent == old(sent) + [pos]
      ensures !ok ==> c == old(c) && sent == old(sent)
    {
      ok := |c| < capacity;
      if ok {
        Send(f, pos);
      }
    }

    method CloseChannel()
      requires !cClosed
      modifies this`cClosed
      ensures cClosed
    {
      cClosed := true;
    }

    /** ReadContext; `cancelled` says that the select takes its context's branch. */
    method Read(cancelled: bool, ghost me: nat) returns (r: ReadResult)
      requires rb.Valid() && me < |rb.created| && rb.created[me] == this
      modifies this`c, this`received, rb`readers
      ensures rb.Valid()
      ensures rb.View() == if cancelled then old(rb.View()) else Step(rb.capacity, old(rb.View()), Receive(me))
      ensures r == if cancelled then Cancelled
                   else if old(c) != [] then Got(old(c)[0])
                   else if cClosed then Eof else Blocked
    {
      if cancelled {
        return Cancelled;
      }
      if c == [] {
        r := if cClosed then Eof else Blocked;
      } else {
        r := Got(c[0]);
        c, received := c[1..], received + [c[0]];
      }
      rb.readers := rb.readers[me := Take(rb.readers[me])];
    }

    /** Close: unregisters this reader; closing it again does nothing. */
    method Close(ghost me: nat)
      requires rb.Valid() && me < |rb.created| && rb.created[me] == this
      modifies rb`subs, rb`subsSlice, rb`readers
      ensures rb.Valid() && rb.View() == Step(rb.capacity, old(rb.View()), CloseReader(me))
    {
      if this in rb.subs {
        rb.subs := rb.subs - {this};
        var i := 0;
        while i < |rb.subsSlice| && rb.subsSlice[i] != this
          invariant 0 <= i <= |rb.subsSlice| && this !in rb.subsSlice[..i]
        {
          i := i + 1;
        }
        assert this in rb.subsSlice;
        RemoveOne(rb.subsSlice, i);
        rb.subsSlice := rb.subsSlice[..i] + rb.subsSlice[i + 1..];
      }
      rb.readers := rb.readers[me := rb.readers[me].(active := false)];
    }
  }

  /** Cutting index `i` out of a list without repetitions removes exactly that element. */
  lemma RemoveOne<T>(s: seq<T>, i: nat)
    requires i < |s| && forall j, k :: 0 <= j < k < |s| ==> s[j] != s[k]
    ensures var t := s[..i] + s[i + 1..];
            && (set x | x in t) == (set x | x in s) - {s[i]}
            && forall j, k :: 0 <= j < k < |t| ==> t[j] != t[k]
  {
    var t := s[..i] + s[i + 1..];
    forall x | x in s && x != s[i] ensures x in t {
      var j :| 0 <= j < |s| && s[j] == x;
      assert t[if j < i then j else j - 1] == x;
    }
  }

  class RingBuffer {
    const capacity: nat
    const frames: array<Option<Frame>>
    var head: nat
    var closed: bool
    var subs: set<Reader>
    var subsSlice: seq<Reader>
    var totalDrops: nat
    ghost var log: seq<Frame>
    ghost var created: seq<Reader>        // every reader ever subscribed
    ghost var readers: seq<ReaderState>   // and its state

    ghost function View(): Ring
      reads this
    {
      Ring(log, closed, readers, totalDrops)
    }

    /** The array holds the last `capacity` entries of the log, each at its position modulo the capacity. */
    ghost predicate HoldsWindow()
      reads this`head, this`log, frames
    {
      && capacity > 0 && frames.Length == capacity && head == |log|
      && forall k :: 0 <= k < head && head - capacity <= k ==> frames[k % capacity] == Some(log[k])
    }

    ghost predicate Registered()
      reads this`subs, this`subsSlice, this`created, this`closed
    {
      && (forall j, k :: 0 <= j < k < |created| ==> created[j] != created[k])
      && (forall j, k :: 0 <= j < k < |subsSlice| ==> subsSlice[j] != subsSlice[k])
      && subs == (set r | r in subsSlice)
      && (forall r :: r in subs ==> r in created)
      && (forall r :: r in created ==> r.rb == this && r.capacity == capacity)
      && (closed ==> subs == {})
    }

    /** The recorded states are those of the reader objects; no registered reader's channel is closed. */
    ghost predicate Mirrors()
      reads this`subs, this`created, this`readers, created
    {
      && |readers| == |created|
      && (forall i :: 0 <= i < |created| ==> created[i].View(created[i] in subs) == readers[i])
      && (forall i :: 0 <= i < |created| && created[i] in subs ==> !created[i].cClosed)
    }

    ghost predicate Valid()
      reads this, frames, created
    {
      HoldsWindow() && Registered() && Mirrors()
    }

    constructor (capacity: int)
      ensures Valid() && fresh(frames)
      ensures this.capacity == if capacity <= 0 then 100 else capacity
      ensures View() == EMPTY
    {
      this.capacity := if capacity <= 0 then 100 else capacity;
      frames := new Option<Frame>[if capacity <= 0 then 100 else capacity](_ => None);
      head, closed, subs, subsSlice, totalDrops := 0, false, {}, [], 0;
      log, created, readers := [], [], [];
    }

    method Write(f: Frame)
      requires Valid()
      modifies this`head, this`log, this`totalDrops, this`readers, frames, created
      ensures Valid()
      ensures View() == Step(capacity, old(View()), RingSpec.Write(f))
    {
      if closed {
        return;
      }
      ghost var pos := head;
      Store(f);
      Broadcast(f, pos);
    }

    /** The first half of Write: the slot at `head % capacity` is overwritten. */
    method Store(f: Frame)
      requires HoldsWindow()
      modifies this`head, this`log, frames
      ensures HoldsWindow() && log == old(log) + [f]
    {
      var idx := head % capacity;
      frames[idx] := Some(f);
      head, log := head + 1, log + [f];
      forall k | 0 <= k < head - 1 && head - capacity <= k
        ensures k % capacity != idx
      {
        SlotsDiffer(k, head - 1, capacity);
      }
    }

    /** The second half of Write: each registered reader gets, skips or loses the frame. */
    method Broadcast(f: Frame, ghost pos: nat)
      requires Registered() && Mirrors()
      modifies this`totalDrops, this`readers, created
      ensures Mirrors() && readers == DeliverAll(capacity, old(readers), pos, f)
      ensures totalDrops == old(totalDrops) + NewDrops(capacity, old(readers), f)
    {
      hide SumDrops, NewDrops;
      ghost var start := readers;
      for n := 0 to |subsSlice|
        invariant Mirrors()
        invariant totalDrops == old(totalDrops) + SumDrops(readers) - SumDrops(start)
        invariant readers == Offered(capacity, start, created, subsSlice[..n], pos, f)
      {
        var sub := subsSlice[n];
        assert sub in subs;
        ghost var me :| 0 <= me < |created| && created[me] == sub;
        DropsUpdate(readers, me, Deliver(capacity, readers[me], pos, f));
        Offer(sub, f, pos, me);
        OfferedNext(capacity, start, created, subsSlice, n, me, pos, f);
      }
      assert subsSlice[..|subsSlice|] == subsSlice;
      assert readers == DeliverAll(capacity, start, pos, f);
      DropsAdd(capacity, start, pos, f);
    }

    /** One iteration of the broadcast loop. */
    method Offer(sub: Reader, f: Frame, ghost pos: nat, ghost me: nat)
      requires Registered() && Mirrors() && sub in subs && me < |created| && created[me] == sub
      modifies this`totalDrops, this`readers, sub`c, sub`sent, sub`drops, sub`needsIFrame
      ensures Mirrors() && readers == old(readers)[me := Deliver(capacity, old(readers)[me], pos, f)]
      ensures totalDrops == old(totalDrops) + readers[me].drops - old(readers)[me].drops
    {
      readers := readers[me := Deliver(capacity, readers[me], pos, f)];
      if sub.needsIFrame {
        if !f.isKeyFrame {
          return;
        }
        sub.needsIFrame := false;
      }
      var ok := sub.TrySend(f, pos);
      if !ok {
        sub.drops := sub.drops + 1;
        totalDrops := totalDrops + 1;
        sub.needsIFrame := true;
      }
    }

    /** findLastIFrameLocked: the newest keyframe still held by the array. */
    method FindLastIFrame() returns (idx: nat, found: bool)
      requires HoldsWindow()
      ensures found <==> LatestKey(log, capacity) != -1
      ensures found ==> idx == LatestKey(log, capacity)
      ensures !found ==> idx == head
    {
      var i := 0;
      while i < capacity
        invariant 0 <= i <= capacity && i <= head
        invariant forall j :: head - i <= j < head ==> !log[j].isKeyFrame
      {
        var step := i + 1;
        if head < step {
          break;
        }
        idx := head - step;
        var frame := frames[idx % capacity];
        assert frame == Some(log[idx]);
        if frame.Some? && frame.value.isKeyFrame {
          return idx, true;
        }
        i := i + 1;
      }
      return head, false;
    }

    /** Subscribe: the preload is the log from the newest keyframe still held; its sends always have room. */
    method Subscribe() returns (r: Reader)
      requires Valid()
      modifies this`subs, this`subsSlice, this`created, this`readers
      ensures Valid() && fresh(r) && created == old(created) + [r]
      ensures View() == Step(capacity, old(View()), RingSpec.Subscribe)
    {
      assert head == |log|;
      hide LatestKey, HoldsWindow, Registered, Mirrors;
      r := new Reader(this, capacity, head);
      if closed {
        r.CloseChannel();
      } else {
        Preload(r);
      }
      Enlist(r);
    }

    /** Adds a new reader; on an open ring it is registered for broadcasts. */
    method Enlist(r: Reader)
      requires Registered() && Mirrors() && r !in created
      requires r.rb == this && r.capacity == capacity && (!closed ==> !r.cClosed)
      modifies this`subs, this`subsSlice, this`created, this`readers
      ensures Registered() && Mirrors()
      ensures created == old(created) + [r] && readers == old(readers) + [r.View(!closed)]
    {
      if !closed {
        subs := subs + {r};
        subsSlice := subsSlice + [r];
      }
      created := created + [r];
      readers := readers + [r.View(!closed)];
    }

    method Preload(r: Reader)
      requires HoldsWindow() && r.capacity == capacity
      requires r.View(false) == ReaderState([], 0, false, false, false, head, [], [])
      modifies r
      ensures r.View(true) == NewReader(capacity, Ring(log, false, [], 0))
    {
      hide LatestKey;
      var startIdx, found := FindLastIFrame();
      if found {
        var i := startIdx;
        while i < head
          invariant startIdx <= i <= head
          invariant r.View(false)
                 == ReaderState(log[startIdx..i], 0, false, false, false, head, [], Positions(startIdx, i))
        {
          var f := frames[i % capacity];
          assert f == Some(log[i]);
          if f.Some? {
            r.Send(f.value, i);
          }
          assert Positions(startIdx, i + 1) == Positions(startIdx, i) + [i];
          i := i + 1;
        }
        assert log[startIdx..head] == log[startIdx..];
      } else if head > 0 {
        r.needsIFrame := true;
      }
    }

    /** Close: every registered reader's channel is closed once, and nobody stays registered. */
    method Close()
      requires Valid()
      modifies this`closed, this`subs, this`subsSlice, this`readers, created
      ensures Valid()
      ensures View() == Step(capacity, old(View()), RingSpec.Close)
    {
      if closed {
        return;
      }
      CloseChannels();
      closed, subs, subsSlice := true, {}, [];
      readers := Step(capacity, old(View()), RingSpec.Close).readers;
    }

    method CloseChannels()
      requires Registered() && Mirrors()
      modifies created
      ensures forall i :: 0 <= i < |created| ==> created[i].View(false) == Shut(readers[i])
    {
      forall k | 0 <= k < |subsSlice| ensures !subsSlice[k].cClosed {
        assert subsSlice[k] in subs;
      }
      for n := 0 to |subsSlice|
        invariant forall k :: n <= k < |subsSlice| ==> !subsSlice[k].cClosed
        invariant forall i :: 0 <= i < |created| ==>
                    created[i].View(created[i] in subs) ==
                    if created[i] in subsSlice[..n] then readers[i].(chanClosed := true) else readers[i]
      {
        var sub := subsSlice[n];
        assert sub in subs;
        sub.CloseChannel();
        assert subsSlice[..n + 1] == subsSlice[..n] + [sub];
      }
    }
  }

  /** The reader states when the objects in `done` have been offered the frame. */
  ghost function Offered(cap: nat, start: seq<ReaderState>, all: seq<Reader>, done: seq<Reader>, pos: nat,
                         f: Frame): seq<ReaderState>
    requires |start| == |all|
  {
    seq(|start|, i requires 0 <= i < |start| => if all[i] in done then Deliver(cap, start[i], pos, f) else start[i])
  }

  lemma OfferedNext(cap: nat, start: seq<ReaderState>, all: seq<Reader>, todo: seq<Reader>, n: nat, me: nat,
                    pos: nat, f: Frame)
    requires |start| == |all| && n < |todo| && me < |all| && all[me] == todo[n]
    requires forall j, k :: 0 <= j < k < |todo| ==> todo[j] != todo[k]
    requires forall j, k :: 0 <= j < k < |all| ==> all[j] != all[k]
    ensures Offered(cap, start, all, todo[..n], pos, f)[me] == start[me]
    ensures Offered(cap, start, all, todo[..n + 1], pos, f)
         == Offered(cap, start, all, todo[..n], pos, f)[me := Deliver(cap, start[me], pos, f)]
  {
    assert todo[..n + 1] == todo[..n] + [todo[n]];
  }

  /** Two positions less than `cap` apart use different slots. */
  lemma SlotsDiffer(a: nat, b: nat, cap: nat)
    requires cap > 0 && a < b < a + cap
    ensures a % cap != b % cap
  {
    var qa, qb := a / cap, b / cap;
    if qa < qb {
      MultiplesApart(qa, qb, cap);
    } else if qb < qa {
      MultiplesApart(qb, qa, cap);
    }
  }

  lemma {:induction false} MultiplesApart(x: nat, y: nat, cap: nat)
    requires x < y
    ensures x * cap + cap <= y * cap
  {
    if x + 1 < y {
      MultiplesApart(x, y - 1, cap);
    }
  }
}
