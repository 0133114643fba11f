/**
 The billing worker and the batched store update, in place (internal/stream/billing.go, pkg/storage/storage.go).

 Iteration over a Go map is over a list of its keys in an arbitrary order, given as an input; which transaction
 fails, if any, is an input too.
 */
module Billing {
  import opened Frames
  import opened BillingSpec
  import opened BillingFlush

  function Lookup<T>(m: map<string, T>, id: string): Option<T> {
    if id in m then Some(m[id]) else None
  }

  /** `keys` lists the keys of `m`, each once. */
  ghost predicate Lists<T>(keys: seq<string>, m: map<string, T>) {
    Distinct(keys) && forall id :: id in keys <==> id in m
  }

  class Worker {
    var lastBytes: map<string, nat>
    var pendingDelta: map<string, nat>
    var store: map<string, Camera>

    ghost function View(id: string): Ledger
      reads this
    {
      Ledger(Lookup(lastBytes, id), Lookup(pendingDelta, id), Lookup(store, id))
    }

    method AddDelta(id: string, current: nat)
      modifies this`lastBytes, this`pendingDelta
      ensures View(id) == CollectLedger(old(View(id)), Some(current))
      ensures forall other :: other != id ==> View(other) == old(View(other))
    {
      var prev := if id in lastBytes then lastBytes[id] else 0;
      var before := if id in pendingDelta then pendingDelta[id] else 0;
      if current > prev {
        pendingDelta := pendingDelta[id := before + (current - prev)];
      } else if current < prev {
        pendingDelta := pendingDelta[id := before + current];
      }
      lastBytes := lastBytes[id := current];
    }

    /** The loop of collectBillingDelta over the active streams. */
    method AddDeltas(streams: map<string, nat>, order: seq<string>)
      requires Lists(order, streams)
      modifies this`lastBytes, this`pendingDelta
      ensures forall id ::
        View(id) == if id in streams then CollectLedger(old(View(id)), Some(streams[id])) else old(View(id))
    {
      hide View, CollectLedger;
      for n := 0 to |order|
        invariant forall id ::
          View(id) == if id in order[..n] then CollectLedger(old(View(id)), Some(streams[id])) else old(View(id))
      {
        var id := order[n];
        assert id !in order[..n] && order[..n + 1] == order[..n] + [id];
        AddDelta(id, streams[id]);
      }
    }

    /** Cameras without a stream are forgotten. */
    method ForgetRemoved(streams: map<string, nat>)
      modifies this`lastBytes
      ensures forall id :: View(id) == if id in streams then old(View(id)) else CollectLedger(old(View(id)), None)
    {
      var stale := set id | id in lastBytes && id !in streams;
      while stale != {}
        invariant forall id :: id in lastBytes && id !in streams ==> id in stale
        invariant forall id :: id in stale ==> id !in streams
        invariant forall id :: id in streams || id in stale ==> View(id) == old(View(id))
        invariant forall id :: id !in streams && id !in stale ==> View(id) == CollectLedger(old(View(id)), None)
        decreases stale
      {
        var id :| id in stale;
        lastBytes := lastBytes - {id};
        stale := stale - {id};
      }
    }

    /** collectBillingDelta */
    method CollectDelta(streams: map<string, nat>, order: seq<string>)
      requires Lists(order, streams)
      modifies this`lastBytes, this`pendingDelta
      ensures forall id :: View(id) == CollectLedger(old(View(id)), Lookup(streams, id))
    {
      hide View, CollectLedger;
      AddDeltas(streams, order);
      ForgetRemoved(streams);
    }

    /** The body of one transaction: every entry whose camera exists is charged. */
    method ChargeChunk(chunk: seq<string>, month: string) returns (after: map<string, Camera>)
      requires forall id :: id in chunk ==> id in pendingDelta
      requires Distinct(chunk)
      ensures forall id ::
        Lookup(after, id) == if id in chunk then ApplyLedger(View(id), month).camera else Lookup(store, id)
    {
      hide Charge;
      after := store;
      for n := 0 to |chunk|
        invariant forall id ::
          Lookup(after, id) == if id in chunk[..n] then ApplyLedger(View(id), month).camera else Lookup(store, id)
      {
        var id := chunk[n];
        assert id !in chunk[..n] && chunk[..n + 1] == chunk[..n] + [id];
        assert Lookup(after, id) == Lookup(store, id);
        if id in after {
          after := after[id := Charge(after[id], pendingDelta[id], month)];
        }
      }
    }

    /** The store after the first `n` entries have been charged against the records in `base`. */
    ghost predicate Charged(entries: seq<string>, n: nat, base: map<string, Camera>, month: string)
      requires n <= |entries|
      reads this
    {
      forall id :: Lookup(store, id) == if id in entries[..n] then Bill(base, id, month) else Lookup(base, id)
    }

    /** The record of `id` in `base` with its pending bytes charged. */
    ghost function Bill(base: map<string, Camera>, id: string, month: string): Option<Camera>
      reads this`pendingDelta
    {
      ApplyLedger(Ledger(None, Lookup(pendingDelta, id), Lookup(base, id)), month).camera
    }

    /** One transaction over entries `lo` to `hi`: all of it or, when it fails, nothing. */
    method CommitChunk(entries: seq<string>, lo: nat, hi: nat, month: string, fails: bool,
                       ghost base: map<string, Camera>) returns (ok: bool)
      requires Lists(entries, pendingDelta) && lo <= hi <= |entries| && Charged(entries, lo, base, month)
      modifies this`store
      ensures ok == !fails && Charged(entries, if ok then hi else lo, base, month)
    {
      hide Charge;
      var chunk := entries[lo..hi];
      assert forall id :: id in chunk ==> id in entries && id !in entries[..lo];
      assert entries[..hi] == entries[..lo] + chunk;
      var after := ChargeChunk(chunk, month);
      if fails {
        return false;
      }
      store := after;
      return true;
    }

    /**
     BatchUpdateTraffic: transactions of up to 200 entries, of which the `failAt`-th fails if there are that many. The
     entries before it are charged, each once; with at most 200 entries a failure charges nothing.
     */
    method BatchUpdateTraffic(entries: seq<string>, month: string, failAt: Option<nat>)
      returns (ok: bool, ghost committed: nat)
      requires Lists(entries, pendingDelta)
      modifies this`store
      ensures committed <= |entries| && (ok ==> committed == |entries|)
      ensures !ok ==> failAt.Some? && committed == failAt.value * BATCH_SIZE < |entries|
      ensures ok ==> failAt.None? || failAt.value * BATCH_SIZE >= |entries|
      ensures Charged(entries, committed, old(store), month)
    {
      hide Bill;
      committed := 0;
      var i, chunkNo := 0, 0;
      while i < |entries|
        invariant i == chunkNo * BATCH_SIZE && committed == if i <= |entries| then i else |entries|
        invariant failAt.Some? ==> failAt.value >= chunkNo
        invariant Charged(entries, committed, old(store), month)
        decreases |entries| - i
      {
        var end := if i + BATCH_SIZE > |entries| then |entries| else i + BATCH_SIZE;
        ok := CommitChunk(entries, i, end, month, failAt == Some(chunkNo), old(store));
        if !ok {
          return;
        }
        i, chunkNo, committed := i + BATCH_SIZE, chunkNo + 1, end;
      }
      ok := true;
    }

    /** The flush of a tick: with nothing pending the store is not called. */
    method FlushPending(month: string, failAt: Option<nat>, traversal: seq<string>)
      returns (ok: bool, ghost entries: seq<string>)
      requires Distinct(traversal) && forall id :: id in pendingDelta ==> id in traversal
      modifies this`pendingDelta, this`store
      ensures entries == Keep(traversal, old(pendingDelta).Keys) && Lists(entries, old(pendingDelta))
      ensures ok <==> FlushOk(entries, failAt)
      ensures forall id :: View(id) == FlushLedger(old(View(id)), OutcomeOf(entries, failAt, id), month)
    {
      hide Charge, Keep;
      entries := Keep(traversal, pendingDelta.Keys);
      KeepMembers(traversal, pendingDelta.Keys);
      if |pendingDelta| == 0 {
        assert pendingDelta.Keys == {};
        KeepNone(traversal);
        ok := true;
      } else {
        ghost var n;
        var keys := KeyList(pendingDelta, traversal);
        ok, n := BatchUpdateTraffic(keys, month, failAt);
        if ok {
          assert keys[..n] == keys;
          pendingDelta := map[];
        }
      }
    }

    /**
     One tick of the billing worker, for every camera at once. `traversal` is the order in which the map of pending
     bytes is traversed: its entries are taken in that order, and each camera fares as OutcomeOf says.
     */
    method RunTick(streams: map<string, nat>, order: seq<string>, month: string, failAt: Option<nat>,
                   traversal: seq<string>)
      returns (ok: bool, ghost entries: seq<string>)
      requires Lists(order, streams)
      requires Distinct(traversal) && forall id :: id in pendingDelta || id in streams ==> id in traversal
      modifies this
      ensures entries == Keep(traversal, set id | id in traversal && Collected(old(View(id)), streams, id))
      ensures Distinct(entries) && forall id :: id in entries <==> Collected(old(View(id)), streams, id)
      ensures ok <==> FlushOk(entries, failAt)
      ensures forall id ::
                View(id) == TickLedger(old(View(id)), Lookup(streams, id), OutcomeOf(entries, failAt, id), month)
    {
      hide CollectLedger, FlushLedger, Keep, OutcomeOf;
      forall id ensures Collected(View(id), streams, id) ==> id in traversal {
        CollectedFrom(View(id), streams, id);
      }
      CollectDelta(streams, order);
      ghost var ids := set id | id in traversal && Collected(old(View(id)), streams, id);
      assert forall id :: View(id).pending.Some? <==> Collected(old(View(id)), streams, id);
      assert forall id :: id in pendingDelta <==> View(id).pending.Some?;
      assert pendingDelta.Keys == ids;
      ok, entries := FlushPending(month, failAt, traversal);
    }
  }

  lemma CollectedFrom(l: Ledger, streams: map<string, nat>, id: string)
    ensures Collected(l, streams, id) ==> l.pending.Some? || id in streams
  {
  }

  /** A tick that starts from ledger `l` finds bytes, or an entry, to charge for `id`. */
  ghost predicate Collected(l: Ledger, streams: map<string, nat>, id: string) {
    CollectLedger(l, Lookup(streams, id)).pending.Some?
  }

  /** The members of `ids`, in the order of `traversal`. */
  function Keep(traversal: seq<string>, ids: set<string>): seq<string> {
    if traversal == [] then []
    else
      var n := |traversal| - 1;
      Keep(traversal[..n], ids) + if traversal[n] in ids then [traversal[n]] else []
  }

  lemma {:induction false} KeepMembers(traversal: seq<string>, ids: set<string>)
    requires Distinct(traversal)
    ensures Distinct(Keep(traversal, ids)) && forall id :: id in Keep(traversal, ids) <==> id in traversal && id in ids
  {
    if traversal == [] {
    } else {
      var n := |traversal| - 1;
      KeepMembers(traversal[..n], ids);
      assert traversal == traversal[..n] + [traversal[n]];
      assert forall j :: 0 <= j < n ==> traversal[..n][j] == traversal[j] != traversal[n];
    }
  }

  lemma {:induction false} KeepNone(traversal: seq<string>)
    ensures Keep(traversal, {}) == []
  {
    if traversal == [] {
    } else {
      KeepNone(traversal[..|traversal| - 1]);
    }
  }

  /** The loop over the entries of a map. */
  method KeyList(m: map<string, nat>, traversal: seq<string>) returns (keys: seq<string>)
    ensures keys == Keep(traversal, m.Keys)
  {
    keys := [];
    for n := 0 to |traversal|
      invariant keys == Keep(traversal[..n], m.Keys)
    {
      assert traversal[..n + 1][..n] == traversal[..n];
      if traversal[n] in m {
        keys := keys + [traversal[n]];
      }
    }
    assert traversal[..|traversal|] == traversal;
  }
}
