/**
 A tick of the billing worker over all cameras: the batched update of the store commits transactions of 200 entries,
 so a failing one leaves some cameras charged and their bytes pending (internal/stream/billing.go,
 pkg/storage/storage.go).
 */
module BillingFlush {
  import opened Frames
  import opened BillingSpec

  const BATCH_SIZE := 200

  /** No transaction fails: none is to, or there are not that many. */
  predicate FlushOk(order: seq<string>, failAt: Option<nat>) {
    failAt.None? || failAt.value * BATCH_SIZE >= |order|
  }

  /**
   What becomes of a camera when the entries are taken in `order` and the transaction `failAt`, counted from 0,
   fails.
   */
  function OutcomeOf(order: seq<string>, failAt: Option<nat>, id: string): Outcome {
    if FlushOk(order, failAt) then Committed
    else if id in order[..failAt.value * BATCH_SIZE] then CommittedThenFailed
    else Rejected
  }

  type Accounts = map<string, Account>

  /** The cameras with an entry in the pending map once the tick has collected. */
  function PendingIds(cams: Accounts): set<string> {
    set id | id in cams && Collect(cams[id]).pending.Some?
  }

  ghost predicate Distinct<T>(xs: seq<T>) {
    forall j, k :: 0 <= j < k < |xs| ==> xs[j] != xs[k]
  }

  /** An order in which the pending map may be traversed. */
  ghost predicate Orders(order: seq<string>, ids: set<string>) {
    Distinct(order) && forall id :: id in order <==> id in ids
  }

  function TickAll(cams: Accounts, order: seq<string>, failAt: Option<nat>, month: string): Accounts {
    map id | id in cams :: Step(cams[id], Tick(OutcomeOf(order, failAt, id), month))
  }

  /**
   More is billed and pending after the flush than was before it: some bytes are charged and will be charged again.
   */
  ghost predicate Overcharges(cams: Accounts, order: seq<string>, failAt: Option<nat>, month: string, id: string) {
    id in cams && Accounted(TickAll(cams, order, failAt, month)[id]) > Accounted(Collect(cams[id]))
  }

  /** A camera with a record in the store and bytes to charge. */
  ghost predicate Chargeable(cams: Accounts, id: string) {
    id in cams && cams[id].camera.Some? && Or0(Collect(cams[id]).pending) > 0
  }

  ghost predicate CanOvercharge(cams: Accounts, month: string) {
    exists order, failAt, id :: Orders(order, PendingIds(cams)) && Overcharges(cams, order, failAt, month, id)
  }

  // ---------------------------------------------------------------------------------------------
  // One order and one failure

  /** Exactly the chargeable cameras in the transactions before the failing one are charged twice. */
  lemma OverchargesAt(cams: Accounts, order: seq<string>, failAt: Option<nat>, month: string, id: string)
    ensures Overcharges(cams, order, failAt, month, id) <==>
              && Chargeable(cams, id) && failAt.Some? && failAt.value * BATCH_SIZE < |order|
              && id in order[..failAt.value * BATCH_SIZE]
  {
    if id in cams {
      StepAccounted(cams[id], OutcomeOf(order, failAt, id), month);
    }
    hide Step, Collect, Accounted;
  }

  /** By how much an account is wrong after a flush of `pending` bytes. */
  function Error(outcome: Outcome, recorded: bool, pending: nat): int {
    if outcome.Committed? && !recorded then -(pending as int)
    else if outcome.CommittedThenFailed? && recorded then pending
    else 0
  }

  lemma StepAccounted(a: Account, outcome: Outcome, month: string)
    ensures var c := Collect(a);
            && c.camera == a.camera
            && Accounted(Step(a, Tick(outcome, month))) == Accounted(c) + Error(outcome, a.camera.Some?, Or0(c.pending))
  {
    hide Charge, NewPending;
  }

  // ---------------------------------------------------------------------------------------------
  // Every order and every failure

  lemma {:induction false} OrderLength(order: seq<string>, ids: set<string>)
    requires Orders(order, ids)
    ensures |order| == |ids|
  {
    if order == [] {
      assert ids == {};
    } else {
      var n := |order| - 1;
      var last, init := order[n], order[..n];
      assert order == init + [last];
      assert last !in init by {
        assert forall j :: 0 <= j < n ==> init[j] == order[j] != order[n];
      }
      OrderLength(init, ids - {last});
    }
  }

  lemma {:induction false} SomeOrder(ids: set<string>) returns (order: seq<string>)
    ensures Orders(order, ids)
    decreases ids
  {
    if ids == {} {
      order := [];
    } else {
      var id :| id in ids;
      order := OrderFrom(ids, id);
    }
  }

  lemma {:induction false} OrderFrom(ids: set<string>, first: string) returns (order: seq<string>)
    requires first in ids
    ensures Orders(order, ids) && order != [] && order[0] == first
    decreases ids, 0
  {
    var rest := SomeOrder(ids - {first});
    order := [first] + rest;
    assert forall k :: 0 < k < |order| ==> order[k] == rest[k - 1] && order[k] in rest;
  }

  /**
   When a tick can charge bytes that it then keeps pending, in terms of what is known before the flush: if and only
   if more than 200 entries are pending and some camera with a record has bytes among them.
   */
  lemma OverchargesExactly(cams: Accounts, month: string)
    ensures CanOvercharge(cams, month) <==> |PendingIds(cams)| > BATCH_SIZE && exists id :: Chargeable(cams, id)
  {
    hide Overcharges, Chargeable, PendingIds, Orders;
    if CanOvercharge(cams, month) {
      var order, failAt, id :| Orders(order, PendingIds(cams)) && Overcharges(cams, order, failAt, month, id);
      OverchargesAt(cams, order, failAt, month, id);
      OrderLength(order, PendingIds(cams));
      assert failAt.value >= 1;
    }
    if |PendingIds(cams)| > BATCH_SIZE && exists id :: Chargeable(cams, id) {
      var id :| Chargeable(cams, id);
      ChargeablePends(cams, id);
      var order := OrderFrom(PendingIds(cams), id);
      OrderLength(order, PendingIds(cams));
      assert order[..BATCH_SIZE][0] == id;
      OverchargesAt(cams, order, Some(1), month, id);
    }
  }

  lemma ChargeablePends(cams: Accounts, id: string)
    requires Chargeable(cams, id)
    ensures id in PendingIds(cams)
  {
  }

  /** Every camera's account grows by exactly what the tick collected. */
  ghost predicate Exact(cams: Accounts, order: seq<string>, failAt: Option<nat>, month: string) {
    forall id :: id in cams ==> Accounted(TickAll(cams, order, failAt, month)[id]) == Accounted(Collect(cams[id]))
  }

  ghost predicate AlwaysExact(cams: Accounts, month: string) {
    forall order, failAt :: Orders(order, PendingIds(cams)) ==> Exact(cams, order, failAt, month)
  }

  ghost predicate Idle(cams: Accounts, id: string) {
    id in cams ==> Or0(Collect(cams[id]).pending) == 0
  }

  /** Every camera with bytes to charge has a record. */
  ghost predicate AllRecorded(cams: Accounts) {
    forall id :: Idle(cams, id) || Chargeable(cams, id)
  }

  /**
   When a tick is exact for every camera whatever the order and whichever transaction fails: if and only if every camera
   with bytes to charge has a record and either at most 200 entries are pending or none of them holds any bytes.
   */
  lemma AlwaysExactExactly(cams: Accounts, month: string)
    ensures AlwaysExact(cams, month) <==>
              AllRecorded(cams) && (|PendingIds(cams)| <= BATCH_SIZE || forall id :: Idle(cams, id))
  {
    hide Orders, Exact, Idle, Chargeable, PendingIds, CanOvercharge;
    OverchargesExactly(cams, month);
    if AlwaysExact(cams, month) {
      NotOvercharged(cams, month);
      var order := SomeOrder(PendingIds(cams));
      assert Exact(cams, order, None, month);
      forall id ensures Idle(cams, id) || Chargeable(cams, id) {
        CommittedExact(cams, order, month, id);
      }
      forall id ensures |PendingIds(cams)| <= BATCH_SIZE || Idle(cams, id) {
        assert Idle(cams, id) || Chargeable(cams, id);
      }
    }
    if AllRecorded(cams) && (|PendingIds(cams)| <= BATCH_SIZE || forall id :: Idle(cams, id)) {
      forall order, failAt | Orders(order, PendingIds(cams)) ensures Exact(cams, order, failAt, month) {
        RecordedExact(cams, order, failAt, month);
      }
    }
  }

  lemma NotOvercharged(cams: Accounts, month: string)
    requires AlwaysExact(cams, month)
    ensures !CanOvercharge(cams, month)
  {
    hide Accounted, Orders;
    forall order, failAt, id | Orders(order, PendingIds(cams)) ensures !Overcharges(cams, order, failAt, month, id) {
      assert Exact(cams, order, failAt, month);
    }
  }

  lemma CommittedExact(cams: Accounts, order: seq<string>, month: string, id: string)
    requires Exact(cams, order, None, month)
    ensures Idle(cams, id) || Chargeable(cams, id)
  {
    if id in cams {
      StepAccounted(cams[id], Committed, month);
      assert TickAll(cams, order, None, month)[id] == Step(cams[id], Tick(Committed, month));
    }
    hide Step, Collect, Accounted;
  }

  lemma RecordedExact(cams: Accounts, order: seq<string>, failAt: Option<nat>, month: string)
    requires AllRecorded(cams) && Orders(order, PendingIds(cams))
    requires |PendingIds(cams)| <= BATCH_SIZE || forall id :: Idle(cams, id)
    ensures Exact(cams, order, failAt, month)
  {
    OrderLength(order, PendingIds(cams));
    hide Step, Accounted, Orders, PendingIds;
    forall id | id in cams
      ensures Accounted(TickAll(cams, order, failAt, month)[id]) == Accounted(Collect(cams[id]))
    {
      assert Idle(cams, id) || Chargeable(cams, id);
      assert |order| <= BATCH_SIZE || Idle(cams, id);
      StepAccounted(cams[id], OutcomeOf(order, failAt, id), month);
    }
  }

  // ---------------------------------------------------------------------------------------------
  // The smallest such history

  function CameraName(n: nat): (id: string)
    ensures |id| == n
  {
    if n == 0 then "" else CameraName(n - 1) + "c"
  }

  /** `n` different camera names. */
  function CameraNames(n: nat): (ids: seq<string>)
    ensures |ids| == n && forall k :: 0 <= k < n ==> ids[k] == CameraName(k)
  {
    if n == 0 then [] else CameraNames(n - 1) + [CameraName(n - 1)]
  }

  /** A camera that has received 10 bytes since the worker last looked. */
  function TenBytes(camera: Camera): Account {
    Step(Step(Step(BillingSpec.EMPTY, AddCamera(camera)), StartStream), Receive(10))
  }

  function Fleet(ids: seq<string>, camera: Camera): Accounts {
    map id | id in ids :: TenBytes(camera)
  }

  lemma NamesDistinct(n: nat)
    ensures Distinct(CameraNames(n))
  {
    hide CameraNames, CameraName;
    var ids := CameraNames(n);
    forall j, k | 0 <= j < k < |ids| ensures ids[j] != ids[k] {
      assert |ids[j]| == j && |ids[k]| == k;
    }
  }

  lemma InFirst(ids: seq<string>, n: nat)
    requires Distinct(ids) && n < |ids| == 201
    ensures ids[n] in ids[..200] <==> n < 200
  {
    if n < 200 {
      assert ids[..200][n] == ids[n];
    }
  }

  lemma TwoTicks(camera: Camera, outcome: Outcome, month: string)
    requires !outcome.Committed?
    ensures var a := Step(TenBytes(camera), Tick(outcome, month));
            var b := Step(a, Tick(Committed, month));
            && Collect(TenBytes(camera)).pending.Some? && Collect(a).pending.Some?
            && Received(b) == 10 && b.billed == if outcome.CommittedThenFailed? then 20 else 10
  {
    hide Charge;
    var fed := TenBytes(camera);
    assert fed.stream == Some(10) && fed.camera.Some? && fed.billed == 0 && fed.pending.None? && fed.lastBytes.None?;
  }

  /** What two ticks, of which the first fails in its second transaction, make of the cameras `ids`. */
  function AfterFailure(ids: seq<string>, camera: Camera, month: string): Accounts {
    TickAll(Fleet(ids, camera), ids, Some(1), month)
  }

  function AfterRetry(ids: seq<string>, camera: Camera, month: string): Accounts {
    TickAll(AfterFailure(ids, camera, month), ids, None, month)
  }

  lemma FleetTicks(ids: seq<string>, camera: Camera, month: string, n: nat)
    requires Distinct(ids) && n < |ids| == 201
    ensures var end := AfterRetry(ids, camera, month);
            && ids[n] in end && Received(end[ids[n]]) == 10 && end[ids[n]].billed == (if n < 200 then 20 else 10)
            && ids[n] in PendingIds(Fleet(ids, camera)) && ids[n] in PendingIds(AfterFailure(ids, camera, month))
  {
    InFirst(ids, n);
    TwoTicks(camera, OutcomeOf(ids, Some(1), ids[n]), month);
    hide Step, Collect, TenBytes, Received;
  }

  /**
   Any 201 cameras receive 10 bytes each; the second transaction of the tick fails, and the next tick succeeds. The 200
   cameras of the first transaction are billed 20 bytes each, the last one 10.
   */
  lemma DoubleBilling(ids: seq<string>, camera: Camera, month: string)
    requires Distinct(ids) && |ids| == 201
    ensures Orders(ids, PendingIds(Fleet(ids, camera))) && Orders(ids, PendingIds(AfterFailure(ids, camera, month)))
    ensures var end := AfterRetry(ids, camera, month);
            forall n :: 0 <= n < 201 ==>
              && ids[n] in end && Received(end[ids[n]]) == 10
              && end[ids[n]].billed == if n < 200 then 20 else 10
  {
    forall n | 0 <= n < 201
      ensures var end := AfterRetry(ids, camera, month);
              && ids[n] in end && Received(end[ids[n]]) == 10 && end[ids[n]].billed == (if n < 200 then 20 else 10)
              && ids[n] in PendingIds(Fleet(ids, camera)) && ids[n] in PendingIds(AfterFailure(ids, camera, month))
    {
      FleetTicks(ids, camera, month, n);
    }
    hide Step, Collect, OutcomeOf, Received, TenBytes;
  }

  /** Such a fleet, with names of length 0 to 200: its first camera received 10 bytes and is billed 20. */
  lemma DoubleBillingExample(camera: Camera, month: string) returns (ids: seq<string>)
    ensures Distinct(ids) && |ids| == 201 && Orders(ids, PendingIds(Fleet(ids, camera)))
    ensures var end := AfterRetry(ids, camera, month);
            ids[0] in end && Received(end[ids[0]]) == 10 && end[ids[0]].billed == 20
  {
    hide CameraNames, CameraName;
    var n := 201;
    NamesDistinct(n);
    ids := CameraNames(n);
    hide Distinct, Received, AfterRetry, Fleet, PendingIds;
    DoubleBilling(ids, camera, month);
  }
}
