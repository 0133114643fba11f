/**
 Traffic billing of one camera (internal/stream/billing.go, with BatchUpdateTraffic of pkg/storage/storage.go).

 A camera's stream has a byte counter that starts at zero whenever the stream object is created anew. The fields from
 `billed` on are history; they depend on the counters and on what happens, not on what the worker makes of it.
 */
module BillingSpec {
  import opened Frames

  datatype Camera = Camera(trafficUsed: nat, lastResetMonth: string, trafficLimit: nat)

  datatype Account = Account(
    stream: Option<nat>,       // the counter of the present stream object
    lastBytes: Option<nat>,
    pending: Option<nat>,
    camera: Option<Camera>,    // the record in the store
    billed: nat,               // bytes ever added to the camera's traffic
    past: nat,                 // the bytes of earlier stream objects
    base: nat,                 // the present stream's counter when a tick last read it, 0 if none has
    seen: nat,                 // the counter the last tick read, 0 if there was no stream then
    unread: nat,               // bytes a stream received after its last reading, before it was replaced or removed
    hidden: nat,               // readings that a restarted counter had already reached when it was read again
    unrecorded: nat,           // bytes flushed while the store had no such camera
    doubled: nat,              // bytes committed by a flush that then failed
    replaced: bool,            // a stream object of this camera was replaced or removed
    dropped: bool)             // a flush succeeded while the store had no such camera

  /** How a flush ends for one camera: committed, not committed, or committed in a chunk before the one that failed. */
  datatype Outcome = Committed | Rejected | CommittedThenFailed

  datatype Op =
    | Receive(n: nat)
    | StartStream
    | RemoveStream
    | AddCamera(camera: Camera)
    | DeleteCamera
    | Tick(outcome: Outcome, month: string)

  const EMPTY := Account(None, None, None, None, 0, 0, 0, 0, 0, 0, 0, 0, false, false)

  function Or0(x: Option<nat>): nat {
    if x.Some? then x.value else 0
  }

  function NewPending(current: nat, prev: nat, pending: Option<nat>): Option<nat> {
    if current > prev then Some(Or0(pending) + (current - prev))
    else if current < prev then Some(Or0(pending) + current)
    else pending
  }

  /** collectBillingDelta for one camera. */
  function Collect(a: Account): Account {
    if a.stream.None? then a.(lastBytes := None, seen := 0)
    else
      var current := a.stream.value;
      a.(lastBytes := Some(current), pending := NewPending(current, Or0(a.lastBytes), a.pending),
         base := current, seen := current, hidden := a.hidden + if a.base < a.seen <= current then a.seen else 0)
  }

  /** The update of one record inside a transaction. */
  function Charge(c: Camera, delta: nat, month: string): Camera {
    Camera((if c.lastResetMonth != month then 0 else c.trafficUsed) + delta, month,
           if c.trafficLimit == 0 then 200 * 1024 * 1024 * 1024 else c.trafficLimit)
  }

  function Apply(a: Account, month: string): Account {
    if a.pending.None? || a.camera.None? then a
    else a.(camera := Some(Charge(a.camera.value, a.pending.value, month)), billed := a.billed + a.pending.value)
  }

  function Flush(a: Account, outcome: Outcome, month: string): Account {
    match outcome
    case Committed =>
      Apply(a, month).(pending := None, dropped := a.dropped || (Or0(a.pending) > 0 && a.camera.None?),
                       unrecorded := a.unrecorded + if a.camera.None? then Or0(a.pending) else 0)
    case Rejected => a
    case CommittedThenFailed =>
      Apply(a, month).(doubled := a.doubled + if a.camera.Some? then Or0(a.pending) else 0)
  }

  /** The present stream object ends. */
  function Leave(a: Account): Account {
    a.(past := a.past + Or0(a.stream), base := 0, unread := a.unread + Unread(a),
       replaced := a.replaced || a.stream.Some?)
  }

  /** What the present stream has received since a tick last read it. */
  function Unread(a: Account): nat {
    if a.base <= Or0(a.stream) then Or0(a.stream) - a.base else 0
  }

  function Step(a: Account, op: Op): Account {
    match op
    case Receive(n) => if a.stream.Some? then a.(stream := Some(a.stream.value + n)) else a
    case StartStream => Leave(a).(stream := Some(0))
    case RemoveStream => Leave(a).(stream := None)
    case AddCamera(c) => a.(camera := Some(c))
    case DeleteCamera => a.(camera := None)
    case Tick(outcome, month) => Flush(Collect(a), outcome, month)
  }

  function Run(ops: seq<Op>): Account {
    if ops == [] then EMPTY else Step(Run(ops[..|ops| - 1]), ops[|ops| - 1])
  }

  /** The bytes all of the camera's streams have received. */
  function Received(a: Account): nat {
    a.past + Or0(a.stream)
  }

  function Accounted(a: Account): nat {
    a.billed + Or0(a.pending)
  }

  // ---------------------------------------------------------------------------------------------

  /** What is billed or pending is covered by the past and the accounted part of the present stream. */
  ghost predicate Covered(a: Account) {
    && Accounted(a) <= a.past + a.base
    && a.base <= Or0(a.stream)
    && (a.base == 0 || Some(a.base) == a.lastBytes)
  }

  /** Nothing was replaced or dropped: the account is exact, and the counter has only grown since the last tick. */
  ghost predicate Exact(a: Account) {
    !a.replaced && !a.dropped ==>
      && a.past == 0 && a.base == Or0(a.lastBytes) && Accounted(a) == a.base
      && (a.stream.None? ==> a.lastBytes.None?)
  }

  /** A committed update is never retried. */
  ghost predicate AllOrNothing(op: Op) {
    op.Tick? ==> !op.outcome.CommittedThenFailed?
  }

  lemma StepCovered(a: Account, op: Op)
    requires Covered(a) && Exact(a) && AllOrNothing(op)
    ensures Covered(Step(a, op)) && Exact(Step(a, op))
  {
    if op.Tick? {
      CollectCovered(a);
      FlushCovered(Collect(a), op.outcome, op.month);
      hide Collect, Flush, Covered, Exact;
    } else {
      hide Collect, Flush;
    }
  }

  lemma CollectCovered(a: Account)
    requires Covered(a) && Exact(a)
    ensures Covered(Collect(a)) && Exact(Collect(a))
  {
  }

  lemma FlushCovered(a: Account, outcome: Outcome, month: string)
    requires Covered(a) && Exact(a) && !outcome.CommittedThenFailed?
    ensures Covered(Flush(a, outcome, month)) && Exact(Flush(a, outcome, month))
  {
    hide Charge;
  }

  /**
   Over every run in which failed flushes are all-or-nothing, the bytes billed plus the bytes pending never exceed
   the bytes the camera's streams received; and right after a tick they are equal, unless a stream was replaced or
   removed, or a flush found no such camera in the store.
   */
  lemma {:induction false} NeverOverbilled(ops: seq<Op>)
    requires forall k :: 0 <= k < |ops| ==> AllOrNothing(ops[k])
    ensures Covered(Run(ops)) && Exact(Run(ops))
    ensures Accounted(Run(ops)) <= Received(Run(ops))
    ensures ops != [] && ops[|ops| - 1].Tick? && !Run(ops).replaced && !Run(ops).dropped ==>
              Accounted(Run(ops)) == Received(Run(ops))
  {
    hide Step, Covered, Exact, AllOrNothing, Accounted, Received;
    if ops == [] {
      EmptyCovered();
    } else {
      var init, op := ops[..|ops| - 1], ops[|ops| - 1];
      NeverOverbilled(init);
      StepCovered(Run(init), op);
      TickSettles(Run(init), op);
    }
  }

  lemma EmptyCovered()
    ensures Covered(EMPTY) && Exact(EMPTY) && Accounted(EMPTY) <= Received(EMPTY)
  {
  }

  lemma TickSettles(a: Account, op: Op)
    requires Covered(a) && Exact(a) && AllOrNothing(op)
    ensures Accounted(Step(a, op)) <= Received(Step(a, op))
    ensures op.Tick? && !Step(a, op).replaced && !Step(a, op).dropped ==>
              Accounted(Step(a, op)) == Received(Step(a, op))
  {
    StepCovered(a, op);
    hide Charge;
  }

  // ---------------------------------------------------------------------------------------------
  // The exact balance

  /** Every received byte is accounted for or in exactly one of the four ways to miss it; some are accounted twice. */
  ghost predicate Balanced(a: Account) {
    && Received(a) + a.doubled == Accounted(a) + Unread(a) + a.unread + a.hidden + a.unrecorded
    && a.base <= Or0(a.stream)
    && a.seen == Or0(a.lastBytes) && (a.base == 0 || a.base == a.seen)
  }

  lemma Settled(a: Account)
    requires Balanced(a) && Unread(a) == 0
    ensures Received(a) + a.doubled == Accounted(a) + a.unread + a.hidden + a.unrecorded
  {
  }

  lemma CollectBalanced(a: Account)
    requires Balanced(a)
    ensures Balanced(Collect(a)) && Unread(Collect(a)) == 0
  {
  }

  lemma StepBalanced(a: Account, op: Op)
    requires Balanced(a)
    ensures Balanced(Step(a, op))
    ensures op.Tick? ==> Unread(Step(a, op)) == 0
  {
    hide Balanced, Collect, Flush, Leave;
    match op
    case Receive(n) => ReceiveBalanced(a, n);
    case StartStream => LeaveBalanced(a);
    case RemoveStream => LeaveBalanced(a);
    case AddCamera(c) => RecordBalanced(a, Some(c));
    case DeleteCamera => RecordBalanced(a, None);
    case Tick(outcome, month) =>
      CollectBalanced(a);
      FlushBalanced(Collect(a), outcome, month);
  }

  lemma ReceiveBalanced(a: Account, n: nat)
    requires Balanced(a)
    ensures Balanced(Step(a, Receive(n)))
  {
    hide Collect, Flush;
  }

  lemma LeaveBalanced(a: Account)
    requires Balanced(a)
    ensures Balanced(Leave(a).(stream := Some(0))) && Balanced(Leave(a).(stream := None))
  {
  }

  lemma RecordBalanced(a: Account, camera: Option<Camera>)
    requires Balanced(a)
    ensures Balanced(a.(camera := camera))
  {
  }

  lemma FlushBalanced(a: Account, outcome: Outcome, month: string)
    requires Balanced(a)
    ensures Balanced(Flush(a, outcome, month)) && Unread(Flush(a, outcome, month)) == Unread(a)
  {
    hide Charge;
  }

  lemma BlankBalanced(a: Account)
    requires a.stream.None? && a.lastBytes.None? && a.pending.None? && a.billed == a.past == a.base == a.seen == 0
    requires a.unread == a.hidden == a.unrecorded == a.doubled == 0
    ensures Balanced(a)
  {
  }

  /**
   The balance over every run, whatever fails and however often streams are replaced: right after a tick the bytes
   received are those billed and pending, plus what replaced or removed streams received after their last reading,
   plus the readings that hid a restart because the new counter had already reached them, plus what was flushed
   without a record, less what was committed by flushes that then failed.
   */
  lemma {:induction false} EveryRunBalanced(ops: seq<Op>)
    ensures var a := Run(ops);
            && Balanced(a)
            && (ops != [] && ops[|ops| - 1].Tick? ==>
                  Received(a) + a.doubled == Accounted(a) + a.unread + a.hidden + a.unrecorded)
  {
    hide Step, Accounted, Received, Balanced;
    if ops == [] {
      BlankBalanced(Run(ops));
    } else {
      EveryRunBalanced(ops[..|ops| - 1]);
      StepBalanced(Run(ops[..|ops| - 1]), ops[|ops| - 1]);
      if ops[|ops| - 1].Tick? {
        Settled(Run(ops));
      }
    }
  }

  /** The record follows the bill: its counter grows by what is billed, from zero in the first update of a new month. */
  lemma TrafficFollowsBilling(a: Account, outcome: Outcome, month: string)
    requires a.camera.Some?
    ensures var b := Step(a, Tick(outcome, month));
            && b.camera.Some? && a.billed <= b.billed
            && (b.camera != a.camera ==>
                  && b.camera.value.lastResetMonth == month
                  && b.camera.value.trafficLimit
                     == (if a.camera.value.trafficLimit == 0 then 214_748_364_800 else a.camera.value.trafficLimit)
                  && b.camera.value.trafficUsed
                     == b.billed - a.billed
                        + if a.camera.value.lastResetMonth == month then a.camera.value.trafficUsed else 0)
            && (b.camera == a.camera ==> b.billed == a.billed || a.camera.value.lastResetMonth != month)
  {
  }

  /**
   A camera billed in a committed chunk of a failing flush is billed again by the retry, for every account: what was
   pending is charged twice.
   */
  lemma RetryBillsTwice(a: Account, month: string, month': string)
    requires a.camera.Some? && a.stream.Some?
    ensures var c := Collect(a);
            Step(Step(a, Tick(CommittedThenFailed, month)), Tick(Committed, month')).billed
            == a.billed + 2 * Or0(c.pending)
  {
    hide Charge;
  }

  // ---------------------------------------------------------------------------------------------
  // What the worker and the store keep of an account

  datatype Ledger = Ledger(lastBytes: Option<nat>, pending: Option<nat>, camera: Option<Camera>)

  function LedgerOf(a: Account): Ledger {
    Ledger(a.lastBytes, a.pending, a.camera)
  }

  function CollectLedger(l: Ledger, stream: Option<nat>): Ledger {
    if stream.None? then l.(lastBytes := None)
    else l.(lastBytes := Some(stream.value), pending := NewPending(stream.value, Or0(l.lastBytes), l.pending))
  }

  function ApplyLedger(l: Ledger, month: string): Ledger {
    if l.pending.None? || l.camera.None? then l else l.(camera := Some(Charge(l.camera.value, l.pending.value, month)))
  }

  function FlushLedger(l: Ledger, outcome: Outcome, month: string): Ledger {
    match outcome
    case Committed => ApplyLedger(l, month).(pending := None)
    case Rejected => l
    case CommittedThenFailed => ApplyLedger(l, month)
  }

  function TickLedger(l: Ledger, stream: Option<nat>, outcome: Outcome, month: string): Ledger {
    FlushLedger(CollectLedger(l, stream), outcome, month)
  }

  /** A worker that updates ledgers this way makes exactly the ticks of the account model. */
  lemma TickLedgerIsStep(a: Account, outcome: Outcome, month: string)
    ensures LedgerOf(Step(a, Tick(outcome, month))) == TickLedger(LedgerOf(a), a.stream, outcome, month)
  {
    hide Charge;
  }
}
