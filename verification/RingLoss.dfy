/**
 What a reader of the ring loses and when it resumes, over every run, in terms of the calls alone: which frames were
 written while it was registered, and whether its channel had room (internal/buffer/ring.go).
 */
module RingLoss {
  import opened Frames
  import opened RingSpec

  // ---------------------------------------------------------------------------------------------
  // The calls of a run

  /** Call `n` writes a frame while reader `i` is registered. */
  ghost predicate WrittenTo(cap: nat, ops: seq<Op>, n: nat, i: nat) {
    && n < |ops| && ops[n].Write?
    && var s := Run(cap, ops[..n]);
       !s.closed && i < |s.readers| && s.readers[i].active
  }

  ghost predicate HasRoom(cap: nat, ops: seq<Op>, n: nat, i: nat)
    requires WrittenTo(cap, ops, n, i)
  {
    |Run(cap, ops[..n]).readers[i].queue| < cap
  }

  /** Call `n` writes a frame to a full channel, and nothing has been delivered to the reader since. */
  ghost predicate Missed(cap: nat, ops: seq<Op>, n: nat, i: nat)
    requires i < |Run(cap, ops).readers|
  {
    && WrittenTo(cap, ops, n, i) && !HasRoom(cap, ops, n, i)
    && |Run(cap, ops[..n]).readers[i].sent| == |Run(cap, ops).readers[i].sent|
  }

  /** The reader joined after the first write and has not been given a frame yet. */
  ghost predicate LateStart(s: Ring, i: nat)
    requires i < |s.readers|
  {
    s.readers[i].sent == [] && s.readers[i].since > 0
  }

  /** The reader waits for a keyframe: it was written to while full since its last frame, or it joined late. */
  ghost predicate Waits(cap: nat, ops: seq<Op>, i: nat)
    requires i < |Run(cap, ops).readers|
  {
    LateStart(Run(cap, ops), i) || exists n :: Missed(cap, ops, n, i)
  }

  /** How often a frame that the reader was due was lost to a full channel. */
  ghost function Losses(cap: nat, ops: seq<Op>, i: nat): nat {
    if ops == [] then 0
    else
      var n := |ops| - 1;
      Losses(cap, ops[..n], i)
      + if WrittenTo(cap, ops, n, i) && !HasRoom(cap, ops, n, i)
           && (ops[n].f.isKeyFrame || !Waits(cap, ops[..n], i)) then 1 else 0
  }

  // ---------------------------------------------------------------------------------------------
  // One call

  /** What a write does to a registered reader, in terms of the flag that says whether it waits. */
  lemma StepWrites(cap: nat, s: Ring, f: Frame, i: nat)
    requires !s.closed && i < |s.readers| && s.readers[i].active
    ensures var r, r' := s.readers[i], Step(cap, s, Write(f)).readers[i];
            var due := f.isKeyFrame || !r.needsIFrame;
            && r'.active && r'.since == r.since && r'.received == r.received
            && (if due && |r.queue| < cap then r'.queue == r.queue + [f] && r'.sent == r.sent + [|s.log|]
                else r'.queue == r.queue && r'.sent == r.sent)
            && (r'.needsIFrame <==> (if |r.queue| < cap then !due else true))
            && r'.drops == r.drops + if due && |r.queue| >= cap then 1 else 0
  {
    hide NewDrops;
  }

  /** Calls other than a write to this reader leave its stream, its flag and its drops alone. */
  lemma StepKeeps(cap: nat, s: Ring, op: Op, i: nat)
    requires i < |s.readers| && !(op.Write? && !s.closed && s.readers[i].active)
    ensures var r, r' := s.readers[i], Step(cap, s, op).readers[i];
            r'.sent == r.sent && r'.needsIFrame == r.needsIFrame && r'.drops == r.drops && r'.since == r.since
            && (r'.active ==> r.active)
  {
    hide NewDrops, NewReader;
  }

  lemma StepAdds(cap: nat, s: Ring, op: Op)
    ensures var t := Step(cap, s, op);
            && |s.readers| <= |t.readers| <= |s.readers| + 1 && (|t.readers| > |s.readers| ==> op.Subscribe?)
            && |s.log| <= |t.log| <= |s.log| + 1 && s.log == t.log[..|s.log|]
            && (op.Write? && !s.closed ==> t.log == s.log + [op.f])
  {
    hide NewDrops, NewReader;
  }

  /** A step only appends to what has been sent, and only the position written. */
  lemma StepSends(cap: nat, s: Ring, op: Op, i: nat)
    requires i < |s.readers|
    ensures var t := Step(cap, s, op);
            var old', new' := s.readers[i].sent, t.readers[i].sent;
            i < |t.readers| && (new' == old' || (new' == old' + [|s.log|] && |t.log| == |s.log| + 1))
  {
    hide NewDrops, NewReader;
    StepAdds(cap, s, op);
    if op.Write? && !s.closed && s.readers[i].active {
      StepWrites(cap, s, op.f, i);
    } else {
      StepKeeps(cap, s, op, i);
    }
  }

  lemma RunStep(cap: nat, ops: seq<Op>)
    requires ops != []
    ensures Run(cap, ops) == Step(cap, Run(cap, ops[..|ops| - 1]), ops[|ops| - 1])
  {
  }

  /** From any point of a run on, a reader stays, and only later positions are added to what it was sent. */
  lemma {:induction false} SentGrows(cap: nat, ops: seq<Op>, n: nat, i: nat)
    requires n <= |ops| && i < |Run(cap, ops[..n]).readers|
    ensures var s, t := Run(cap, ops[..n]), Run(cap, ops);
            && i < |t.readers| && |s.log| <= |t.log|
            && |s.readers[i].sent| <= |t.readers[i].sent|
            && t.readers[i].sent[..|s.readers[i].sent|] == s.readers[i].sent
            && forall k :: |s.readers[i].sent| <= k < |t.readers[i].sent| ==> t.readers[i].sent[k] >= |s.log|
  {
    hide Run;
    if n == |ops| {
      assert ops[..n] == ops;
    } else {
      var init := ops[..|ops| - 1];
      assert init[..n] == ops[..n];
      SentGrows(cap, init, n, i);
      RunStep(cap, ops);
      hide Step;
      StepAdds(cap, Run(cap, init), ops[|ops| - 1]);
      StepSends(cap, Run(cap, init), ops[|ops| - 1], i);
    }
  }

  // ---------------------------------------------------------------------------------------------
  // When a reader waits

  lemma PrefixRun(cap: nat, ops: seq<Op>, n: nat)
    requires ops != [] && n < |ops|
    ensures ops[..|ops| - 1][..n] == ops[..n]
  {
  }

  /** Before its first call a reader missed nothing. */
  lemma NewcomerMissesNothing(cap: nat, ops: seq<Op>, n: nat, i: nat)
    requires ops != [] && i < |Run(cap, ops).readers| && i >= |Run(cap, ops[..|ops| - 1]).readers|
    ensures !Missed(cap, ops, n, i)
  {
    if WrittenTo(cap, ops, n, i) {
      var init := ops[..|ops| - 1];
      PrefixRun(cap, ops, n);
      SentGrows(cap, init, n, i);
      assert false;
    }
  }

  /** A call that delivers nothing: what was missed before is still missed, and nothing else but this call. */
  lemma MissedKept(cap: nat, ops: seq<Op>, n: nat, i: nat)
    requires ops != [] && i < |Run(cap, ops[..|ops| - 1]).readers| && i < |Run(cap, ops).readers|
    requires Run(cap, ops).readers[i].sent == Run(cap, ops[..|ops| - 1]).readers[i].sent
    ensures n < |ops| - 1 ==> (Missed(cap, ops, n, i) <==> Missed(cap, ops[..|ops| - 1], n, i))
    ensures n == |ops| - 1 ==> (Missed(cap, ops, n, i) <==> WrittenTo(cap, ops, n, i) && !HasRoom(cap, ops, n, i))
  {
    hide Run;
    if n < |ops| - 1 {
      PrefixRun(cap, ops, n);
    }
  }

  /** A call that delivers: nothing is missed any more. */
  lemma DeliveryEndsWait(cap: nat, ops: seq<Op>, n: nat, i: nat)
    requires ops != [] && i < |Run(cap, ops[..|ops| - 1]).readers| && i < |Run(cap, ops).readers|
    requires |Run(cap, ops).readers[i].sent| > |Run(cap, ops[..|ops| - 1]).readers[i].sent|
    ensures !Missed(cap, ops, n, i)
  {
    hide Run;
    if WrittenTo(cap, ops, n, i) {
      var init := ops[..|ops| - 1];
      PrefixRun(cap, ops, n);
      assert init[..|init|] == init;
      SentGrows(cap, init, n, i);
    }
  }

  /** How one call changes whether a reader waits. */
  lemma WaitsStep(cap: nat, ops: seq<Op>, i: nat)
    requires ops != [] && i < |Run(cap, ops[..|ops| - 1]).readers| && i < |Run(cap, ops).readers|
    ensures var n := |ops| - 1;
            var a, b := Run(cap, ops[..n]).readers[i], Run(cap, ops).readers[i];
            && (|b.sent| > |a.sent| ==> !Waits(cap, ops, i))
            && (b.sent == a.sent && b.since == a.since ==>
                  (Waits(cap, ops, i) <==>
                     Waits(cap, ops[..n], i) || (WrittenTo(cap, ops, n, i) && !HasRoom(cap, ops, n, i))))
  {
    hide Run, Missed;
    var n := |ops| - 1;
    var a, b := Run(cap, ops[..n]).readers[i], Run(cap, ops).readers[i];
    if |b.sent| > |a.sent| {
      forall k ensures !Missed(cap, ops, k, i) {
        DeliveryEndsWait(cap, ops, k, i);
      }
    } else if b.sent == a.sent && b.since == a.since {
      forall k: nat
        ensures k < n ==> (Missed(cap, ops, k, i) <==> Missed(cap, ops[..n], k, i))
        ensures k == n ==> (Missed(cap, ops, k, i) <==> WrittenTo(cap, ops, k, i) && !HasRoom(cap, ops, k, i))
      {
        MissedKept(cap, ops, k, i);
      }
      MissedEarlier(cap, ops, i);
      MissedEarlier(cap, ops[..n], i);
    }
  }

  lemma MissedEarlier(cap: nat, ops: seq<Op>, i: nat)
    requires i < |Run(cap, ops).readers|
    ensures forall k: nat :: Missed(cap, ops, k, i) ==> k < |ops|
  {
    hide Run;
  }

  /**
   The flag means what it should, in every run: a registered reader waits for a keyframe if and only if it was written
   to while its channel was full since the last frame it was given, or it joined late and has been given none.
   */
  lemma {:induction false} WaitsExactly(cap: nat, ops: seq<Op>, i: nat)
    requires cap > 0 && i < |Run(cap, ops).readers| && Run(cap, ops).readers[i].active
    ensures Run(cap, ops).readers[i].needsIFrame <==> Waits(cap, ops, i)
  {
    if ops == [] {
    } else {
      var n := |ops| - 1;
      var init, op := ops[..n], ops[n];
      var s := Run(cap, init);
      RunStep(cap, ops);
      hide Run, Step, Waits;
      if i < |s.readers| {
        WaitsStep(cap, ops, i);
        if op.Write? && !s.closed && s.readers[i].active {
          WaitsExactly(cap, init, i);
          StepWrites(cap, s, op.f, i);
          assert WrittenTo(cap, ops, n, i);
        } else {
          StepKeeps(cap, s, op, i);
          WaitsExactly(cap, init, i);
          assert !WrittenTo(cap, ops, n, i);
        }
      } else {
        NewcomerWaits(cap, ops, i);
      }
    }
  }

  lemma NewcomerWaits(cap: nat, ops: seq<Op>, i: nat)
    requires ops != [] && i < |Run(cap, ops).readers| && i >= |Run(cap, ops[..|ops| - 1]).readers|
    requires Run(cap, ops).readers[i].active
    ensures Run(cap, ops).readers[i].needsIFrame <==> Waits(cap, ops, i)
  {
    var s := Run(cap, ops[..|ops| - 1]);
    RunStep(cap, ops);
    StepAdds(cap, s, ops[|ops| - 1]);
    hide Run, Missed, LatestKey;
    forall k ensures !Missed(cap, ops, k, i) {
      NewcomerMissesNothing(cap, ops, k, i);
    }
    assert Run(cap, ops).readers[i] == NewReader(cap, s);
  }

  // ---------------------------------------------------------------------------------------------
  // What is delivered

  /**
   Exactly what reaches a reader, for every write of every run while it is registered: a keyframe if and only if its
   channel has room at that moment, any other frame if and only if there is room and the reader does not wait. So a
   reader that has lost frames resumes at the first keyframe it has room for, and every keyframe it did not get was
   written while its channel was full.
   */
  lemma DeliveredExactly(cap: nat, ops: seq<Op>, n: nat, i: nat)
    requires cap > 0 && WrittenTo(cap, ops, n, i)
    ensures i < |Run(cap, ops).readers|
    ensures |Run(cap, ops[..n]).log| in Run(cap, ops).readers[i].sent <==>
              HasRoom(cap, ops, n, i) && (ops[n].f.isKeyFrame || !Waits(cap, ops[..n], i))
  {
    var s, t := Run(cap, ops[..n]), Run(cap, ops[..n + 1]);
    assert ops[..n + 1][..n] == ops[..n];
    RunStep(cap, ops[..n + 1]);
    EveryRunDecodable(cap, ops[..n]);
    assert Decodable(cap, s.log, s.readers[i]);
    assert forall k :: 0 <= k < |s.readers[i].sent| ==> s.readers[i].sent[k] < |s.log|;
    hide Run, Step, Waits, Decodable, Inv;
    StepWrites(cap, s, ops[n].f, i);
    StepAdds(cap, s, ops[n]);
    WaitsExactly(cap, ops[..n], i);
    SentGrows(cap, ops, n + 1, i);
    SentLater(Run(cap, ops).readers[i].sent, t.readers[i].sent, |t.log|, |s.log|);
  }

  /** A position below `bound` is in a list that grew by positions from `bound` on exactly when it was in it before. */
  lemma SentLater(later: seq<nat>, earlier: seq<nat>, bound: nat, p: nat)
    requires |earlier| <= |later| && later[..|earlier|] == earlier && p < bound
    requires forall k :: |earlier| <= k < |later| ==> later[k] >= bound
    ensures p in later <==> p in earlier
  {
    assert later == earlier + later[|earlier|..];
  }

  /**
   The drop counter is exact: it counts the frames due to the reader that found its channel full, and nothing else.
   */
  lemma {:induction false} DropsExactly(cap: nat, ops: seq<Op>, i: nat)
    requires cap > 0 && i < |Run(cap, ops).readers|
    ensures Run(cap, ops).readers[i].drops == Losses(cap, ops, i)
  {
    if ops == [] {
    } else {
      var n := |ops| - 1;
      var init, op := ops[..n], ops[n];
      var s := Run(cap, init);
      RunStep(cap, ops);
      StepAdds(cap, s, op);
      hide Run, Waits;
      if i < |s.readers| {
        hide Step;
        DropsExactly(cap, init, i);
        if op.Write? && !s.closed && s.readers[i].active {
          WaitsExactly(cap, init, i);
          StepWrites(cap, s, op.f, i);
          assert WrittenTo(cap, ops, n, i);
        } else {
          StepKeeps(cap, s, op, i);
          assert !WrittenTo(cap, ops, n, i);
        }
      } else {
        NewReaderCounts(cap, s);
        hide NewReader;
        NoLossesYet(cap, init, i);
        assert !WrittenTo(cap, ops, n, i);
      }
    }
  }

  lemma {:induction false} NoLossesYet(cap: nat, ops: seq<Op>, i: nat)
    requires i >= |Run(cap, ops).readers|
    ensures Losses(cap, ops, i) == 0
  {
    if ops == [] {
    } else {
      RunStep(cap, ops);
      StepAdds(cap, Run(cap, ops[..|ops| - 1]), ops[|ops| - 1]);
      hide Run;
      NoLossesYet(cap, ops[..|ops| - 1], i);
    }
  }

  // ---------------------------------------------------------------------------------------------
  // Registration, receiving and the end

  /** Call `n` unregisters reader `i` while the ring is open. */
  ghost predicate Leaves(cap: nat, ops: seq<Op>, n: nat, i: nat) {
    n < |ops| && ops[n] == CloseReader(i) && i < |Run(cap, ops[..n]).readers| && !Run(cap, ops[..n]).closed
  }

  ghost predicate Left(cap: nat, ops: seq<Op>, i: nat) {
    exists n :: Leaves(cap, ops, n, i)
  }

  lemma LeftStep(cap: nat, ops: seq<Op>, i: nat)
    requires ops != []
    ensures Left(cap, ops, i) <==> Left(cap, ops[..|ops| - 1], i) || Leaves(cap, ops, |ops| - 1, i)
  {
    hide Run;
    var init := ops[..|ops| - 1];
    forall n: nat | n < |ops| - 1 ensures Leaves(cap, ops, n, i) <==> Leaves(cap, init, n, i) {
      PrefixRun(cap, ops, n);
    }
    if Left(cap, init, i) {
      var n :| Leaves(cap, init, n, i);
      assert Leaves(cap, ops, n, i);
    }
    if Left(cap, ops, i) {
      var n :| Leaves(cap, ops, n, i);
      assert n == |ops| - 1 || Leaves(cap, init, n, i);
    }
  }

  lemma {:induction false} NotLeftYet(cap: nat, ops: seq<Op>, i: nat)
    requires i >= |Run(cap, ops).readers|
    ensures !Left(cap, ops, i)
  {
    if ops == [] {
    } else {
      RunStep(cap, ops);
      StepAdds(cap, Run(cap, ops[..|ops| - 1]), ops[|ops| - 1]);
      hide Run, Left;
      NotLeftYet(cap, ops[..|ops| - 1], i);
      LeftStep(cap, ops, i);
    }
  }

  lemma StepRegisters(cap: nat, s: Ring, op: Op, i: nat)
    requires i < |Step(cap, s, op).readers|
    ensures var t := Step(cap, s, op); var r' := t.readers[i];
            && (t.closed <==> s.closed || op.Close?)
            && (if i < |s.readers| then
                  var r := s.readers[i];
                  && (r'.active <==> r.active && op != CloseReader(i) && (s.closed || !op.Close?))
                  && (r'.chanClosed <==> r.chanClosed || (op.Close? && !s.closed && r.active))
                else r'.active == !s.closed && r'.chanClosed == s.closed)
  {
    hide NewDrops, LatestKey;
  }

  /**
   Who is registered and whose channel is closed, in every run: a reader is registered as long as neither it nor the
   ring is closed; and once the ring is closed, exactly the channels of the readers that had not closed themselves
   before are closed, so that they read the end of the stream after what is buffered.
   */
  lemma {:induction false} RegisteredExactly(cap: nat, ops: seq<Op>, i: nat)
    requires i < |Run(cap, ops).readers|
    ensures var s := Run(cap, ops); var r := s.readers[i];
            && (r.active <==> !s.closed && !Left(cap, ops, i))
            && (r.chanClosed <==> s.closed && !Left(cap, ops, i))
  {
    if ops == [] {
    } else {
      var init, op := ops[..|ops| - 1], ops[|ops| - 1];
      RunStep(cap, ops);
      hide Run, Step, Left;
      StepRegisters(cap, Run(cap, init), op, i);
      LeftStep(cap, ops, i);
      if i < |Run(cap, init).readers| {
        RegisteredExactly(cap, init, i);
      } else {
        NotLeftYet(cap, init, i);
      }
    }
  }

  /** The frames written before the ring was closed. */
  function Writes(ops: seq<Op>): seq<Frame> {
    if ops == [] then []
    else
      var init, op := ops[..|ops| - 1], ops[|ops| - 1];
      Writes(init) + if op.Write? && Close !in init then [op.f] else []
  }

  /** The log is what was written before the first Close, and the ring is closed exactly after that. */
  lemma {:induction false} LogIsWrites(cap: nat, ops: seq<Op>)
    ensures Run(cap, ops).log == Writes(ops) && (Run(cap, ops).closed <==> Close in ops)
  {
    if ops == [] {
    } else {
      var init, op := ops[..|ops| - 1], ops[|ops| - 1];
      LogIsWrites(cap, init);
      assert ops == init + [op];
      hide NewDrops, NewReader, DeliverAll;
    }
  }

  /** A receive moves the oldest buffered frame to the consumer, once, and concerns no other reader. */
  lemma ReceiveTakes(cap: nat, ops: seq<Op>, i: nat)
    requires i < |Run(cap, ops).readers|
    ensures var s, t := Run(cap, ops), Run(cap, ops + [Receive(i)]);
            var r := s.readers[i];
            && |t.readers| == |s.readers| && t.log == s.log && t.closed == s.closed
            && (forall j :: 0 <= j < |s.readers| && j != i ==> t.readers[j] == s.readers[j])
            && t.readers[i].received == (if r.queue == [] then r.received else r.received + [r.queue[0]])
            && t.readers[i].received + t.readers[i].queue == r.received + r.queue
  {
    assert (ops + [Receive(i)])[..|ops|] == ops;
    RunStep(cap, ops + [Receive(i)]);
    hide Run, Take;
    TakesOldest(Run(cap, ops).readers[i]);
  }

  lemma TakesOldest(r: ReaderState)
    ensures Take(r).received == if r.queue == [] then r.received else r.received + [r.queue[0]]
    ensures Take(r).received + Take(r).queue == r.received + r.queue
  {
    if r.queue != [] {
      assert r.queue == [r.queue[0]] + r.queue[1..];
    }
  }
}
