/** What holds over every run of the frame queue, whatever the operations and their order. */
module PipelineTheorems {
  import opened Wire
  import opened Frames
  import opened PipelineSpec

  /** Nothing is delivered twice, out of order, or after its generation was retired. */
  lemma DeliveriesOrdered(capacity: nat, generation: u64, ops: seq<Op>)
    requires capacity >= 1
    ensures var delivered := Execute(capacity, generation, ops).history.delivered;
            && (forall k | 0 <= k < |delivered| :: delivered[k].frame.id.generation == delivered[k].active)
            && (forall k, l | 0 <= k < l < |delivered| :: Before(delivered[k].frame.id, delivered[l].frame.id))
  {
    hide Execute;
    ExecuteKeeps(capacity, generation, ops);
    var h := Execute(capacity, generation, ops).history;
    forall k, l | 0 <= k < l < |h.delivered| ensures Before(h.delivered[k].frame.id, h.delivered[l].frame.id) {
      assert h.taken[k] < h.taken[l];
    }
  }

  /** The accepted frames of the active generation, in order. */
  function CurrentLog(s: State, accepted: seq<Frame>): (log: seq<Frame>) {
    if accepted == [] then []
    else
      var last := accepted[|accepted| - 1];
      CurrentLog(s, accepted[..|accepted| - 1]) + if last.id.generation == s.generation then [last] else []
  }

  lemma {:induction false} CurrentLogIsTail(s: State, accepted: seq<Frame>, epoch: nat)
    requires epoch <= |accepted|
    requires forall i | 0 <= i < |accepted| :: accepted[i].id.generation == s.generation <==> epoch <= i
    ensures CurrentLog(s, accepted) == accepted[epoch..]
    decreases |accepted|
  {
    if accepted != [] {
      var init := accepted[..|accepted| - 1];
      if epoch == |accepted| {
        CurrentLogIsTail(s, init, |init|);
      } else {
        CurrentLogIsTail(s, init, epoch);
        assert accepted[epoch..] == init[epoch..] + [accepted[|accepted| - 1]];
      }
    }
  }

  /** The bounded queue refines an unbounded log of the active generation. */
  lemma QueueRefinesLog(capacity: nat, generation: u64, ops: seq<Op>)
    requires capacity >= 1
    ensures var run := Execute(capacity, generation, ops);
            var s := run.state;
            var log := CurrentLog(s, run.history.accepted);
            && |s.frames| <= capacity && |s.frames| <= |log|
            && s.frames == log[|log| - |s.frames|..]
            && s.lastSequence == (if log == [] then None else Some(log[|log| - 1].id.sequence))
  {
    hide Execute, CurrentLog;
    ExecuteKeeps(capacity, generation, ops);
    var run := Execute(capacity, generation, ops);
    CurrentLogIsTail(run.state, run.history.accepted, run.history.epoch);
  }

  /** Every drop for capacity is justified by `capacity` newer frames of the same generation. */
  lemma DropsAreOldest(capacity: nat, generation: u64, ops: seq<Op>, i: nat, j: nat)
    requires capacity >= 1
    requires var h := Execute(capacity, generation, ops).history; i < |h.fates| && h.fates[i] == Dropped
    requires i < j <= i + capacity
    ensures var h := Execute(capacity, generation, ops).history;
            && j < |h.accepted|
            && h.accepted[j].id.generation == h.accepted[i].id.generation
            && h.accepted[j].id.sequence > h.accepted[i].id.sequence
  {
    hide Execute;
    ExecuteKeeps(capacity, generation, ops);
    var h := Execute(capacity, generation, ops).history;
    assert Before(h.accepted[i].id, h.accepted[j].id);
  }

  /** A submission enters the queue exactly when it is newer than everything accepted so far. */
  lemma AcceptsExactlyNewer(capacity: nat, generation: u64, ops: seq<Op>, frame: Frame)
    requires capacity >= 1
    ensures var run := Execute(capacity, generation, ops);
            var outcome := SubmitOutcomeOf(run.state, frame);
            outcome.Queued? || outcome.DroppedOldest?
            <==> && frame.id.generation == run.state.generation
                 && forall i | 0 <= i < |run.history.accepted| :: Before(run.history.accepted[i].id, frame.id)
  {
    hide Execute;
    ExecuteKeeps(capacity, generation, ops);
    var run := Execute(capacity, generation, ops);
    if frame.id.generation == run.state.generation {
      if Stale(run.state, frame.id.sequence) {
        assert !Before(run.history.accepted[|run.history.accepted| - 1].id, frame.id);
      } else {
        AcceptedIsNewest(run.state, run.history, frame);
      }
    }
  }

  lemma {:induction false} CountsCover(fates: seq<Fate>)
    ensures Count(fates, Taken) + Count(fates, Dropped) + Count(fates, Discarded) == |fates|
    decreases |fates|
  {
    if fates != [] {
      CountsCover(fates[..|fates| - 1]);
    }
  }

  /** Statistics are true counts cut off at 2^64 - 1, and no frame is lost or counted twice. */
  lemma CountersConserve(capacity: nat, generation: u64, ops: seq<Op>)
    requires capacity >= 1
    ensures var run := Execute(capacity, generation, ops);
            && StatsCount(run.state, run.history)
            && |run.history.accepted|
               == |run.history.delivered| + Count(run.history.fates, Dropped)
                  + Count(run.history.fates, Discarded) + |run.state.frames|
    ensures var run := Execute(capacity, generation, ops);
            var st := run.state.stats;
            st.accepted < U64_MAX ==>
              st.accepted == st.dequeued + st.droppedCapacity + st.discardedGeneration + |run.state.frames|
  {
    hide Execute, Count;
    ExecuteKeeps(capacity, generation, ops);
    CountsCover(Execute(capacity, generation, ops).history.fates);
  }

  // ---------- Suffixes of a run ----------

  /** Work logged after a point of a run belongs to the generation active then or to a later one. */
  lemma {:induction false} LaterWorkIsCurrent(capacity: nat, generation: u64, ops: seq<Op>, m: nat)
    requires m <= |ops|
    ensures var earlier, now := Execute(capacity, generation, ops[..m]), Execute(capacity, generation, ops);
            && earlier.state.generation <= now.state.generation
            && |earlier.history.delivered| <= |now.history.delivered|
            && |earlier.history.sink| <= |now.history.sink|
            && now.history.delivered[..|earlier.history.delivered|] == earlier.history.delivered
            && now.history.sink[..|earlier.history.sink|] == earlier.history.sink
            && (forall k | |earlier.history.delivered| <= k < |now.history.delivered| ::
                  now.history.delivered[k].active >= earlier.state.generation)
            && (forall k | |earlier.history.sink| <= k < |now.history.sink| ::
                  now.history.sink[k].generation >= earlier.state.generation)
    decreases |ops|
  {
    if m == |ops| {
      assert ops[..m] == ops;
    } else {
      var init := ops[..|ops| - 1];
      assert init[..m] == ops[..m];
      LaterWorkIsCurrent(capacity, generation, init, m);
      WorkStep(Execute(capacity, generation, init), ops[|ops| - 1]);
    }
  }

  /** One operation logs at most one delivery or sink id, of the generation active at that time. */
  lemma WorkStep(run: Run, op: Op)
    ensures var s', h' := Apply(run.state, op), Record(run.state, run.history, op);
            && run.state.generation <= s'.generation
            && run.history.delivered <= h'.delivered && run.history.sink <= h'.sink
            && (forall k | |run.history.delivered| <= k < |h'.delivered| :: h'.delivered[k].active == run.state.generation)
            && (forall k | |run.history.sink| <= k < |h'.sink| :: h'.sink[k].generation == run.state.generation)
  {
  }

  /** Once a generation has begun, nothing older is delivered and no older sink closure runs. */
  lemma RetiredStaysRetired(capacity: nat, generation: u64, ops: seq<Op>, m: nat, k: nat)
    requires capacity >= 1 && m < |ops| && ops[m].Begin?
    requires BeginResult(Execute(capacity, generation, ops[..m]).state, ops[m].generation).Ok?
    ensures var earlier, now := Execute(capacity, generation, ops[..m + 1]).history, Execute(capacity, generation, ops).history;
            && (|earlier.delivered| <= k < |now.delivered| ==> now.delivered[k].frame.id.generation >= ops[m].generation)
            && (|earlier.sink| <= k < |now.sink| ==> now.sink[k].generation >= ops[m].generation)
  {
    LaterWorkIsCurrent(capacity, generation, ops, m + 1);
    DeliveriesOrdered(capacity, generation, ops);
    assert ops[..m + 1][..m] == ops[..m];
    hide Apply;
    var before, after := Execute(capacity, generation, ops[..m]).state, Execute(capacity, generation, ops[..m + 1]).state;
    assert after == Apply(before, ops[m]);
    BeginAdvances(before, ops[m].generation);
  }

  lemma BeginAdvances(s: State, generation: u64)
    requires BeginResult(s, generation).Ok?
    ensures Apply(s, Begin(generation)).generation == generation
    ensures Apply(s, Begin(generation)).frames == []
  {
  }
}
