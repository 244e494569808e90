/** What each call of the frame queue reports, in terms of the history of the run before it. */
module PipelineReports {
  import opened Wire
  import opened Frames
  import opened PipelineSpec
  import opened PipelineTheorems

  /** The greatest generation among the initial one and all that were asked for. */
  function HighestGeneration(generation: u64, ops: seq<Op>): (g: u64)
    ensures generation <= g && forall i | 0 <= i < |ops| && ops[i].Begin? :: ops[i].generation <= g
    ensures g == generation || exists i | 0 <= i < |ops| :: ops[i].Begin? && ops[i].generation == g
  {
    if ops == [] then generation
    else
      var before := HighestGeneration(generation, ops[..|ops| - 1]);
      var last := ops[|ops| - 1];
      if last.Begin? && last.generation > before then last.generation else before
  }

  lemma {:induction false} ActiveIsHighest(capacity: nat, generation: u64, ops: seq<Op>)
    ensures Execute(capacity, generation, ops).state.generation == HighestGeneration(generation, ops)
    decreases |ops|
  {
    if ops != [] {
      ActiveIsHighest(capacity, generation, ops[..|ops| - 1]);
    }
  }

  lemma ExecuteSnoc(capacity: nat, generation: u64, ops: seq<Op>, op: Op)
    ensures var before := Execute(capacity, generation, ops);
            Execute(capacity, generation, ops + [op])
            == Run(Apply(before.state, op), Record(before.state, before.history, op))
  {
    assert (ops + [op])[..|ops|] == ops;
  }

  /** A frame is dropped: it is the oldest queued one, and it is the one reported. */
  predicate ReportsDrop(before: Run, after: Run, frame: Frame, dropped: FrameId) {
    var oldest := |before.history.fates|;
    && oldest < |before.history.accepted| && dropped == before.history.accepted[oldest].id
    && |before.state.frames| == before.state.capacity
    && after.history.accepted == before.history.accepted + [frame]
    && after.history.fates == before.history.fates + [Dropped]
    && after.state.frames == before.history.accepted[oldest + 1..] + [frame]
    && forall f | f in after.state.frames :: f.id != dropped
  }

  predicate ReportsQueued(before: Run, after: Run, frame: Frame) {
    && |before.state.frames| < before.state.capacity
    && after.history.accepted == before.history.accepted + [frame]
    && after.history.fates == before.history.fates
    && after.state.frames == before.state.frames + [frame]
  }

  /** The newest accepted frame is of the active generation and not older than the refused one. */
  predicate ReportsStale(before: Run, frame: Frame, last: u64) {
    var log := before.history.accepted;
    && log != [] && log[|log| - 1].id == FrameId(frame.id.generation, last)
    && frame.id.sequence <= last
  }

  /** What the outcome of a submission says about the run before and after it. */
  predicate SubmitReported(before: Run, after: Run, frame: Frame, active: u64, outcome: SubmitOutcome) {
    match outcome
    case Queued => ReportsQueued(before, after, frame)
    case DroppedOldest(id) => ReportsDrop(before, after, frame, id)
    case RejectedGeneration(current, received) =>
      && received == frame.id.generation != current == active
      && after.history.accepted == before.history.accepted && after.state.frames == before.state.frames
    case RejectedSequence(newest, received) =>
      && received == frame.id.sequence && frame.id.generation == active && ReportsStale(before, frame, newest)
      && after.history.accepted == before.history.accepted && after.state.frames == before.state.frames
  }

  /** Every value that a submission returns, after every run. */
  lemma SubmitReports(capacity: nat, generation: u64, ops: seq<Op>, frame: Frame)
    requires capacity >= 1
    ensures var before, after := Execute(capacity, generation, ops), Execute(capacity, generation, ops + [Submit(frame)]);
            SubmitReported(before, after, frame, HighestGeneration(generation, ops), SubmitOutcomeOf(before.state, frame))
  {
    hide Execute, Count, HighestGeneration;
    ExecuteKeeps(capacity, generation, ops);
    ActiveIsHighest(capacity, generation, ops);
    ExecuteSnoc(capacity, generation, ops, Submit(frame));
    var run := Execute(capacity, generation, ops);
    var outcome := SubmitOutcomeOf(run.state, frame);
    if outcome.DroppedOldest? {
      DropReported(run, frame);
    }
  }

  lemma DropReported(run: Run, frame: Frame)
    requires QueueIsLogTail(run.state, run.history) && LogOrdered(run.state, run.history)
    requires SubmitOutcomeOf(run.state, frame).DroppedOldest?
    ensures ReportsDrop(run, Run(Submitted(run.state, frame), Record(run.state, run.history, Submit(frame))), frame,
                        SubmitOutcomeOf(run.state, frame).dropped)
  {
    OldestGone(run.state, run.history, frame);
    hide LogOrdered, Count;
    var s, h := run.state, run.history;
    assert s.frames[0] == h.accepted[|h.fates|] && s.frames[1..] == h.accepted[|h.fates| + 1..];
  }

  lemma OldestGone(s: State, h: History, frame: Frame)
    requires QueueIsLogTail(s, h) && LogOrdered(s, h) && |h.fates| < |h.accepted|
    requires frame.id.generation == s.generation && !Stale(s, frame.id.sequence)
    ensures forall f | f in h.accepted[|h.fates| + 1..] + [frame] :: f.id != h.accepted[|h.fates|].id
  {
    AcceptedIsNewest(s, h, frame);
    var oldest := |h.fates|;
    var kept := h.accepted[oldest + 1..];
    forall f | f in kept + [frame] ensures f.id != h.accepted[oldest].id {
      if f in kept {
        var i :| 0 <= i < |kept| && kept[i] == f;
        assert Before(h.accepted[oldest].id, h.accepted[oldest + 1 + i].id);
      } else {
        assert Before(h.accepted[oldest].id, frame.id);
      }
    }
  }

  /** Taking returns the oldest accepted frame without a fate, and nothing only when all have one. */
  lemma TakeReports(capacity: nat, generation: u64, ops: seq<Op>)
    requires capacity >= 1
    ensures var before, after := Execute(capacity, generation, ops), Execute(capacity, generation, ops + [Take]);
            var oldest := |before.history.fates|;
            match TakenFrame(before.state)
            case None => oldest == |before.history.accepted| && after == before
            case Some(frame) =>
              && oldest < |before.history.accepted| && frame == before.history.accepted[oldest]
              && after.history.fates == before.history.fates + [Taken]
              && after.state.frames == before.history.accepted[oldest + 1..]
  {
    hide Execute, Count;
    ExecuteKeeps(capacity, generation, ops);
    ExecuteSnoc(capacity, generation, ops, Take);
  }

  /** A transition returns how many frames it discards: those accepted and without a fate. */
  lemma BeginReports(capacity: nat, generation: u64, ops: seq<Op>, requested: u64)
    requires capacity >= 1
    ensures var before, after := Execute(capacity, generation, ops), Execute(capacity, generation, ops + [Begin(requested)]);
            match BeginResult(before.state, requested)
            case Ok(n) =>
              && requested > HighestGeneration(generation, ops)
              && n == |before.history.accepted| - |before.history.fates|
              && |after.history.fates| == |before.history.fates| + n == |after.history.accepted|
              && (forall i | |before.history.fates| <= i < |after.history.fates| :: after.history.fates[i] == Discarded)
              && after.state.frames == [] && after.state.generation == requested
            case Err(e) =>
              && e == GenerationNotIncreasing(HighestGeneration(generation, ops), requested)
              && requested <= HighestGeneration(generation, ops) && after == before
  {
    hide Execute, Count, HighestGeneration, Discards;
    ExecuteKeeps(capacity, generation, ops);
    ActiveIsHighest(capacity, generation, ops);
    ExecuteSnoc(capacity, generation, ops, Begin(requested));
  }

  /** The gate opens exactly for the greatest generation that was ever asked for. */
  lemma GateReports(capacity: nat, generation: u64, ops: seq<Op>, id: FrameId)
    requires capacity >= 1
    ensures var before, after := Execute(capacity, generation, ops), Execute(capacity, generation, ops + [Sink(id)]);
            var active := HighestGeneration(generation, ops);
            && GateResult(before.state, id)
               == (if id.generation == active then Ok(()) else Err(GenerationMismatch(active, id.generation)))
            && after.history.sink == before.history.sink + (if id.generation == active then [id] else [])
            && after.state.frames == before.state.frames && after.state.generation == active
  {
    hide Execute, HighestGeneration;
    ActiveIsHighest(capacity, generation, ops);
    ExecuteSnoc(capacity, generation, ops, Sink(id));
  }
}
