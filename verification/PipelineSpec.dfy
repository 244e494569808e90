/** The frame queue as values: its state, what each operation does, and the history it leaves. */
module PipelineSpec {
  import opened Wire
  import opened Frames

  datatype Stats = Stats(
    accepted: u64,
    dequeued: u64,
    droppedCapacity: u64,
    discardedGeneration: u64,
    rejectedGeneration: u64,
    rejectedSequence: u64,
    rejectedSinkGeneration: u64
  )

  datatype State = State(
    generation: u64,
    capacity: nat,
    lastSequence: Option<u64>,
    frames: seq<Frame>,
    stats: Stats
  )

  datatype SubmitOutcome =
    | Queued
    | DroppedOldest(dropped: FrameId)
    | RejectedGeneration(active: u64, received: u64)
    | RejectedSequence(last: u64, received: u64)

  datatype PipelineError =
    | ZeroCapacity
    | GenerationNotIncreasing(active: u64, requested: u64)

  datatype GenerationMismatch = GenerationMismatch(active: u64, received: u64)

  function SaturatingAdd(a: u64, n: nat): (r: u64) {
    if a + n > U64_MAX then U64_MAX else a + n
  }

  const NO_STATS := Stats(0, 0, 0, 0, 0, 0, 0)

  function Initial(capacity: nat, generation: u64): (s: State) {
    State(generation, capacity, None, [], NO_STATS)
  }

  // ---------- Operations ----------

  predicate Stale(s: State, sequence: u64) {
    s.lastSequence.Some? && sequence <= s.lastSequence.value
  }

  function SubmitOutcomeOf(s: State, frame: Frame): (o: SubmitOutcome) {
    if frame.id.generation != s.generation then RejectedGeneration(s.generation, frame.id.generation)
    else if Stale(s, frame.id.sequence) then RejectedSequence(s.lastSequence.value, frame.id.sequence)
    else if |s.frames| == s.capacity && s.frames != [] then DroppedOldest(s.frames[0].id)
    else Queued
  }

  function Submitted(s: State, frame: Frame): (s': State) {
    var st := s.stats;
    if frame.id.generation != s.generation then
      s.(stats := st.(rejectedGeneration := SaturatingAdd(st.rejectedGeneration, 1)))
    else if Stale(s, frame.id.sequence) then
      s.(stats := st.(rejectedSequence := SaturatingAdd(st.rejectedSequence, 1)))
    else
      var full := |s.frames| == s.capacity;
      var st1 := if full then st.(droppedCapacity := SaturatingAdd(st.droppedCapacity, 1)) else st;
      var kept := if full && s.frames != [] then s.frames[1..] else s.frames;
      s.(lastSequence := Some(frame.id.sequence),
         stats := st1.(accepted := SaturatingAdd(st1.accepted, 1)),
         frames := kept + [frame])
  }

  function TakenFrame(s: State): (f: Option<Frame>) {
    if s.frames == [] then None else Some(s.frames[0])
  }

  function AfterTake(s: State): (s': State) {
    if s.frames == [] then s
    else s.(frames := s.frames[1..], stats := s.stats.(dequeued := SaturatingAdd(s.stats.dequeued, 1)))
  }

  function BeginResult(s: State, generation: u64): (r: Result<nat, PipelineError>) {
    if generation <= s.generation then Err(GenerationNotIncreasing(s.generation, generation))
    else Ok(|s.frames|)
  }

  function AfterBegin(s: State, generation: u64): (s': State) {
    if generation <= s.generation then s
    else
      s.(stats := s.stats.(discardedGeneration := SaturatingAdd(s.stats.discardedGeneration, |s.frames|)),
         frames := [], generation := generation, lastSequence := None)
  }

  function GateResult(s: State, id: FrameId): (r: Result<(), GenerationMismatch>) {
    if id.generation != s.generation then Err(GenerationMismatch(s.generation, id.generation)) else Ok(())
  }

  /** A sink submission changes the state only when the gate rejects it. */
  function AfterGate(s: State, id: FrameId): (s': State) {
    if id.generation != s.generation then
      s.(stats := s.stats.(rejectedSinkGeneration := SaturatingAdd(s.stats.rejectedSinkGeneration, 1)))
    else s
  }

  datatype Op =
    | Submit(frame: Frame)
    | Take
    | Begin(generation: u64)
    | Sink(id: FrameId)

  function Apply(s: State, op: Op): (s': State) {
    match op
    case Submit(frame) => Submitted(s, frame)
    case Take => AfterTake(s)
    case Begin(generation) => AfterBegin(s, generation)
    case Sink(id) => AfterGate(s, id)
  }

  // ---------- History ----------

  /** How an accepted frame left the queue. Frames leave in the order of their acceptance. */
  datatype Fate = Taken | Dropped | Discarded

  datatype Delivery = Delivery(frame: Frame, active: u64)

  /**
   accepted: every frame that entered the queue, in order; fates: how the first |fates| of them
   left it; epoch: how many were accepted before the active generation began; taken: the indices
   delivered by `try_take`; delivered: what it returned, with the generation active at that time;
   sink: the ids whose sink closure ran; the rest counts rejections.
   */
  datatype History = History(
    accepted: seq<Frame>,
    fates: seq<Fate>,
    epoch: nat,
    taken: seq<nat>,
    delivered: seq<Delivery>,
    sink: seq<FrameId>,
    rejectedGeneration: nat,
    rejectedSequence: nat,
    rejectedSink: nat
  )

  const NO_HISTORY := History([], [], 0, [], [], [], 0, 0, 0)

  function Discards(n: nat): (fates: seq<Fate>)
    ensures |fates| == n && forall i | 0 <= i < n :: fates[i] == Discarded
  {
    seq(n, _ => Discarded)
  }

  function Record(s: State, h: History, op: Op): (h': History) {
    match op
    case Submit(frame) =>
      (match SubmitOutcomeOf(s, frame)
       case RejectedGeneration(_, _) => h.(rejectedGeneration := h.rejectedGeneration + 1)
       case RejectedSequence(_, _) => h.(rejectedSequence := h.rejectedSequence + 1)
       case DroppedOldest(_) => h.(accepted := h.accepted + [frame], fates := h.fates + [Dropped])
       case Queued => h.(accepted := h.accepted + [frame]))
    case Take =>
      (match TakenFrame(s)
       case None => h
       case Some(frame) =>
         h.(fates := h.fates + [Taken], taken := h.taken + [|h.fates|],
            delivered := h.delivered + [Delivery(frame, s.generation)]))
    case Begin(generation) =>
      if BeginResult(s, generation).Err? then h
      else h.(fates := h.fates + Discards(|s.frames|), epoch := |h.accepted|)
    case Sink(id) =>
      if GateResult(s, id).Err? then h.(rejectedSink := h.rejectedSink + 1)
      else h.(sink := h.sink + [id])
  }

  // ---------- Runs ----------

  datatype Run = Run(state: State, history: History)

  function Execute(capacity: nat, generation: u64, ops: seq<Op>): (run: Run) {
    if ops == [] then Run(Initial(capacity, generation), NO_HISTORY)
    else
      var before := Execute(capacity, generation, ops[..|ops| - 1]);
      var op := ops[|ops| - 1];
      Run(Apply(before.state, op), Record(before.state, before.history, op))
  }

  // ---------- Invariant ----------

  predicate Before(a: FrameId, b: FrameId) {
    a.generation < b.generation || (a.generation == b.generation && a.sequence < b.sequence)
  }

  function Count(fates: seq<Fate>, f: Fate): (n: nat)
    ensures n <= |fates|
  {
    if fates == [] then 0
    else Count(fates[..|fates| - 1], f) + if fates[|fates| - 1] == f then 1 else 0
  }

  function Saturated(n: nat): (r: u64) {
    if n <= U64_MAX then n else U64_MAX
  }

  /** The queue is the tail of the accepted log that has no fate yet. */
  ghost predicate QueueIsLogTail(s: State, h: History) {
    && 1 <= s.capacity
    && |h.fates| <= |h.accepted|
    && s.frames == h.accepted[|h.fates|..]
    && |s.frames| <= s.capacity
    && h.epoch <= |h.fates|
  }

  ghost predicate LogOrdered(s: State, h: History) {
    && (forall i, j | 0 <= i < j < |h.accepted| :: Before(h.accepted[i].id, h.accepted[j].id))
    && (forall i | 0 <= i < h.epoch && i < |h.accepted| :: h.accepted[i].id.generation < s.generation)
    && (forall i | h.epoch <= i < |h.accepted| :: h.accepted[i].id.generation == s.generation)
    && s.lastSequence == if |h.accepted| <= h.epoch then None else Some(h.accepted[|h.accepted| - 1].id.sequence)
  }

  /** A frame dropped for capacity has at least `capacity` newer accepted frames of its generation. */
  ghost predicate DropsJustified(s: State, h: History) {
    forall i | 0 <= i < |h.fates| && h.fates[i] == Dropped ::
      && i + s.capacity < |h.accepted|
      && forall j | i <= j <= i + s.capacity :: h.accepted[j].id.generation == h.accepted[i].id.generation
  }

  ghost predicate DeliveriesMatch(s: State, h: History) {
    && |h.taken| == |h.delivered| == Count(h.fates, Taken)
    && (forall k | 0 <= k < |h.taken| ::
          && h.taken[k] < |h.fates| <= |h.accepted|
          && h.fates[h.taken[k]] == Taken
          && h.delivered[k] == Delivery(h.accepted[h.taken[k]], h.accepted[h.taken[k]].id.generation))
    && (forall k, l | 0 <= k < l < |h.taken| :: h.taken[k] < h.taken[l])
  }

  ghost predicate SinkOrdered(s: State, h: History) {
    && (forall i | 0 <= i < |h.sink| :: h.sink[i].generation <= s.generation)
    && (forall i, j | 0 <= i < j < |h.sink| :: h.sink[i].generation <= h.sink[j].generation)
  }

  ghost predicate StatsCount(s: State, h: History) {
    && s.stats.accepted == Saturated(|h.accepted|)
    && s.stats.dequeued == Saturated(Count(h.fates, Taken))
    && s.stats.droppedCapacity == Saturated(Count(h.fates, Dropped))
    && s.stats.discardedGeneration == Saturated(Count(h.fates, Discarded))
    && s.stats.rejectedGeneration == Saturated(h.rejectedGeneration)
    && s.stats.rejectedSequence == Saturated(h.rejectedSequence)
    && s.stats.rejectedSinkGeneration == Saturated(h.rejectedSink)
  }

  ghost predicate Inv(s: State, h: History) {
    && QueueIsLogTail(s, h)
    && LogOrdered(s, h)
    && DropsJustified(s, h)
    && DeliveriesMatch(s, h)
    && SinkOrdered(s, h)
    && StatsCount(s, h)
  }

  // ---------- Preservation ----------

  lemma CountSnoc(fates: seq<Fate>, f: Fate, g: Fate)
    ensures Count(fates + [g], f) == Count(fates, f) + if g == f then 1 else 0
  {
    assert (fates + [g])[..|fates|] == fates;
  }

  lemma {:induction false} CountDiscards(fates: seq<Fate>, f: Fate, n: nat)
    ensures Count(fates + Discards(n), f) == Count(fates, f) + if f == Discarded then n else 0
    decreases n
  {
    hide Count, Discards;
    if n == 0 {
      assert fates + Discards(n) == fates;
    } else {
      CountDiscards(fates, f, n - 1);
      CountSnoc(fates + Discards(n - 1), f, Discarded);
      assert fates + Discards(n) == fates + Discards(n - 1) + [Discarded];
    }
  }

  lemma QueueStep(s: State, h: History, op: Op)
    requires QueueIsLogTail(s, h)
    ensures QueueIsLogTail(Apply(s, op), Record(s, h, op))
  {
  }

  lemma AcceptedIsNewest(s: State, h: History, frame: Frame)
    requires QueueIsLogTail(s, h) && LogOrdered(s, h)
    requires frame.id.generation == s.generation && !Stale(s, frame.id.sequence)
    ensures forall i | 0 <= i < |h.accepted| :: Before(h.accepted[i].id, frame.id)
  {
    var n := |h.accepted|;
    forall i | 0 <= i < n ensures Before(h.accepted[i].id, frame.id) {
      if h.epoch <= i < n - 1 {
        assert Before(h.accepted[i].id, h.accepted[n - 1].id);
      }
    }
  }

  lemma OrderStep(s: State, h: History, op: Op)
    requires QueueIsLogTail(s, h) && LogOrdered(s, h)
    ensures LogOrdered(Apply(s, op), Record(s, h, op))
  {
    if op.Submit? {
      SubmitOrder(s, h, op.frame);
    }
  }

  lemma SubmitOrder(s: State, h: History, frame: Frame)
    requires QueueIsLogTail(s, h) && LogOrdered(s, h)
    ensures LogOrdered(Submitted(s, frame), Record(s, h, Submit(frame)))
  {
    if frame.id.generation == s.generation && !Stale(s, frame.id.sequence) {
      AcceptedIsNewest(s, h, frame);
      hide Before;
      var h' := Record(s, h, Submit(frame));
      assert h'.accepted == h.accepted + [frame];
      assert h'.epoch == h.epoch;
    }
  }

  lemma DropsStep(s: State, h: History, op: Op)
    requires QueueIsLogTail(s, h) && LogOrdered(s, h) && DropsJustified(s, h)
    ensures DropsJustified(Apply(s, op), Record(s, h, op))
  {
    hide Before;
    if op.Submit? {
      SubmitDrops(s, h, op.frame);
    }
  }

  lemma SubmitDrops(s: State, h: History, frame: Frame)
    requires QueueIsLogTail(s, h) && LogOrdered(s, h) && DropsJustified(s, h)
    ensures DropsJustified(Submitted(s, frame), Record(s, h, Submit(frame)))
  {
    hide Before;
  }

  lemma DeliveriesStep(s: State, h: History, op: Op)
    requires QueueIsLogTail(s, h) && LogOrdered(s, h) && DeliveriesMatch(s, h)
    ensures DeliveriesMatch(Apply(s, op), Record(s, h, op))
  {
    match op
    case Submit(frame) => SubmitDeliveries(s, h, frame);
    case Take => TakeDeliveries(s, h);
    case Begin(generation) => BeginDeliveries(s, h, generation);
    case Sink(_) =>
  }

  lemma SubmitDeliveries(s: State, h: History, frame: Frame)
    requires QueueIsLogTail(s, h) && DeliveriesMatch(s, h)
    ensures DeliveriesMatch(Submitted(s, frame), Record(s, h, Submit(frame)))
  {
    hide Count;
    CountSnoc(h.fates, Taken, Dropped);
  }

  lemma BeginDeliveries(s: State, h: History, generation: u64)
    requires QueueIsLogTail(s, h) && DeliveriesMatch(s, h)
    ensures DeliveriesMatch(AfterBegin(s, generation), Record(s, h, Begin(generation)))
  {
    hide Count, Discards;
    CountDiscards(h.fates, Taken, |s.frames|);
  }

  lemma TakeDeliveries(s: State, h: History)
    requires QueueIsLogTail(s, h) && LogOrdered(s, h) && DeliveriesMatch(s, h)
    ensures DeliveriesMatch(AfterTake(s), Record(s, h, Take))
  {
    hide Count, Before;
    CountSnoc(h.fates, Taken, Taken);
  }

  lemma SinkStep(s: State, h: History, op: Op)
    requires SinkOrdered(s, h)
    ensures SinkOrdered(Apply(s, op), Record(s, h, op))
  {
  }

  lemma StatsStep(s: State, h: History, op: Op)
    requires QueueIsLogTail(s, h) && StatsCount(s, h)
    ensures StatsCount(Apply(s, op), Record(s, h, op))
  {
    match op
    case Submit(frame) => SubmitStats(s, h, frame);
    case Take => TakeStats(s, h);
    case Begin(generation) => BeginStats(s, h, generation);
    case Sink(_) =>
  }

  lemma SaturatedSum(n: nat, k: nat)
    ensures SaturatingAdd(Saturated(n), k) == Saturated(n + k)
  {
  }

  lemma SubmitStats(s: State, h: History, frame: Frame)
    requires s.capacity >= 1 && StatsCount(s, h)
    ensures StatsCount(Submitted(s, frame), Record(s, h, Submit(frame)))
  {
    hide Count, Saturated, SaturatingAdd;
    SaturatedSum(h.rejectedGeneration, 1);
    SaturatedSum(h.rejectedSequence, 1);
    SaturatedSum(|h.accepted|, 1);
    SaturatedSum(Count(h.fates, Dropped), 1);
    CountSnocAll(h.fates, Dropped);
  }

  lemma TakeStats(s: State, h: History)
    requires StatsCount(s, h)
    ensures StatsCount(AfterTake(s), Record(s, h, Take))
  {
    hide Count;
    CountSnocAll(h.fates, Taken);
  }

  lemma BeginStats(s: State, h: History, generation: u64)
    requires StatsCount(s, h)
    ensures StatsCount(AfterBegin(s, generation), Record(s, h, Begin(generation)))
  {
    hide Count, Discards;
    CountDiscards(h.fates, Taken, |s.frames|);
    CountDiscards(h.fates, Dropped, |s.frames|);
    CountDiscards(h.fates, Discarded, |s.frames|);
  }

  lemma CountSnocAll(fates: seq<Fate>, g: Fate)
    ensures forall f :: Count(fates + [g], f) == Count(fates, f) + if g == f then 1 else 0
  {
    forall f ensures Count(fates + [g], f) == Count(fates, f) + if g == f then 1 else 0 {
      CountSnoc(fates, f, g);
    }
  }

  /** Every operation keeps the invariant. */
  lemma StepKeeps(s: State, h: History, op: Op)
    requires Inv(s, h)
    ensures Inv(Apply(s, op), Record(s, h, op))
  {
    hide Record, Apply;
    QueueStep(s, h, op);
    OrderStep(s, h, op);
    DropsStep(s, h, op);
    DeliveriesStep(s, h, op);
    SinkStep(s, h, op);
    StatsStep(s, h, op);
  }

  lemma {:induction false} ExecuteKeeps(capacity: nat, generation: u64, ops: seq<Op>)
    requires capacity >= 1
    ensures var run := Execute(capacity, generation, ops); Inv(run.state, run.history)
    ensures Execute(capacity, generation, ops).state.capacity == capacity
    decreases |ops|
  {
    hide Inv;
    if ops == [] {
      InitialInv(capacity, generation);
    } else {
      ExecuteKeeps(capacity, generation, ops[..|ops| - 1]);
      var before := Execute(capacity, generation, ops[..|ops| - 1]);
      StepKeeps(before.state, before.history, ops[|ops| - 1]);
    }
  }

  lemma InitialInv(capacity: nat, generation: u64)
    requires capacity >= 1
    ensures Inv(Initial(capacity, generation), NO_HISTORY)
  {
  }
}
