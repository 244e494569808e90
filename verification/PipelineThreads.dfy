/**
 The frame queue under any number of threads. Every call takes the mutex, updates the fields one
 at a time and releases the mutex; a sink closure runs while the mutex is held and may panic.
 */
module PipelineThreads {
  import opened Wire
  import opened Frames
  import opened PipelineSpec
  import opened PipelineTheorems

  type Tid = nat

  // ---------- One call, field by field ----------

  /** What a call returns; also what it has computed so far. */
  datatype Reply =
    | Nothing
    | Panicked
    | SubmitReply(outcome: SubmitOutcome)
    | TakeReply(frame: Option<Frame>)
    | BeginReply(discarded: Result<nat, PipelineError>)
    | SinkReply(gate: Result<(), GenerationMismatch>)

  datatype After = More(state: State, pc: nat, reply: Reply) | Done(state: State, reply: Reply)

  function Micro(op: Op, pc: nat, reply: Reply, s: State): (a: After)
    ensures a.More? ==> pc < a.pc <= 6
  {
    match op
    case Submit(frame) => SubmitMicro(frame, pc, reply, s)
    case Take =>
      if pc == 0 then
        if s.frames == [] then Done(s, TakeReply(None))
        else More(s.(frames := s.frames[1..]), 1, TakeReply(Some(s.frames[0])))
      else Done(s.(stats := s.stats.(dequeued := SaturatingAdd(s.stats.dequeued, 1))), reply)
    case Begin(generation) => BeginMicro(generation, pc, reply, s)
    case Sink(id) =>
      if pc == 0 then
        if id.generation != s.generation then
          Done(s.(stats := s.stats.(rejectedSinkGeneration := SaturatingAdd(s.stats.rejectedSinkGeneration, 1))),
               SinkReply(Err(GenerationMismatch(s.generation, id.generation))))
        else More(s, 1, reply)
      else Done(s, SinkReply(Ok(())))
  }

  function SubmitMicro(frame: Frame, pc: nat, reply: Reply, s: State): (a: After)
    ensures a.More? ==> pc < a.pc <= 6
  {
    var st, id := s.stats, frame.id;
    match pc
    case 0 =>
      if id.generation != s.generation then
        Done(s.(stats := st.(rejectedGeneration := SaturatingAdd(st.rejectedGeneration, 1))),
             SubmitReply(RejectedGeneration(s.generation, id.generation)))
      else More(s, 1, reply)
    case 1 =>
      if Stale(s, id.sequence) then
        Done(s.(stats := st.(rejectedSequence := SaturatingAdd(st.rejectedSequence, 1))),
             SubmitReply(RejectedSequence(s.lastSequence.value, id.sequence)))
      else More(s, if |s.frames| == s.capacity then 2 else 4, SubmitReply(Queued))
    case 2 => More(s.(stats := st.(droppedCapacity := SaturatingAdd(st.droppedCapacity, 1))), 3, reply)
    case 3 =>
      if s.frames == [] then More(s, 4, reply)
      else More(s.(frames := s.frames[1..]), 4, SubmitReply(DroppedOldest(s.frames[0].id)))
    case 4 => More(s.(lastSequence := Some(id.sequence)), 5, reply)
    case 5 => More(s.(stats := st.(accepted := SaturatingAdd(st.accepted, 1))), 6, reply)
    case _ => Done(s.(frames := s.frames + [frame]), reply)
  }

  function BeginMicro(generation: u64, pc: nat, reply: Reply, s: State): (a: After)
    ensures a.More? ==> pc < a.pc <= 6
  {
    match pc
    case 0 =>
      if generation <= s.generation then Done(s, BeginReply(Err(GenerationNotIncreasing(s.generation, generation))))
      else More(s, 1, BeginReply(Ok(|s.frames|)))
    case 1 =>
      More(s.(stats := s.stats.(discardedGeneration := SaturatingAdd(s.stats.discardedGeneration, |s.frames|))), 2, reply)
    case 2 => More(s.(frames := []), 3, reply)
    case 3 => More(s.(generation := generation), 4, reply)
    case _ => Done(s.(lastSequence := None), reply)
  }

  /** State and reply once the call has run to its end without interruption. */
  function Finish(op: Op, pc: nat, reply: Reply, s: State): (end: (State, Reply))
    decreases 7 - pc
  {
    match Micro(op, pc, reply, s)
    case Done(s', reply') => (s', reply')
    case More(s', pc', reply') => Finish(op, pc', reply', s')
  }

  /** The reply of the atomic operation. */
  function ReplyOf(s: State, op: Op): (reply: Reply) {
    match op
    case Submit(frame) => SubmitReply(SubmitOutcomeOf(s, frame))
    case Take => TakeReply(TakenFrame(s))
    case Begin(generation) => BeginReply(BeginResult(s, generation))
    case Sink(id) => SinkReply(GateResult(s, id))
  }

  /** Field-by-field execution adds up to the atomic operation, reply included. */
  lemma FinishIsApply(op: Op, s: State)
    ensures Finish(op, 0, Nothing, s) == (Apply(s, op), ReplyOf(s, op))
  {
    match op
    case Submit(frame) => FinishSubmit(frame, s);
    case Take =>
    case Begin(generation) => FinishBegin(generation, s);
    case Sink(_) =>
  }

  lemma FinishSubmit(frame: Frame, s: State)
    ensures Finish(Submit(frame), 0, Nothing, s) == (Submitted(s, frame), SubmitReply(SubmitOutcomeOf(s, frame)))
  {
    var op := Submit(frame);
    assert frame.id.generation == s.generation ==> Finish(op, 0, Nothing, s) == Finish(op, 1, Nothing, s);
    if frame.id.generation == s.generation && !Stale(s, frame.id.sequence) {
      var queued := SubmitReply(Queued);
      if |s.frames| == s.capacity {
        var a := SubmitMicro(frame, 2, queued, s);
        var b := SubmitMicro(frame, 3, queued, a.state);
        assert Finish(op, 2, queued, s) == Finish(op, 3, queued, a.state) == Finish(op, 4, b.reply, b.state);
        SubmitTail(frame, b.reply, b.state);
      } else {
        SubmitTail(frame, queued, s);
      }
    }
  }

  lemma SubmitTail(frame: Frame, reply: Reply, s: State)
    ensures Finish(Submit(frame), 4, reply, s)
            == (s.(lastSequence := Some(frame.id.sequence),
                   stats := s.stats.(accepted := SaturatingAdd(s.stats.accepted, 1)),
                   frames := s.frames + [frame]),
                reply)
  {
    var s5 := SubmitMicro(frame, 4, reply, s).state;
    var s6 := SubmitMicro(frame, 5, reply, s5).state;
    assert Finish(Submit(frame), 5, reply, s5) == Finish(Submit(frame), 6, reply, s6);
  }

  lemma FinishBegin(generation: u64, s: State)
    ensures Finish(Begin(generation), 0, Nothing, s) == (AfterBegin(s, generation), BeginReply(BeginResult(s, generation)))
  {
    if generation > s.generation {
      var op, reply := Begin(generation), BeginReply(Ok(|s.frames|));
      var s2 := BeginMicro(generation, 1, reply, s).state;
      var s3 := BeginMicro(generation, 2, reply, s2).state;
      var s4 := BeginMicro(generation, 3, reply, s3).state;
      assert Finish(op, 3, reply, s3) == Finish(op, 4, reply, s4);
      assert Finish(op, 1, reply, s) == Finish(op, 2, reply, s2) == Finish(op, 3, reply, s3);
    }
  }

  // ---------- Threads ----------

  datatype Thread =
    | Waiting(op: Op)
    | Inside(op: Op, pc: nat, reply: Reply)
    | Leaving

  /**
   threads: the calls in progress; log: calls in the order in which they got the mutex; replies:
   what each of them returned; deliveries and closures: what `try_take` popped and which sink
   closures started.
   */
  datatype System = System(
    shared: State,
    lock: Option<Tid>,
    poisoned: bool,
    threads: map<Tid, Thread>,
    log: seq<Op>,
    replies: seq<Reply>,
    deliveries: seq<Delivery>,
    closures: seq<FrameId>
  )

  function Start(capacity: nat, generation: u64): (sys: System) {
    System(Initial(capacity, generation), None, false, map[], [], [], [], [])
  }

  predicate Calls(sys: System, t: Tid, op: Op, sys': System) {
    && t !in sys.threads
    && sys' == sys.(threads := sys.threads[t := Waiting(op)])
  }

  /** A poisoned mutex is entered like any other: the guard is recovered from the error. */
  predicate Acquires(sys: System, t: Tid, sys': System) {
    && t in sys.threads && sys.threads[t].Waiting? && sys.lock.None?
    && sys' == sys.(lock := Some(t),
                    threads := sys.threads[t := Inside(sys.threads[t].op, 0, Nothing)],
                    log := sys.log + [sys.threads[t].op])
  }

  function NewDeliveries(op: Op, pc: nat, s: State): (ds: seq<Delivery>) {
    if op.Take? && pc == 0 && s.frames != [] then [Delivery(s.frames[0], s.generation)] else []
  }

  function NewClosures(op: Op, pc: nat, s: State): (ids: seq<FrameId>) {
    if op.Sink? && pc == 0 && op.id.generation == s.generation then [op.id] else []
  }

  predicate Advances(sys: System, t: Tid, sys': System) {
    && t in sys.threads && sys.threads[t].Inside?
    && var Inside(op, pc, reply) := sys.threads[t];
       var after := Micro(op, pc, reply, sys.shared);
       sys' == sys.(shared := after.state,
                    threads := sys.threads[t := if after.More? then Inside(op, after.pc, after.reply) else Leaving],
                    replies := sys.replies + if after.More? then [] else [after.reply],
                    deliveries := sys.deliveries + NewDeliveries(op, pc, sys.shared),
                    closures := sys.closures + NewClosures(op, pc, sys.shared))
  }

  /** The closure panics: unwinding drops the guard, which poisons and frees the mutex. */
  predicate Panics(sys: System, t: Tid, sys': System) {
    && t in sys.threads && sys.threads[t].Inside? && sys.threads[t].op.Sink? && sys.threads[t].pc == 1
    && sys' == sys.(poisoned := true, lock := None, threads := sys.threads - {t}, replies := sys.replies + [Panicked])
  }

  predicate Releases(sys: System, t: Tid, sys': System) {
    && t in sys.threads && sys.threads[t].Leaving?
    && sys' == sys.(lock := None, threads := sys.threads - {t})
  }

  ghost predicate StepBy(sys: System, t: Tid, sys': System) {
    || (exists op :: Calls(sys, t, op, sys'))
    || Acquires(sys, t, sys')
    || Advances(sys, t, sys')
    || Panics(sys, t, sys')
    || Releases(sys, t, sys')
  }

  ghost predicate Next(sys: System, sys': System) {
    exists t: Tid :: StepBy(sys, t, sys')
  }

  ghost predicate IsRun(capacity: nat, generation: u64, run: seq<System>) {
    && |run| > 0 && run[0] == Start(capacity, generation)
    && forall i | 0 <= i < |run| - 1 :: Next(run[i], run[i + 1])
  }

  // ---------- Linearization ----------

  /** The sequential run of `ops`. */
  function Sequential(sys0: State, ops: seq<Op>): (run: Run) {
    Execute(sys0.capacity, sys0.generation, ops)
  }

  predicate Holds(sys: System, t: Tid) {
    t in sys.threads && (sys.threads[t].Inside? || sys.threads[t].Leaving?)
  }

  /** The first `n` calls of the log returned what they return sequentially, or panicked in the closure of an open gate. */
  ghost predicate Replied(init: State, log: seq<Op>, replies: seq<Reply>, n: nat) {
    && n <= |log| && |replies| == n
    && forall i | 0 <= i < n ::
         || replies[i] == ReplyOf(Sequential(init, log[..i]).state, log[i])
         || (replies[i].Panicked? && log[i].Sink? && GateResult(Sequential(init, log[..i]).state, log[i].id).Ok?)
  }

  /** Everything shared agrees with the sequential run of the log. */
  ghost predicate Settled(init: State, sys: System) {
    var run := Sequential(init, sys.log);
    && sys.shared == run.state && sys.deliveries == run.history.delivered && sys.closures == run.history.sink
    && Replied(init, sys.log, sys.replies, |sys.log|)
  }

  /** Between its check and its write a transition is still ahead of the active generation. */
  predicate BeginPhase(generation: u64, pc: nat, s: State) {
    && (1 <= pc <= 3 ==> s.generation < generation)
    && (4 <= pc ==> s.generation == generation)
  }

  /** Mid-call, the shared fields agree once the holder finishes; outputs appear with its first update. */
  ghost predicate Pending(init: State, sys: System, op: Op, pc: nat, reply: Reply) {
    && sys.log != [] && sys.log[|sys.log| - 1] == op
    && Replied(init, sys.log, sys.replies, |sys.log| - 1)
    && var before, after := Sequential(init, sys.log[..|sys.log| - 1]), Sequential(init, sys.log);
       && Finish(op, pc, reply, sys.shared) == (after.state, ReplyOf(before.state, op))
       && (op.Begin? ==> BeginPhase(op.generation, pc, sys.shared))
       && (op.Sink? && pc == 1 ==> sys.shared == after.state && op.id.generation == sys.shared.generation)
       && (if pc == 0 then
             sys.shared == before.state && sys.deliveries == before.history.delivered && sys.closures == before.history.sink
           else
             sys.deliveries == after.history.delivered && sys.closures == after.history.sink)
  }

  ghost predicate SysInv(init: State, sys: System) {
    && (forall t: Tid :: Holds(sys, t) <==> sys.lock == Some(t))
    && (match sys.lock
        case None => Settled(init, sys)
        case Some(t) =>
          match sys.threads[t]
          case Inside(op, pc, reply) => Pending(init, sys, op, pc, reply)
          case Leaving => Settled(init, sys))
  }

  /** Appending a call to the log runs it on the sequential state. */
  lemma SequentialSnoc(init: State, log: seq<Op>, op: Op)
    ensures var before := Sequential(init, log);
            Sequential(init, log + [op])
            == Run(Apply(before.state, op), Record(before.state, before.history, op))
  {
    assert (log + [op])[..|log|] == log;
  }

  lemma RepliedSnoc(init: State, log: seq<Op>, replies: seq<Reply>, op: Op)
    requires Replied(init, log, replies, |log|)
    ensures Replied(init, log + [op], replies, |log|)
  {
    hide Sequential, ReplyOf;
    assert forall i | 0 <= i < |log| :: (log + [op])[..i] == log[..i];
  }

  lemma AcquireKeeps(init: State, sys: System, t: Tid, sys': System)
    requires SysInv(init, sys) && Acquires(sys, t, sys')
    ensures SysInv(init, sys')
  {
    hide Sequential, Apply, Record, Finish, ReplyOf;
    var op := sys.threads[t].op;
    RepliedSnoc(init, sys.log, sys.replies, op);
    SequentialSnoc(init, sys.log, op);
    FinishIsApply(op, sys.shared);
    assert sys'.log[..|sys.log|] == sys.log;
    assert Pending(init, sys', op, 0, Nothing);
  }

  lemma FirstOutputs(op: Op, s: State, h: History)
    ensures Record(s, h, op).delivered == h.delivered + NewDeliveries(op, 0, s)
    ensures Record(s, h, op).sink == h.sink + NewClosures(op, 0, s)
  {
  }

  lemma AdvanceKeeps(init: State, sys: System, t: Tid, sys': System)
    requires SysInv(init, sys) && Advances(sys, t, sys')
    ensures SysInv(init, sys')
  {
    hide Sequential, Record, SubmitMicro, BeginMicro, ReplyOf;
    assert Holds(sys, t);
    var Inside(op, pc, reply) := sys.threads[t];
    var before := Sequential(init, sys.log[..|sys.log| - 1]);
    SequentialSnoc(init, sys.log[..|sys.log| - 1], op);
    assert sys.log == sys.log[..|sys.log| - 1] + [op];
    FirstOutputs(op, before.state, before.history);
    assert sys'.deliveries == Sequential(init, sys.log).history.delivered;
    assert sys'.closures == Sequential(init, sys.log).history.sink;
    SinkMicro(op, pc, reply, sys.shared);
    BeginGuard(op, pc, reply, sys.shared);
    forall t': Tid ensures Holds(sys', t') <==> sys'.lock == Some(t') {
      assert Holds(sys, t') <==> sys.lock == Some(t');
    }
  }

  /** A sink call reaches its closure only for the active generation, and changes nothing on the way. */
  lemma SinkMicro(op: Op, pc: nat, reply: Reply, s: State)
    ensures op.Sink? && Micro(op, pc, reply, s).More? ==>
              && pc == 0 && Micro(op, pc, reply, s) == More(s, 1, reply) && op.id.generation == s.generation
              && Finish(op, 1, reply, s).0 == s
  {
  }

  /** A transition writes the generation only after its check let it through. */
  lemma BeginGuard(op: Op, pc: nat, reply: Reply, s: State)
    requires op.Begin? ==> BeginPhase(op.generation, pc, s)
    ensures var a := Micro(op, pc, reply, s);
            && s.generation <= a.state.generation
            && (op.Begin? && a.More? ==> BeginPhase(op.generation, a.pc, a.state))
            && (op.Begin? && a.Done? ==> op.generation <= a.state.generation)
  {
  }

  lemma ReleaseKeeps(init: State, sys: System, t: Tid, sys': System)
    requires SysInv(init, sys) && (Releases(sys, t, sys') || Panics(sys, t, sys'))
    ensures SysInv(init, sys')
  {
    hide Sequential;
    assert Holds(sys, t);
    if Panics(sys, t, sys') {
      GateWasOpen(init, sys, sys.threads[t].op);
    }
    forall t': Tid ensures Holds(sys', t') <==> sys'.lock == Some(t') {
      assert Holds(sys, t') <==> sys.lock == Some(t');
    }
  }

  /** The gate of a running closure was open in the state that its call found. */
  lemma GateWasOpen(init: State, sys: System, op: Op)
    requires op.Sink? && sys.log != [] && sys.log[|sys.log| - 1] == op
    requires sys.shared == Sequential(init, sys.log).state && op.id.generation == sys.shared.generation
    ensures GateResult(Sequential(init, sys.log[..|sys.log| - 1]).state, op.id).Ok?
  {
    assert sys.log == sys.log[..|sys.log| - 1] + [op];
    SequentialSnoc(init, sys.log[..|sys.log| - 1], op);
  }

  lemma CallKeeps(init: State, sys: System, t: Tid, op: Op, sys': System)
    requires SysInv(init, sys) && Calls(sys, t, op, sys')
    ensures SysInv(init, sys')
  {
    hide Sequential, Finish;
    forall t': Tid ensures Holds(sys', t') <==> sys'.lock == Some(t') {
      assert Holds(sys, t') <==> sys.lock == Some(t');
    }
  }

  lemma NextKeeps(init: State, sys: System, sys': System)
    requires SysInv(init, sys) && Next(sys, sys')
    ensures SysInv(init, sys')
  {
    hide SysInv, Calls, Acquires, Advances, Panics, Releases;
    var t: Tid :| StepBy(sys, t, sys');
    if Acquires(sys, t, sys') {
      AcquireKeeps(init, sys, t, sys');
    } else if Advances(sys, t, sys') {
      AdvanceKeeps(init, sys, t, sys');
    } else if Panics(sys, t, sys') || Releases(sys, t, sys') {
      ReleaseKeeps(init, sys, t, sys');
    } else {
      var op :| Calls(sys, t, op, sys');
      CallKeeps(init, sys, t, op, sys');
    }
  }

  lemma {:induction false} RunKeeps(capacity: nat, generation: u64, run: seq<System>, i: nat)
    requires IsRun(capacity, generation, run) && i < |run|
    ensures SysInv(Initial(capacity, generation), run[i])
    decreases i
  {
    if i == 0 {
      hide Next;
    } else {
      hide SysInv, Next;
      RunKeeps(capacity, generation, run, i - 1);
      assert Next(run[i - 1], run[i - 1 + 1]);
      NextKeeps(Initial(capacity, generation), run[i - 1], run[i]);
    }
  }

  // ---------- Main results ----------

  /**
   Every interleaving is equivalent to one sequential run: whenever the mutex is free (also after
   a panic) the fields, the replies, the deliveries and the sink closures are those of the calls in
   lock order, and the sequential invariant holds.
   */
  lemma Linearizable(capacity: nat, generation: u64, run: seq<System>, i: nat)
    requires capacity >= 1 && IsRun(capacity, generation, run) && i < |run| && run[i].lock.None?
    ensures var seqRun := Execute(capacity, generation, run[i].log);
            && run[i].shared == seqRun.state
            && run[i].deliveries == seqRun.history.delivered
            && run[i].closures == seqRun.history.sink
            && Replied(Initial(capacity, generation), run[i].log, run[i].replies, |run[i].log|)
            && Inv(run[i].shared, seqRun.history)
  {
    hide Next, Execute, Inv;
    RunKeeps(capacity, generation, run, i);
    ExecuteKeeps(capacity, generation, run[i].log);
  }

  /** In every state of every interleaving, deliveries are in strict order and sink generations never fall. */
  lemma ConcurrentOutputsOrdered(capacity: nat, generation: u64, run: seq<System>, i: nat)
    requires capacity >= 1 && IsRun(capacity, generation, run) && i < |run|
    ensures forall k, l | 0 <= k < l < |run[i].deliveries| ::
              Before(run[i].deliveries[k].frame.id, run[i].deliveries[l].frame.id)
    ensures forall k | 0 <= k < |run[i].deliveries| ::
              run[i].deliveries[k].frame.id.generation == run[i].deliveries[k].active
    ensures forall k, l | 0 <= k < l < |run[i].closures| ::
              run[i].closures[k].generation <= run[i].closures[l].generation
  {
    hide Next, Execute, Finish;
    RunKeeps(capacity, generation, run, i);
    var log := run[i].log;
    DeliveriesOrdered(capacity, generation, log);
    ExecuteKeeps(capacity, generation, log);
    if log != [] {
      DeliveriesOrdered(capacity, generation, log[..|log| - 1]);
      ExecuteKeeps(capacity, generation, log[..|log| - 1]);
    }
  }

  predicate InClosure(sys: System, t: Tid) {
    t in sys.threads && sys.threads[t].Inside? && sys.threads[t].op.Sink? && sys.threads[t].pc == 1
  }

  /**
   While a sink closure runs, its generation is the active one, and no step of any other thread
   changes the shared state: no generation change can land inside a closure.
   */
  lemma ClosureExcludesTransition(capacity: nat, generation: u64, run: seq<System>, i: nat, t: Tid)
    requires IsRun(capacity, generation, run) && i < |run| && InClosure(run[i], t)
    ensures run[i].shared.generation == run[i].threads[t].op.id.generation
    ensures run[i].lock == Some(t)
    ensures i + 1 < |run| ==> run[i + 1].shared == run[i].shared
  {
    RunKeeps(capacity, generation, run, i);
    assert Holds(run[i], t);
    if i + 1 < |run| {
      OnlyHolderWrites(Initial(capacity, generation), run[i], run[i + 1], t);
    }
  }

  lemma OnlyHolderWrites(init: State, sys: System, sys': System, t: Tid)
    requires SysInv(init, sys) && Next(sys, sys') && InClosure(sys, t)
    ensures sys'.shared == sys.shared
  {
    hide Sequential, Finish;
    var t': Tid :| StepBy(sys, t', sys');
    if Advances(sys, t', sys') {
      assert Holds(sys, t') && Holds(sys, t);
    }
  }

  /** One step never lowers the generation and starts closures only for the active one. */
  lemma StepForward(init: State, sys: System, sys': System)
    requires SysInv(init, sys) && Next(sys, sys')
    ensures sys.shared.generation <= sys'.shared.generation
    ensures sys.closures <= sys'.closures
    ensures forall k | |sys.closures| <= k < |sys'.closures| :: sys'.closures[k].generation == sys.shared.generation
  {
    hide Sequential, Finish, Micro;
    var t: Tid :| StepBy(sys, t, sys');
    if Advances(sys, t, sys') {
      assert Holds(sys, t);
      BeginGuard(sys.threads[t].op, sys.threads[t].pc, sys.threads[t].reply, sys.shared);
    }
  }

  /** When `begin_generation(g)` is about to return, the active generation is at least g. */
  lemma BeginReaches(capacity: nat, generation: u64, run: seq<System>, i: nat, t: Tid)
    requires IsRun(capacity, generation, run) && i < |run| - 1 && Advances(run[i], t, run[i + 1])
    requires run[i].threads[t].op.Begin? && run[i + 1].threads[t].Leaving?
    ensures run[i + 1].shared.generation >= run[i].threads[t].op.generation
  {
    hide Sequential, Finish, Micro, Next;
    RunKeeps(capacity, generation, run, i);
    assert Holds(run[i], t);
    BeginGuard(run[i].threads[t].op, run[i].threads[t].pc, run[i].threads[t].reply, run[i].shared);
  }

  /**
   Once the active generation has reached g, which every completed `begin_generation(g)` has seen
   to, no closure for an older generation starts in any continuation.
   */
  lemma {:induction false} NoStaleClosureLater(capacity: nat, generation: u64, run: seq<System>, i: nat, j: nat)
    requires IsRun(capacity, generation, run) && i <= j < |run|
    ensures run[i].shared.generation <= run[j].shared.generation
    ensures run[i].closures <= run[j].closures
    ensures forall k | |run[i].closures| <= k < |run[j].closures| ::
              run[j].closures[k].generation >= run[i].shared.generation
    decreases j
  {
    hide SysInv, Next;
    if i < j {
      NoStaleClosureLater(capacity, generation, run, i, j - 1);
      RunKeeps(capacity, generation, run, j - 1);
      assert Next(run[j - 1], run[j - 1 + 1]);
      StepForward(Initial(capacity, generation), run[j - 1], run[j]);
    }
  }

  /** Once `begin_generation(g)` is about to return, no closure older than g runs or starts ever again. */
  lemma RetiredClosuresNeverRun(capacity: nat, generation: u64, run: seq<System>, i: nat, t: Tid, j: nat, u: Tid)
    requires IsRun(capacity, generation, run) && i < j < |run| && Advances(run[i], t, run[i + 1])
    requires run[i].threads[t].op.Begin? && run[i + 1].threads[t].Leaving?
    ensures InClosure(run[j], u) ==> run[j].threads[u].op.id.generation >= run[i].threads[t].op.generation
    ensures forall k | |run[i + 1].closures| <= k < |run[j].closures| ::
              run[j].closures[k].generation >= run[i].threads[t].op.generation
  {
    hide Next, Advances;
    BeginReaches(capacity, generation, run, i, t);
    NoStaleClosureLater(capacity, generation, run, i + 1, j);
    if InClosure(run[j], u) {
      ClosureExcludesTransition(capacity, generation, run, j, u);
    }
  }
}
