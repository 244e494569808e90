/** `FramePipeline`: the bounded drop-oldest queue between capture and encoder. */
module FramePipelines {
  import opened Wire
  import opened Frames
  import opened PipelineSpec

  /** A sink submission: code that reads and changes a state of its own and returns a value. */
  class Submission<W, T> {
    const effect: W -> (W, T)
    var world: W

    constructor (effect: W -> (W, T), world: W)
      ensures this.effect == effect && this.world == world
    {
      this.effect := effect;
      this.world := world;
    }

    method Run() returns (r: T)
      modifies this
      ensures (world, r) == effect(old(world))
    {
      var after := effect(world);
      world, r := after.0, after.1;
    }
  }

  class FramePipeline {
    var generation: u64
    const capacity: nat
    var lastSequence: Option<u64>
    var frames: seq<Frame>
    var stats: Stats

    /** What happened so far; every method keeps it in step with the state. */
    ghost var history: History

    ghost function View(): (s: State)
      reads this
    {
      State(generation, capacity, lastSequence, frames, stats)
    }

    ghost predicate Valid()
      reads this
    {
      Inv(View(), history)
    }

    constructor (capacity: nat, initialGeneration: u64)
      requires capacity > 0
      ensures Valid() && View() == Initial(capacity, initialGeneration) && history == NO_HISTORY
    {
      this.generation := initialGeneration;
      this.capacity := capacity;
      this.lastSequence := None;
      this.frames := [];
      this.stats := NO_STATS;
      this.history := NO_HISTORY;
      new;
      InitialInv(capacity, initialGeneration);
    }

    static method New(capacity: nat, initialGeneration: u64) returns (r: Result<FramePipeline, PipelineError>)
      ensures r.Err? <==> capacity == 0
      ensures r.Err? ==> r.error == ZeroCapacity
      ensures r.Ok? ==> fresh(r.value) && r.value.Valid()
                        && r.value.View() == Initial(capacity, initialGeneration) && r.value.history == NO_HISTORY
    {
      if capacity == 0 {
        return Err(ZeroCapacity);
      }
      var pipeline := new FramePipeline(capacity, initialGeneration);
      return Ok(pipeline);
    }

    method Submit(frame: Frame) returns (outcome: SubmitOutcome)
      requires Valid()
      modifies this
      ensures Valid()
      ensures View() == Submitted(old(View()), frame)
      ensures outcome == SubmitOutcomeOf(old(View()), frame)
      ensures history == Record(old(View()), old(history), Op.Submit(frame))
    {
      ghost var before := View();
      StepKeeps(before, history, Op.Submit(frame));
      hide Inv, Record;
      history := Record(before, history, Op.Submit(frame));
      var id := frame.id;
      if id.generation != generation {
        stats := stats.(rejectedGeneration := SaturatingAdd(stats.rejectedGeneration, 1));
        return RejectedGeneration(generation, id.generation);
      }
      if lastSequence.Some? && id.sequence <= lastSequence.value {
        stats := stats.(rejectedSequence := SaturatingAdd(stats.rejectedSequence, 1));
        return RejectedSequence(lastSequence.value, id.sequence);
      }
      var dropped: Option<FrameId> := None;
      if |frames| == capacity {
        stats := stats.(droppedCapacity := SaturatingAdd(stats.droppedCapacity, 1));
        if frames != [] {
          dropped := Some(frames[0].id);
          frames := frames[1..];
        }
      }
      lastSequence := Some(id.sequence);
      stats := stats.(accepted := SaturatingAdd(stats.accepted, 1));
      frames := frames + [frame];
      return if dropped.None? then Queued else DroppedOldest(dropped.value);
    }

    method TryTake() returns (taken: Option<Frame>)
      requires Valid()
      modifies this
      ensures Valid()
      ensures View() == AfterTake(old(View())) && taken == TakenFrame(old(View()))
      ensures history == Record(old(View()), old(history), Take)
    {
      StepKeeps(View(), history, Take);
      hide Inv;
      history := Record(View(), history, Take);
      if frames == [] {
        return None;
      }
      taken := Some(frames[0]);
      frames := frames[1..];
      stats := stats.(dequeued := SaturatingAdd(stats.dequeued, 1));
    }

    /** The closure `submit` runs exactly once, with all its effect, or not at all. */
    method WithCurrentGeneration<W, T>(id: FrameId, submit: Submission<W, T>) returns (r: Result<T, GenerationMismatch>)
      requires Valid()
      modifies this, submit
      ensures Valid()
      ensures View() == AfterGate(old(View()), id)
      ensures id.generation == old(generation) ==> r.Ok? && (submit.world, r.value) == submit.effect(old(submit.world))
      ensures id.generation != old(generation) ==>
                r == Err(GenerationMismatch(old(generation), id.generation)) && submit.world == old(submit.world)
      ensures history == Record(old(View()), old(history), Sink(id))
    {
      StepKeeps(View(), history, Sink(id));
      hide Inv;
      history := Record(View(), history, Sink(id));
      if id.generation != generation {
        stats := stats.(rejectedSinkGeneration := SaturatingAdd(stats.rejectedSinkGeneration, 1));
        return Err(GenerationMismatch(generation, id.generation));
      }
      var result := submit.Run();
      return Ok(result);
    }

    method BeginGeneration(newGeneration: u64) returns (r: Result<nat, PipelineError>)
      requires Valid()
      modifies this
      ensures Valid()
      ensures View() == AfterBegin(old(View()), newGeneration) && r == BeginResult(old(View()), newGeneration)
      ensures history == Record(old(View()), old(history), Begin(newGeneration))
    {
      StepKeeps(View(), history, Begin(newGeneration));
      hide Inv;
      history := Record(View(), history, Begin(newGeneration));
      if newGeneration <= generation {
        return Err(GenerationNotIncreasing(generation, newGeneration));
      }
      var discarded := |frames|;
      stats := stats.(discardedGeneration := SaturatingAdd(stats.discardedGeneration, discarded));
      frames := [];
      generation := newGeneration;
      lastSequence := None;
      return Ok(discarded);
    }
  }
}
