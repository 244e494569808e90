/** `simulate_pattern`: a full offline run of test patterns through the pipeline. */
module OfflineRun {
  import opened Wire
  import opened Frames
  import opened TestPattern
  import opened PipelineSpec
  import opened FramePipelines

  const MAX_PATTERN_WORK_BYTES: nat := 512 * 1024 * 1024

  datatype PatternOptions = PatternOptions(width: u32, height: u32, frames: u64, queueCapacity: nat)

  /**
   What the environment decides: which buffer allocations succeed, whether the encoder starts, and
   which frames it can encode. An encoded frame keeps the id of its source frame.
   */
  datatype Environment = Environment(allocates: u64 -> bool, encoderStarts: bool, encodes: FrameId -> bool)

  datatype RunError =
    | InvalidLayout(layoutError: FrameError)
    | WorkOverflow
    | WorkTooLarge(bytes: nat)
    | InvalidPipeline(pipelineError: PipelineError)
    | CannotGenerate(sequence: u64, frameError: FrameError)
    | CannotStartEncoder
    | CannotEncode(id: FrameId)

  datatype Report = Report(delivered: seq<FrameId>, generation: u64, capacity: nat, queued: nat, stats: Stats)

  /** Ids `first`, ..., `first + n - 1` of generation 1. */
  function Ids(first: nat, n: nat): (ids: seq<FrameId>)
    requires first + n <= U64_MAX + 1
    ensures |ids| == n && forall k | 0 <= k < n :: ids[k] == FrameId(1, first + k)
  {
    seq(n, k requires 0 <= k < n => FrameId(1, first + k))
  }

  /** After `submitted` frames and `taken` takes, the queue holds the newest frames in order. */
  ghost predicate Progress(s: State, capacity: nat, submitted: u64, taken: u64) {
    var kept := Min(submitted, capacity);
    && s.capacity == capacity && s.generation == 1
    && s.lastSequence == (if submitted == 0 then None else Some(submitted - 1))
    && taken <= kept && |s.frames| == kept - taken
    && (forall k | 0 <= k < |s.frames| :: s.frames[k].id == FrameId(1, submitted - |s.frames| + k))
    && s.stats == Stats(submitted, taken, submitted - kept, 0, 0, 0, 0)
  }

  lemma ProgressStep(s: State, capacity: nat, submitted: u64, frame: Frame)
    requires capacity > 0 && submitted < U64_MAX && Progress(s, capacity, submitted, 0)
    requires frame.id == FrameId(1, submitted)
    ensures Progress(Submitted(s, frame), capacity, submitted + 1, 0)
    ensures SubmitOutcomeOf(s, frame).Queued? || SubmitOutcomeOf(s, frame).DroppedOldest?
  {
  }

  lemma TakeStep(s: State, capacity: nat, submitted: u64, taken: u64)
    requires Progress(s, capacity, submitted, taken) && s.frames != []
    ensures Progress(AfterTake(s), capacity, submitted, taken + 1)
    ensures TakenFrame(s).Some?
    ensures TakenFrame(s).value.id == FrameId(1, submitted - Min(submitted, capacity) + taken)
  {
  }

  /** The product is monotone, so the resident-bytes guard cannot fire after the total-work guard passed. */
  lemma ResidentFits(byteLen: nat, frames: nat, capacity: nat)
    requires byteLen * frames <= MAX_PATTERN_WORK_BYTES
    ensures byteLen * Min(capacity, frames) <= MAX_PATTERN_WORK_BYTES <= USIZE_MAX
  {
    if capacity < frames {
      assert byteLen * capacity <= byteLen * frames;
    }
  }

  /** Exactly when the run reaches its summary. */
  ghost predicate Succeeds(options: PatternOptions, encode: bool, env: Environment) {
    var layout := NewLayout(options.width, options.height);
    && layout.Ok?
    && layout.value.byteLen * options.frames <= 0x2000_0000
    && options.queueCapacity > 0
    && (forall i: u64 | i < options.frames :: env.allocates(i))
    && (encode ==>
          && env.encoderStarts
          && forall i: u64 | options.frames - Min(options.frames, options.queueCapacity) <= i < options.frames ::
               env.encodes(FrameId(1, i)))
  }

  /** The workload passed the layout and size limits. */
  ghost predicate Planned(options: PatternOptions) {
    var layout := NewLayout(options.width, options.height);
    layout.Ok? && layout.value.byteLen * options.frames <= 0x2000_0000
  }

  /** The first thing that goes wrong, in the order of the run. */
  ghost predicate Blames(options: PatternOptions, encode: bool, env: Environment, e: RunError) {
    var layout := NewLayout(options.width, options.height);
    match e
    case InvalidLayout(error) => layout == Err(error)
    case WorkOverflow => layout.Ok? && layout.value.byteLen * options.frames > USIZE_MAX
    case WorkTooLarge(bytes) => layout.Ok? && 0x2000_0000 < bytes == layout.value.byteLen * options.frames <= USIZE_MAX
    case InvalidPipeline(error) => Planned(options) && options.queueCapacity == 0 && error == ZeroCapacity
    case CannotGenerate(sequence, error) =>
      && Planned(options) && options.queueCapacity > 0 && error == AllocationFailed(layout.value.byteLen)
      && FirstFailure(env.allocates, 0, sequence, options.frames)
    case CannotStartEncoder => Generated(options, env) && encode && !env.encoderStarts
    case CannotEncode(id) =>
      && Generated(options, env) && encode && env.encoderStarts && id.generation == 1
      && FirstFailure((i: u64) => env.encodes(FrameId(1, i)), options.frames - Min(options.frames, options.queueCapacity),
                      id.sequence, options.frames)
  }

  ghost predicate Generated(options: PatternOptions, env: Environment) {
    Planned(options) && options.queueCapacity > 0 && forall i: u64 | i < options.frames :: env.allocates(i)
  }

  /** `k` is the first index from `first` on, below `end`, at which `works` fails. */
  ghost predicate FirstFailure(works: u64 -> bool, first: nat, k: u64, end: u64) {
    first <= k < end && !works(k) && forall i: u64 | first <= i < k :: works(i)
  }

  /** A run is either to blame for one error or succeeds. */
  lemma BlameExact(options: PatternOptions, encode: bool, env: Environment, e: RunError, e': RunError)
    requires Blames(options, encode, env, e)
    ensures !Succeeds(options, encode, env)
    ensures Blames(options, encode, env, e') ==> e == e'
  {
    hide NewLayout;
  }

  /** Layout and work limits. The resident-bytes guard of the source is the two assertions. */
  method PlanRun(options: PatternOptions, ghost encode: bool, ghost env: Environment) returns (r: Result<FrameLayout, RunError>)
    ensures r.Ok? <==> Planned(options)
    ensures r.Ok? ==> NewLayout(options.width, options.height) == Ok(r.value)
    ensures r.Err? ==> Blames(options, encode, env, r.error)
  {
    hide NewLayout;
    var layout := NewLayout(options.width, options.height);
    if layout.Err? {
      return Err(InvalidLayout(layout.error));
    }
    var totalWork := layout.value.byteLen * options.frames;
    if totalWork > USIZE_MAX {
      return Err(WorkOverflow);
    }
    if totalWork > MAX_PATTERN_WORK_BYTES {
      return Err(WorkTooLarge(totalWork));
    }
    var residentFrames := Min(options.queueCapacity, options.frames);
    ResidentFits(layout.value.byteLen, options.frames, options.queueCapacity);
    assert layout.value.byteLen * residentFrames <= USIZE_MAX;
    assert layout.value.byteLen * residentFrames <= MAX_PATTERN_WORK_BYTES;
    return Ok(layout.value);
  }

  /**
   The `assert`s about outcomes here and below stand where the source returns an error for a
   refused first generation, a rejected submission or a rejected sink gate: none can happen.
   */
  method RunPattern(options: PatternOptions, encode: bool, env: Environment) returns (r: Result<Report, RunError>)
    ensures r.Ok? <==> Succeeds(options, encode, env)
    ensures r.Err? ==> Blames(options, encode, env, r.error)
    ensures r.Ok? ==>
              var kept := Min(options.frames, options.queueCapacity);
              r.value == Report(Ids(options.frames - kept, kept), 1, options.queueCapacity, 0,
                                Stats(options.frames, kept, options.frames - kept, 0, 0, 0, 0))
  {
    hide NewLayout, Inv, Progress, Ids;
    var layout := PlanRun(options, encode, env);
    if layout.Err? {
      return Err(layout.error);
    }
    var created := FramePipeline.New(options.queueCapacity, 0);
    if created.Err? {
      return Err(InvalidPipeline(created.error));
    }
    var pipeline := created.value;
    var begun := pipeline.BeginGeneration(1);
    assert begun.Ok?;
    FirstProgress(pipeline.View(), options.queueCapacity);
    var failed := SubmitPatterns(pipeline, options, layout.value, env);
    if failed.Some? {
      return Err(failed.value);
    }
    r := DrainQueue(pipeline, options, encode, env);
  }

  /** The run, with the error that it returns as the only one to blame. */
  method SimulatePattern(options: PatternOptions, encode: bool, env: Environment) returns (r: Result<Report, RunError>)
    ensures r.Ok? <==> Succeeds(options, encode, env)
    ensures forall e :: r == Err(e) <==> Blames(options, encode, env, e)
    ensures r.Ok? ==>
              var kept := Min(options.frames, options.queueCapacity);
              r.value == Report(Ids(options.frames - kept, kept), 1, options.queueCapacity, 0,
                                Stats(options.frames, kept, options.frames - kept, 0, 0, 0, 0))
  {
    hide Succeeds, Blames;
    r := RunPattern(options, encode, env);
    forall e ensures r == Err(e) <==> Blames(options, encode, env, e) {
      if Blames(options, encode, env, e) {
        BlameExact(options, encode, env, e, if r.Err? then r.error else e);
      }
    }
  }

  lemma FirstProgress(s: State, capacity: nat)
    requires s == AfterBegin(Initial(capacity, 0), 1)
    ensures Progress(s, capacity, 0, 0)
  {
  }

  method SubmitPatterns(pipeline: FramePipeline, options: PatternOptions, layout: FrameLayout, env: Environment)
    returns (failed: Option<RunError>)
    requires pipeline.Valid() && Progress(pipeline.View(), options.queueCapacity, 0, 0)
    requires options.queueCapacity > 0 && NewLayout(options.width, options.height) == Ok(layout)
    modifies pipeline
    ensures pipeline.Valid()
    ensures failed.None? <==> forall i: u64 | i < options.frames :: env.allocates(i)
    ensures failed.None? ==> Progress(pipeline.View(), options.queueCapacity, options.frames, 0)
    ensures failed.Some? ==> && failed.value.CannotGenerate? && failed.value.frameError == AllocationFailed(layout.byteLen)
                             && FirstFailure(env.allocates, 0, failed.value.sequence, options.frames)
  {
    hide Inv, PatternByte, NewLayout;
    LayoutValidates(options, layout);
    var sequence := 0;
    while sequence < options.frames
      invariant 0 <= sequence <= options.frames
      invariant pipeline.Valid() && Progress(pipeline.View(), options.queueCapacity, sequence, 0)
      invariant forall i: u64 | i < sequence :: env.allocates(i)
    {
      var frame := DrawTestPattern(FrameId(1, sequence), layout, env.allocates(sequence));
      if frame.Err? {
        return Some(CannotGenerate(sequence, frame.error));
      }
      ProgressStep(pipeline.View(), options.queueCapacity, sequence, frame.value);
      hide Submitted, SubmitOutcomeOf;
      var outcome := pipeline.Submit(frame.value);
      assert outcome.Queued? || outcome.DroppedOldest?;
      sequence := sequence + 1;
    }
    return None;
  }

  lemma LayoutValidates(options: PatternOptions, layout: FrameLayout)
    requires NewLayout(options.width, options.height) == Ok(layout)
    ensures ValidateLayout(layout).Ok?
  {
  }

  method DrainQueue(pipeline: FramePipeline, options: PatternOptions, encode: bool, env: Environment)
    returns (r: Result<Report, RunError>)
    requires pipeline.Valid() && Progress(pipeline.View(), options.queueCapacity, options.frames, 0)
    modifies pipeline
    ensures var kept := Min(options.frames, options.queueCapacity);
            r.Ok? <==> (encode ==> && env.encoderStarts
                                   && forall i: u64 | options.frames - kept <= i < options.frames :: env.encodes(FrameId(1, i)))
    ensures r.Err? && !env.encoderStarts ==> r.error == CannotStartEncoder
    ensures r.Err? && env.encoderStarts ==>
              && r.error.CannotEncode? && r.error.id.generation == 1
              && FirstFailure((i: u64) => env.encodes(FrameId(1, i)), options.frames - Min(options.frames, options.queueCapacity),
                              r.error.id.sequence, options.frames)
    ensures r.Ok? ==>
              var kept := Min(options.frames, options.queueCapacity);
              r.value == Report(Ids(options.frames - kept, kept), 1, options.queueCapacity, 0,
                                Stats(options.frames, kept, options.frames - kept, 0, 0, 0, 0))
  {
    hide Inv;
    if encode && !env.encoderStarts {
      return Err(CannotStartEncoder);
    }
    var delivered := [];
    ghost var kept := Min(options.frames, options.queueCapacity);
    ghost var first := options.frames - kept;
    while true
      invariant |delivered| <= kept && delivered == Ids(first, |delivered|)
      invariant pipeline.Valid() && Progress(pipeline.View(), options.queueCapacity, options.frames, |delivered|)
      invariant encode ==> forall i: u64 | first <= i < first + |delivered| :: env.encodes(FrameId(1, i))
      decreases kept - |delivered|
    {
      ghost var before := pipeline.View();
      var taken := pipeline.TryTake();
      if taken.None? {
        break;
      }
      TakeStep(before, options.queueCapacity, options.frames, |delivered|);
      hide AfterTake;
      var id := taken.value.id;
      if encode {
        if !env.encodes(id) {
          return Err(CannotEncode(id));
        }
        var submit := new Submission((world: ()) => (world, ()), ());
        var gate := pipeline.WithCurrentGeneration(id, submit);
        assert gate.Ok?;
      }
      delivered := delivered + [id];
    }
    return Ok(Report(delivered, pipeline.generation, pipeline.capacity, |pipeline.frames|, pipeline.stats));
  }
}
