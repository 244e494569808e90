/** Any number of callers map one object at any time; each takes `vmap_lock`, step by step. */
module EvdiPatched {
  import opened Wire
  import opened EvdiObject

  type Tid = nat

  datatype Call = Vmap(kernel: Kernel) | Vunmap

  // ---------- One call, statement by statement ----------

  datatype After = More(gem: Gem, pc: nat) | Done(gem: Gem, ok: bool)

  function Micro(call: Call, pc: nat, g: Gem): (a: After)
    ensures a.More? ==> pc < a.pc <= 6
  {
    match call
    case Vmap(k) => VmapMicro(k, pc, g)
    case Vunmap => VunmapMicro(pc, g)
  }

  function VmapMicro(k: Kernel, pc: nat, g: Gem): (a: After)
    ensures a.More? ==> pc < a.pc <= 6
  {
    match pc
    case 0 => if g.mapped then Done(g, true) else More(g, if g.kind.Local? then 3 else 1)
    case 1 =>
      if k.mapOk then More(g.(counter := g.counter + 1), 2)
      else Done(if g.kind.ImportAddress? then g.(mapped := false) else g, false)
    case 2 => Done(g.(mapped := true), true)
    case 3 => if k.pinOk then More(g.(pins := g.pins + 1), 4) else Done(g, false)
    case 4 => if k.areaOk then More(g.(areas := g.areas + 1), 5) else More(g.(mapped := false), 6)
    case 5 => Done(g.(mapped := true), true)
    case _ => Done(g.(pins := g.pins - 1), false)
  }

  function VunmapMicro(pc: nat, g: Gem): (a: After)
    ensures a.More? ==> pc < a.pc <= 6
  {
    match pc
    case 0 => if !g.mapped then Done(g, true) else More(g, if g.kind.Local? then 3 else 1)
    case 1 => More(g.(counter := g.counter - 1), 2)
    case 2 => Done(g.(mapped := false), true)
    case 3 => More(g.(areas := g.areas - 1), 4)
    case 4 => More(g.(mapped := false), 5)
    case _ => Done(g.(pins := g.pins - 1), true)
  }

  function Apply(g: Gem, call: Call): (g': Gem) {
    match call
    case Vmap(k) => AfterVmap(g, k)
    case Vunmap => AfterVunmap(g)
  }

  function Finish(call: Call, pc: nat, g: Gem): (g': Gem)
    decreases 7 - pc
  {
    match Micro(call, pc, g)
    case Done(g', _) => g'
    case More(g', pc') => Finish(call, pc', g')
  }

  lemma FinishIsApply(call: Call, g: Gem)
    ensures Finish(call, 0, g) == Apply(g, call)
  {
    hide Gains, Balanced;
    if call.Vmap? {
      var g4 := g.(pins := g.pins + 1);
      assert Finish(call, 4, g4) == if call.kernel.areaOk then Finish(call, 5, g4.(areas := g.areas + 1)) else Finish(call, 6, g4.(mapped := false));
    } else {
      var g4 := g.(areas := g.areas - 1);
      assert Finish(call, 4, g4) == Finish(call, 5, g4.(mapped := false));
    }
  }

  // ---------- Threads ----------

  datatype Thread = Waiting(call: Call) | Inside(call: Call, pc: nat) | Leaving

  /** log: calls in lock order; succeeded: some vmap call got a mapping; freeing: the thread that frees. */
  datatype System = System(
    gem: Gem,
    lock: Option<Tid>,
    threads: map<Tid, Thread>,
    log: seq<Call>,
    succeeded: bool,
    freeing: Option<Tid>
  )

  function Start(kind: Kind): (sys: System) {
    System(Fresh(kind), None, map[], [], false, None)
  }

  predicate CallsVmap(sys: System, t: Tid, k: Kernel, sys': System) {
    && t !in sys.threads && sys.freeing.None?
    && sys' == sys.(threads := sys.threads[t := Waiting(Vmap(k))])
  }

  /** The last reference is gone: free runs once, when no caller holds the object. */
  predicate CallsFree(sys: System, t: Tid, sys': System) {
    && sys.threads == map[] && sys.freeing.None?
    && sys' == sys.(threads := map[t := Waiting(Vunmap)], freeing := Some(t))
  }

  predicate Acquires(sys: System, t: Tid, sys': System) {
    && t in sys.threads && sys.threads[t].Waiting? && sys.lock.None?
    && sys' == sys.(lock := Some(t),
                    threads := sys.threads[t := Inside(sys.threads[t].call, 0)],
                    log := sys.log + [sys.threads[t].call])
  }

  predicate Advances(sys: System, t: Tid, sys': System) {
    && t in sys.threads && sys.threads[t].Inside?
    && var Inside(call, pc) := sys.threads[t];
       var after := Micro(call, pc, sys.gem);
       sys' == sys.(gem := after.gem,
                    threads := sys.threads[t := if after.More? then Inside(call, after.pc) else Leaving],
                    succeeded := sys.succeeded || (call.Vmap? && after.Done? && after.ok))
  }

  predicate Releases(sys: System, t: Tid, sys': System) {
    && t in sys.threads && sys.threads[t].Leaving?
    && sys' == sys.(lock := None, threads := sys.threads - {t})
  }

  ghost predicate StepBy(sys: System, t: Tid, sys': System) {
    || (exists k :: CallsVmap(sys, t, k, sys'))
    || CallsFree(sys, t, sys')
    || Acquires(sys, t, sys')
    || Advances(sys, t, sys')
    || Releases(sys, t, sys')
  }

  ghost predicate Next(sys: System, sys': System) {
    exists t: Tid :: StepBy(sys, t, sys')
  }

  ghost predicate IsRun(kind: Kind, run: seq<System>) {
    && |run| > 0 && run[0] == Start(kind)
    && forall i | 0 <= i < |run| - 1 :: Next(run[i], run[i + 1])
  }

  // ---------- Linearization ----------

  /** The calls of `log` made one after the other. */
  function Replay(kind: Kind, log: seq<Call>): (g: Gem) {
    if log == [] then Fresh(kind) else Apply(Replay(kind, log[..|log| - 1]), log[|log| - 1])
  }

  lemma ReplaySnoc(kind: Kind, log: seq<Call>, call: Call)
    ensures Replay(kind, log + [call]) == Apply(Replay(kind, log), call)
  {
    assert (log + [call])[..|log|] == log;
  }

  lemma {:induction false} ReplayBalanced(kind: Kind, log: seq<Call>)
    ensures Balanced(Replay(kind, log)) && Replay(kind, log).kind == kind
    decreases |log|
  {
    if log != [] {
      ReplayBalanced(kind, log[..|log| - 1]);
    }
  }

  predicate Holds(sys: System, t: Tid) {
    t in sys.threads && (sys.threads[t].Inside? || sys.threads[t].Leaving?)
  }

  /** Before free only vmap calls run; then only the freeing thread, with its one vunmap. */
  ghost predicate FreeInv(sys: System) {
    && (sys.freeing.None? ==> forall t | t in sys.threads && !sys.threads[t].Leaving? :: sys.threads[t].call.Vmap?)
    && (sys.freeing.Some? ==>
          var f := sys.freeing.value;
          && sys.threads.Keys <= {f}
          && (f in sys.threads && !sys.threads[f].Leaving? ==> sys.threads[f].call == Vunmap)
          && ((f in sys.threads && sys.threads[f].Waiting?) || (sys.log != [] && sys.log[|sys.log| - 1] == Vunmap)))
  }

  ghost predicate GemInv(kind: Kind, sys: System) {
    && (sys.succeeded && sys.freeing.None? ==> sys.gem.mapped)
    && (if sys.lock.Some? && sys.lock.value in sys.threads && sys.threads[sys.lock.value].Inside? then
          var Inside(call, pc) := sys.threads[sys.lock.value];
          && sys.log != [] && sys.log[|sys.log| - 1] == call
          && Finish(call, pc, sys.gem) == Replay(kind, sys.log)
          && (call.Vmap? && pc > 0 ==> !sys.gem.mapped)
        else
          sys.gem == Replay(kind, sys.log))
  }

  ghost predicate SysInv(kind: Kind, sys: System) {
    && (forall t: Tid :: Holds(sys, t) <==> sys.lock == Some(t))
    && FreeInv(sys)
    && GemInv(kind, sys)
  }

  lemma LockStep(kind: Kind, sys: System, t: Tid, sys': System)
    requires SysInv(kind, sys) && StepBy(sys, t, sys')
    ensures forall t': Tid :: Holds(sys', t') <==> sys'.lock == Some(t')
    ensures FreeInv(sys')
  {
    hide GemInv, Micro;
    assert Holds(sys, t) <==> sys.lock == Some(t);
    forall t': Tid ensures Holds(sys', t') <==> sys'.lock == Some(t') {
      assert Holds(sys, t') <==> sys.lock == Some(t');
    }
  }

  lemma AcquireGem(kind: Kind, sys: System, t: Tid, sys': System)
    requires SysInv(kind, sys) && Acquires(sys, t, sys')
    ensures GemInv(kind, sys')
  {
    hide Finish, Replay, Apply;
    ReplaySnoc(kind, sys.log, sys.threads[t].call);
    FinishIsApply(sys.threads[t].call, sys.gem);
  }

  /** Mapping never loses a mapping: past its check it runs only on an unmapped object. */
  lemma VmapGuard(k: Kernel, pc: nat, g: Gem)
    requires pc > 0 ==> !g.mapped
    ensures var a := VmapMicro(k, pc, g);
            && (a.More? ==> !a.gem.mapped)
            && (g.mapped ==> a.gem.mapped)
            && (a.Done? && a.ok ==> a.gem.mapped)
  {
  }

  lemma AdvanceGem(kind: Kind, sys: System, t: Tid, sys': System)
    requires SysInv(kind, sys) && Advances(sys, t, sys')
    ensures GemInv(kind, sys')
  {
    hide Replay, VmapMicro, VunmapMicro;
    assert Holds(sys, t);
    var Inside(call, pc) := sys.threads[t];
    if call.Vmap? {
      VmapGuard(call.kernel, pc, sys.gem);
    }
  }

  lemma NextKeeps(kind: Kind, sys: System, sys': System)
    requires SysInv(kind, sys) && Next(sys, sys')
    ensures SysInv(kind, sys')
  {
    var t: Tid :| StepBy(sys, t, sys');
    LockStep(kind, sys, t, sys');
    hide FreeInv, Micro, Finish, Replay;
    assert Holds(sys, t) <==> sys.lock == Some(t);
    if Acquires(sys, t, sys') {
      AcquireGem(kind, sys, t, sys');
    } else if Advances(sys, t, sys') {
      AdvanceGem(kind, sys, t, sys');
    }
  }

  lemma {:induction false} RunKeeps(kind: Kind, run: seq<System>, i: nat)
    requires IsRun(kind, run) && i < |run|
    ensures SysInv(kind, run[i])
    decreases i
  {
    if i == 0 {
      hide Next;
    } else {
      hide SysInv, Next;
      RunKeeps(kind, run, i - 1);
      assert Next(run[i - 1], run[i - 1 + 1]);
      NextKeeps(kind, run[i - 1], run[i]);
    }
  }

  // ---------- Main results ----------

  /**
   In every interleaving, whenever `vmap_lock` is free the object is what its calls make it one
   after the other, and it owns exactly one reference of each sort when mapped and none otherwise.
   */
  lemma BalancedWhenUnlocked(kind: Kind, run: seq<System>, i: nat)
    requires IsRun(kind, run) && i < |run| && run[i].lock.None?
    ensures run[i].gem == Replay(kind, run[i].log)
    ensures Balanced(run[i].gem)
  {
    hide Next, Balanced;
    RunKeeps(kind, run, i);
    ReplayBalanced(kind, run[i].log);
  }

  /** Once free has finished, nothing is outstanding: the release check of the buffer passes. */
  lemma NothingLeftAfterFree(kind: Kind, run: seq<System>, i: nat)
    requires IsRun(kind, run) && i < |run| && run[i].freeing.Some? && run[i].threads == map[]
    ensures run[i].gem == Fresh(kind)
  {
    hide Next;
    RunKeeps(kind, run, i);
    var log := run[i].log;
    assert run[i].lock.Some? ==> Holds(run[i], run[i].lock.value);
    ReplayBalanced(kind, log[..|log| - 1]);
  }

  /** A mapping that was handed out stays until free starts, in every state of every interleaving. */
  lemma MappingPersists(kind: Kind, run: seq<System>, i: nat, j: nat)
    requires IsRun(kind, run) && i <= j < |run| && run[i].succeeded && run[j].freeing.None?
    ensures run[j].gem.mapped
  {
    hide Next;
    SucceededStays(kind, run, i, j);
    RunKeeps(kind, run, j);
  }

  lemma {:induction false} SucceededStays(kind: Kind, run: seq<System>, i: nat, j: nat)
    requires IsRun(kind, run) && i <= j < |run| && run[i].succeeded
    ensures run[j].succeeded
    decreases j
  {
    if i < j {
      SucceededStays(kind, run, i, j - 1);
      assert Next(run[j - 1], run[j - 1 + 1]);
    }
  }

  // ---------- Mapping maps ----------

  /** A log leaves the object mapped exactly when some granted vmap call has no vunmap behind it. */
  ghost predicate MapsAt(kind: Kind, log: seq<Call>, i: nat) {
    && i < |log| && log[i].Vmap? && Granted(kind, log[i].kernel)
    && forall j | i < j < |log| :: log[j].Vmap?
  }

  lemma {:induction false} MappedExactly(kind: Kind, log: seq<Call>)
    ensures Replay(kind, log).mapped <==> exists i: nat :: MapsAt(kind, log, i)
    decreases |log|
  {
    hide Replay;
    if log == [] {
      assert Replay(kind, log) == Fresh(kind) by {
        EmptyReplay(kind);
      }
    } else {
      var init, last := log[..|log| - 1], log[|log| - 1];
      MappedExactly(kind, init);
      ReplayBalanced(kind, init);
      ReplaySnoc(kind, init, last);
      assert log == init + [last];
      if i: nat :| MapsAt(kind, init, i) {
        assert last.Vmap? ==> MapsAt(kind, log, i);
      }
      if i: nat :| MapsAt(kind, log, i) && i < |init| {
        assert MapsAt(kind, init, i);
      }
      assert MapsAt(kind, log, |init|) <==> last.Vmap? && Granted(kind, last.kernel);
    }
  }

  lemma EmptyReplay(kind: Kind)
    ensures Replay(kind, []) == Fresh(kind)
  {
  }

  /** Whenever the lock is free, the object is mapped exactly when the calls made so far say so. */
  lemma MappedWhenUnlocked(kind: Kind, run: seq<System>, i: nat)
    requires IsRun(kind, run) && i < |run| && run[i].lock.None?
    ensures run[i].gem.mapped <==> exists j: nat :: MapsAt(kind, run[i].log, j)
  {
    hide Next;
    BalancedWhenUnlocked(kind, run, i);
    MappedExactly(kind, run[i].log);
  }

  /** The statements that a vmap call can reach, and the answers that led it there. */
  predicate OnPath(kind: Kind, k: Kernel, pc: nat) {
    && pc <= 6
    && (1 <= pc <= 2 ==> !kind.Local?) && (pc >= 3 ==> kind.Local?)
    && (pc == 2 ==> k.mapOk) && (pc >= 4 ==> k.pinOk) && (pc == 5 ==> k.areaOk) && (pc == 6 ==> !k.areaOk)
  }

  ghost predicate AllOnPath(kind: Kind, sys: System) {
    && sys.gem.kind == kind
    && forall t | t in sys.threads && sys.threads[t].Inside? && sys.threads[t].call.Vmap? ::
         OnPath(kind, sys.threads[t].call.kernel, sys.threads[t].pc)
  }

  lemma PathStep(kind: Kind, sys: System, sys': System)
    requires AllOnPath(kind, sys) && Next(sys, sys')
    ensures AllOnPath(kind, sys')
  {
    var t: Tid :| StepBy(sys, t, sys');
    if Advances(sys, t, sys') {
      PathMicro(kind, sys.threads[t].call, sys.threads[t].pc, sys.gem);
      hide Micro;
    }
  }

  lemma PathMicro(kind: Kind, call: Call, pc: nat, g: Gem)
    requires g.kind == kind && (call.Vmap? ==> OnPath(kind, call.kernel, pc))
    ensures Micro(call, pc, g).gem.kind == kind
    ensures call.Vmap? && Micro(call, pc, g).More? ==> OnPath(kind, call.kernel, Micro(call, pc, g).pc)
  {
  }

  lemma {:induction false} RunOnPath(kind: Kind, run: seq<System>, i: nat)
    requires IsRun(kind, run) && i < |run|
    ensures AllOnPath(kind, run[i])
    decreases i
  {
    if i > 0 {
      hide AllOnPath, Next;
      RunOnPath(kind, run, i - 1);
      assert Next(run[i - 1], run[i - 1 + 1]);
      PathStep(kind, run[i - 1], run[i]);
    } else {
      hide Next;
    }
  }

  /**
   In every run a vmap call that ends reports success exactly when the object is then mapped, and it
   always succeeds when the kernel grants what it needs.
   */
  lemma VmapReports(kind: Kind, run: seq<System>, i: nat, t: Tid)
    requires IsRun(kind, run) && i < |run| - 1 && Advances(run[i], t, run[i + 1])
    requires run[i].threads[t].call.Vmap? && run[i + 1].threads[t].Leaving?
    ensures var after := Micro(run[i].threads[t].call, run[i].threads[t].pc, run[i].gem);
            && after.Done? && (after.ok <==> run[i + 1].gem.mapped)
            && (Granted(kind, run[i].threads[t].call.kernel) ==> after.ok && run[i + 1].succeeded)
  {
    hide Next;
    RunKeeps(kind, run, i);
    RunOnPath(kind, run, i);
    assert Holds(run[i], t);
    hide Replay, Finish, FreeInv;
    VmapEnds(run[i].threads[t].call.kernel, run[i].threads[t].pc, run[i].gem);
  }

  lemma VmapEnds(k: Kernel, pc: nat, g: Gem)
    requires OnPath(g.kind, k, pc) && (pc > 0 ==> !g.mapped) && VmapMicro(k, pc, g).Done?
    ensures VmapMicro(k, pc, g).ok <==> VmapMicro(k, pc, g).gem.mapped
    ensures Granted(g.kind, k) ==> VmapMicro(k, pc, g).ok
  {
  }
}
