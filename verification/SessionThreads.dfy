/**
 The session manager under any number of hotplug producers and stop calls, one worker, a mutex and
 a condition variable. Device references and open handles are multisets of devices.
 */
module SessionThreads {
  import opened Wire
  import opened Sessions
  import SessionHistory

  // ---------- State ----------

  /** A client thread is idle, inside `enqueue` or inside `stop`. */
  datatype Client =
    | Idle
    | Referenced(event: Event)   // took its reference, waits for the mutex
    | Entered(event: Event)      // holds the mutex
    | StopWaiting
    | StopEntered                // holds the mutex
    | Unlocking(joins: bool)     // done inside, still holds the mutex
    | Joining                    // waits for the worker to exit

  /** How far the worker is with the event in hand, and what it holds besides the event's reference. */
  datatype Stage =
    | Dispatching
    | HasHandle      // opened the device
    | HasReference   // and took the session's own reference
    | Erased         // took the session out of the map
    | HandleClosed   // and closed its handle
    | Finishing      // about to drop the event's reference

  datatype Worker =
    | Waiting
    | Awake                      // holds the mutex: something is queued or the manager is stopping
    | Popped(a: Answered)        // holds the mutex
    | Busy(a: Answered, stage: Stage)
    | Breaking                   // holds the mutex, leaves the loop
    | Draining
    | Clearing
    | Destroying(device: Device) // closed the handle, about to drop the session's reference
    | Exited

  datatype Owner = Nobody | Client(index: nat) | TheWorker

  datatype System = System(
    refs: multiset<Device>,
    handles: multiset<Device>,
    queue: seq<Event>,
    sessions: map<Device, nat>,
    openings: nat,
    stopping: bool,
    lock: Owner,
    clients: seq<Client>,
    worker: Worker,
    accepted: seq<Event>,
    handled: seq<Answered>
  )

  function Start(n: nat): (sys: System) {
    System(multiset{}, multiset{}, [], map[], 0, false, Nobody, seq(n, _ => Idle), Waiting, [], [])
  }

  // ---------- Client steps ----------

  /** What an idle client does next: libusb reports an event to it, or it calls stop. */
  datatype Move = Enqueue(event: Event) | Stop

  predicate ClientReady(sys: System, i: nat) {
    && i < |sys.clients|
    && (sys.clients[i].Referenced? || sys.clients[i].StopWaiting? ==> sys.lock.Nobody?)
    && (sys.clients[i].Joining? ==> sys.worker.Exited?)
  }

  /** What client `i` appends to the queue with its next step. */
  function Pushed(sys: System, i: nat): (events: seq<Event>)
    requires i < |sys.clients|
  {
    if sys.clients[i].Entered? && !sys.stopping then [sys.clients[i].event] else []
  }

  function ClientAfter(sys: System, i: nat, move: Move): (c: Client)
    requires i < |sys.clients|
  {
    match sys.clients[i]
    case Idle => if move.Stop? then StopWaiting else Referenced(move.event)
    case Referenced(e) => Entered(e)
    case Entered(_) => Unlocking(false)
    case StopWaiting => StopEntered
    case StopEntered => Unlocking(!sys.stopping)
    case Unlocking(joins) => if joins then Joining else Idle
    case Joining => Idle
  }

  /** Enqueue takes a reference first, and drops it again when the manager is stopping. */
  function ClientRefsAfter(sys: System, i: nat, move: Move): (refs: multiset<Device>)
    requires i < |sys.clients|
  {
    var c := sys.clients[i];
    if c.Idle? && move.Enqueue? then sys.refs + multiset{move.event.device}
    else if c.Entered? && sys.stopping then sys.refs - multiset{c.event.device}
    else sys.refs
  }

  function LockAfter(sys: System, i: nat): (lock: Owner)
    requires i < |sys.clients|
  {
    var c := sys.clients[i];
    if c.Referenced? || c.StopWaiting? then Client(i) else if c.Unlocking? then Nobody else sys.lock
  }

  function ClientNext(sys: System, i: nat, move: Move): (sys': System)
    requires i < |sys.clients|
  {
    sys.(refs := ClientRefsAfter(sys, i, move),
         queue := sys.queue + Pushed(sys, i),
         accepted := sys.accepted + Pushed(sys, i),
         stopping := sys.stopping || sys.clients[i].StopEntered?,
         lock := LockAfter(sys, i),
         clients := sys.clients[i := ClientAfter(sys, i, move)])
  }

  // ---------- Worker steps ----------

  /** The worker waits for work, takes one event, or leaves the loop. `answer` is for the event it takes. */
  predicate LoopReady(sys: System, answer: Answered) {
    match sys.worker
    case Waiting => sys.lock.Nobody? && (sys.stopping || sys.queue != [])
    case Awake => (sys.queue == [] && sys.stopping) || (sys.queue != [] && answer.event == sys.queue[0])
    case Popped(_) => true
    case Breaking => true
    case _ => false
  }

  function LoopNext(sys: System, answer: Answered): (sys': System)
    requires LoopReady(sys, answer)
  {
    match sys.worker
    case Waiting => sys.(lock := TheWorker, worker := Awake)
    case Awake =>
      if sys.queue == [] && sys.stopping then sys.(worker := Breaking)
      else sys.(queue := sys.queue[1..], worker := Popped(answer))
    case Popped(a) => sys.(lock := Nobody, worker := Busy(a, Dispatching))
    case Breaking => sys.(lock := Nobody, worker := Draining)
  }

  /** The worker handles the event in hand, without the mutex. */
  function HandleNext(sys: System): (sys': System)
    requires sys.worker.Busy?
    ensures sys' == sys.(refs := sys'.refs, handles := sys'.handles, sessions := sys'.sessions,
                         openings := sys'.openings, worker := sys'.worker, handled := sys'.handled)
    ensures if sys.worker.stage.Finishing? then sys'.worker.Waiting? && sys'.handled == sys.handled + [sys.worker.a]
            else sys'.worker.Busy? && sys'.worker.a == sys.worker.a && sys'.handled == sys.handled
  {
    var a := sys.worker.a;
    var d := a.event.device;
    match sys.worker.stage
    case Dispatching =>
      if a.event.arrived then
        if !a.target || d in sys.sessions || !a.opens then sys.(worker := Busy(a, Finishing))
        else sys.(handles := sys.handles + multiset{d}, worker := Busy(a, HasHandle))
      else
        if d !in sys.sessions then sys.(worker := Busy(a, Finishing))
        else sys.(sessions := sys.sessions - {d}, worker := Busy(a, Erased))
    case HasHandle => sys.(refs := sys.refs + multiset{d}, worker := Busy(a, HasReference))
    case HasReference =>
      sys.(openings := sys.openings + 1, sessions := sys.sessions[d := sys.openings + 1], worker := Busy(a, Finishing))
    case Erased => sys.(handles := sys.handles - multiset{d}, worker := Busy(a, HandleClosed))
    case HandleClosed => sys.(refs := sys.refs - multiset{d}, worker := Busy(a, Finishing))
    case Finishing => sys.(refs := sys.refs - multiset{d}, handled := sys.handled + [a], worker := Waiting)
  }

  predicate CleanupReady(sys: System, d: Device) {
    || sys.worker.Draining?
    || sys.worker.Destroying?
    || (sys.worker.Clearing? && (sys.sessions == map[] || d in sys.sessions))
  }

  /** After the loop, still without the mutex: drop what is queued, then destroy each session `d`. */
  function CleanupNext(sys: System, d: Device): (sys': System)
    requires CleanupReady(sys, d)
    ensures sys'.accepted == sys.accepted && sys'.handled == sys.handled && sys'.openings == sys.openings
    ensures sys'.clients == sys.clients && sys'.lock == sys.lock && sys'.stopping == sys.stopping
    ensures sys'.worker.Draining? || sys'.worker.Clearing? || sys'.worker.Destroying? || sys'.worker.Exited?
    ensures sys.queue == [] ==> sys'.queue == []
  {
    match sys.worker
    case Draining =>
      if sys.queue == [] then sys.(worker := Clearing)
      else sys.(refs := sys.refs - multiset{sys.queue[0].device}, queue := sys.queue[1..])
    case Clearing =>
      if sys.sessions == map[] then sys.(worker := Exited)
      else sys.(sessions := sys.sessions - {d}, handles := sys.handles - multiset{d}, worker := Destroying(d))
    case Destroying(e) => sys.(refs := sys.refs - multiset{e}, worker := Clearing)
  }

  // ---------- Runs ----------

  datatype Step = ByClient(i: nat, move: Move) | ByLoop(answer: Answered) | ByHandler | ByCleanup(device: Device)

  predicate Enabled(sys: System, step: Step) {
    match step
    case ByClient(i, _) => ClientReady(sys, i)
    case ByLoop(answer) => LoopReady(sys, answer)
    case ByHandler => sys.worker.Busy?
    case ByCleanup(d) => CleanupReady(sys, d)
  }

  function Do(sys: System, step: Step): (sys': System)
    requires Enabled(sys, step)
  {
    match step
    case ByClient(i, move) => ClientNext(sys, i, move)
    case ByLoop(answer) => LoopNext(sys, answer)
    case ByHandler => HandleNext(sys)
    case ByCleanup(d) => CleanupNext(sys, d)
  }

  /** A run of `n` clients and the worker, in any order that is possible. */
  ghost predicate IsRun(n: nat, run: seq<System>) {
    && |run| > 0 && run[0] == Start(n)
    && forall i | 0 <= i < |run| - 1 :: Next(run[i], run[i + 1])
  }

  ghost predicate Next(sys: System, sys': System) {
    exists step :: Enabled(sys, step) && sys' == Do(sys, step)
  }

  // ---------- Who owns which reference ----------

  /** The reference that an enqueue call in progress holds on `d`. */
  function ClientRefs(c: Client, d: Device): (n: nat) {
    Bit((c.Referenced? || c.Entered?) && c.event.device == d)
  }

  function InTransit(clients: seq<Client>, d: Device): (n: nat) {
    if clients == [] then 0
    else InTransit(clients[..|clients| - 1], d) + ClientRefs(clients[|clients| - 1], d)
  }

  /** References that the worker holds itself: the event in hand and a session being made or destroyed. */
  function WorkerRefs(w: Worker, d: Device): (n: nat) {
    if w.Popped? then Bit(w.a.event.device == d)
    else if w.Destroying? then Bit(w.device == d)
    else if w.Busy? && w.a.event.device == d then
      (if w.stage.HasReference? || w.stage.Erased? || w.stage.HandleClosed? then 2 else 1)
    else 0
  }

  function WorkerHandles(w: Worker, d: Device): (n: nat) {
    Bit(w.Busy? && w.a.event.device == d && (w.stage.HasHandle? || w.stage.HasReference? || w.stage.Erased?))
  }

  /** References taken minus released on `d`, and open handles, each with an owner. */
  ghost predicate Conserved(sys: System, d: Device) {
    && sys.refs[d] == InTransit(sys.clients, d) + Mentions(sys.queue, d) + WorkerRefs(sys.worker, d) + Bit(d in sys.sessions)
    && sys.handles[d] == WorkerHandles(sys.worker, d) + Bit(d in sys.sessions)
  }

  // ---------- Queue discipline, lock and replay ----------

  predicate Inside(c: Client) {
    c.Entered? || c.StopEntered? || c.Unlocking?
  }

  predicate WorkerInside(w: Worker) {
    w.Awake? || w.Popped? || w.Breaking?
  }

  ghost predicate LockInv(sys: System) {
    && (forall i | 0 <= i < |sys.clients| :: Inside(sys.clients[i]) <==> sys.lock == Client(i))
    && (WorkerInside(sys.worker) <==> sys.lock == TheWorker)
    && (sys.lock.Client? ==> sys.lock.index < |sys.clients|)
  }

  predicate Leaving(w: Worker) {
    w.Breaking? || w.Draining? || w.Clearing? || w.Destroying? || w.Exited?
  }

  /** The event that the worker has taken off the queue and not finished. */
  function InHand(w: Worker): (events: seq<Event>) {
    if w.Popped? || w.Busy? then [w.a.event] else []
  }

  function EventsOf(handled: seq<Answered>): (events: seq<Event>) {
    seq(|handled|, i requires 0 <= i < |handled| => handled[i].event)
  }

  /** First in, first out; and once the worker leaves its loop the queue is and stays empty. */
  ghost predicate QueueInv(sys: System) {
    && sys.accepted == EventsOf(sys.handled) + InHand(sys.worker) + sys.queue
    && (Leaving(sys.worker) ==> sys.stopping && sys.queue == [])
    && (sys.worker.Awake? ==> sys.stopping || sys.queue != [])
  }

  /** The sessions are the replay of the handled events, up to the event in hand and the cleanup. */
  ghost predicate ReplayInv(sys: System) {
    var book, now := Replay(sys.handled), Book(sys.sessions, sys.openings);
    if sys.worker.Busy? then
      var Busy(a, stage) := sys.worker;
      if stage.Dispatching? then now == book
      else if stage.HasHandle? || stage.HasReference? then now == book && OpensSession(book, a)
      else now == Handle(book, a) && (stage.Erased? || stage.HandleClosed? ==> a.event.device !in sys.sessions)
    else if sys.worker.Clearing? || sys.worker.Destroying? || sys.worker.Exited? then
      && sys.openings == book.openings
      && (sys.worker.Exited? ==> sys.sessions == map[])
      && (sys.worker.Destroying? ==> sys.worker.device !in sys.sessions)
    else now == book
  }

  ghost predicate Inv(sys: System) {
    && (forall d: Device :: Conserved(sys, d))
    && LockInv(sys)
    && QueueInv(sys)
    && ReplayInv(sys)
  }

  // ---------- Preservation: references and handles ----------

  lemma {:induction false} InTransitSet(clients: seq<Client>, i: nat, c: Client, d: Device)
    requires i < |clients|
    ensures InTransit(clients[i := c], d) + ClientRefs(clients[i], d) == InTransit(clients, d) + ClientRefs(c, d)
    decreases |clients|
  {
    hide ClientRefs;
    var n := |clients| - 1;
    var init := clients[..n];
    if i == n {
      assert clients[i := c][..n] == init;
    } else {
      InTransitSet(init, i, c, d);
      assert clients[i := c][..n] == init[i := c];
    }
  }

  /** A client's step moves its own reference only: taken, dropped, or handed to the queue. */
  lemma ClientRefsMove(sys: System, i: nat, move: Move, d: Device)
    requires ClientReady(sys, i) && sys.refs[d] >= ClientRefs(sys.clients[i], d)
    ensures ClientRefsAfter(sys, i, move)[d] + ClientRefs(sys.clients[i], d)
            == sys.refs[d] + ClientRefs(ClientAfter(sys, i, move), d) + Mentions(Pushed(sys, i), d)
  {
  }

  lemma {:induction false} InTransitAtLeast(clients: seq<Client>, i: nat, d: Device)
    requires i < |clients|
    ensures InTransit(clients, d) >= ClientRefs(clients[i], d)
    decreases |clients|
  {
    hide ClientRefs;
    if i < |clients| - 1 {
      InTransitAtLeast(clients[..|clients| - 1], i, d);
    }
  }

  lemma ClientConserves(sys: System, i: nat, move: Move, d: Device)
    requires Conserved(sys, d) && ClientReady(sys, i)
    ensures Conserved(ClientNext(sys, i, move), d)
  {
    hide InTransit, Mentions, WorkerRefs, WorkerHandles, ClientRefsAfter, ClientAfter, LockAfter, ClientRefs;
    InTransitAtLeast(sys.clients, i, d);
    ClientRefsMove(sys, i, move, d);
    InTransitSet(sys.clients, i, ClientAfter(sys, i, move), d);
    if Pushed(sys, i) == [] {
      assert sys.queue + Pushed(sys, i) == sys.queue;
      MentionsNone(d);
    } else {
      MentionsSnoc(sys.queue, sys.clients[i].event, d);
      MentionsOne(sys.clients[i].event, d);
    }
  }

  lemma MentionsNone(d: Device)
    ensures Mentions([], d) == 0
  {
  }

  lemma MentionsOne(e: Event, d: Device)
    ensures Mentions([e], d) == Bit(e.device == d)
  {
    MentionsSnoc([], e, d);
    assert [] + [e] == [e];
  }

  lemma LoopConserves(sys: System, answer: Answered, d: Device)
    requires Conserved(sys, d) && LoopReady(sys, answer)
    ensures Conserved(LoopNext(sys, answer), d)
  {
    hide InTransit, Mentions;
    if sys.queue != [] {
      MentionsCons(sys.queue, d);
    }
  }

  lemma HandleConserves(sys: System, d: Device)
    requires Conserved(sys, d) && ReplayInv(sys) && sys.worker.Busy?
    ensures Conserved(HandleNext(sys), d)
  {
    if sys.worker.stage.Dispatching? {
      DispatchConserves(sys, d);
    } else if sys.worker.stage.HasHandle? || sys.worker.stage.HasReference? {
      OpenConserves(sys, d);
    } else if sys.worker.stage.Finishing? {
      FinishConserves(sys, d);
    } else {
      CloseConserves(sys, d);
    }
  }

  lemma DispatchConserves(sys: System, d: Device)
    requires Conserved(sys, d) && sys.worker.Busy? && sys.worker.stage.Dispatching?
    ensures Conserved(HandleNext(sys), d)
  {
    hide InTransit, Mentions;
  }

  lemma OpenConserves(sys: System, d: Device)
    requires Conserved(sys, d) && sys.worker.Busy? && (sys.worker.stage.HasHandle? || sys.worker.stage.HasReference?)
    requires sys.worker.a.event.device !in sys.sessions
    ensures Conserved(HandleNext(sys), d)
  {
    hide InTransit, Mentions;
  }

  lemma CloseConserves(sys: System, d: Device)
    requires Conserved(sys, d) && sys.worker.Busy?
    requires sys.worker.stage.Erased? || sys.worker.stage.HandleClosed?
    ensures Conserved(HandleNext(sys), d)
  {
    hide InTransit, Mentions;
  }

  lemma FinishConserves(sys: System, d: Device)
    requires Conserved(sys, d) && sys.worker.Busy? && sys.worker.stage.Finishing?
    ensures Conserved(HandleNext(sys), d)
  {
    hide InTransit, Mentions;
  }

  lemma DrainConserves(sys: System, e: Device, d: Device)
    requires Conserved(sys, d) && CleanupReady(sys, e) && sys.worker.Draining?
    ensures Conserved(CleanupNext(sys, e), d)
  {
    hide InTransit, Mentions;
    if sys.queue != [] {
      MentionsCons(sys.queue, d);
    }
  }

  lemma DestroyConserves(sys: System, e: Device, d: Device)
    requires Conserved(sys, d) && CleanupReady(sys, e) && !sys.worker.Draining?
    ensures Conserved(CleanupNext(sys, e), d)
  {
    hide InTransit, Mentions;
  }

  lemma CleanupConserves(sys: System, e: Device, d: Device)
    requires Conserved(sys, d) && CleanupReady(sys, e)
    ensures Conserved(CleanupNext(sys, e), d)
  {
    hide Conserved, CleanupNext;
    if sys.worker.Draining? {
      DrainConserves(sys, e, d);
    } else {
      DestroyConserves(sys, e, d);
    }
  }

  // ---------- Preservation: lock, queue, replay ----------

  lemma ClientKeepsLock(sys: System, i: nat, move: Move)
    requires LockInv(sys) && ClientReady(sys, i)
    ensures LockInv(ClientNext(sys, i, move))
  {
  }

  lemma ClientKeepsQueue(sys: System, i: nat, move: Move)
    requires QueueInv(sys) && ReplayInv(sys) && ClientReady(sys, i)
    ensures QueueInv(ClientNext(sys, i, move)) && ReplayInv(ClientNext(sys, i, move))
  {
    hide EventsOf, InHand, Replay, Handle, ClientRefsAfter, ClientAfter, LockAfter;
  }

  lemma LoopKeeps(sys: System, answer: Answered)
    requires LockInv(sys) && QueueInv(sys) && ReplayInv(sys) && LoopReady(sys, answer)
    ensures LockInv(LoopNext(sys, answer)) && QueueInv(LoopNext(sys, answer)) && ReplayInv(LoopNext(sys, answer))
  {
    hide EventsOf, Replay;
  }

  lemma HandleKeepsQueue(sys: System)
    requires LockInv(sys) && QueueInv(sys) && sys.worker.Busy?
    ensures LockInv(HandleNext(sys)) && QueueInv(HandleNext(sys))
  {
    assert EventsOf(sys.handled + [sys.worker.a]) == EventsOf(sys.handled) + [sys.worker.a.event];
    hide EventsOf, HandleNext;
  }

  lemma HandleReplays(sys: System)
    requires ReplayInv(sys) && sys.worker.Busy?
    ensures ReplayInv(HandleNext(sys))
  {
    hide Replay;
    if sys.worker.stage.Finishing? {
      ReplaySnoc(sys.handled, sys.worker.a);
      hide Handle;
    } else {
      StageReplays(sys);
    }
  }

  lemma StageReplays(sys: System)
    requires ReplayInv(sys) && sys.worker.Busy? && !sys.worker.stage.Finishing?
    ensures ReplayInv(HandleNext(sys))
  {
    hide Replay;
    if sys.worker.stage.Dispatching? {
      DispatchReplays(sys);
      hide HandleNext, ReplayInv;
    } else if sys.worker.stage.HasReference? {
      EnrolReplays(sys);
      hide HandleNext, ReplayInv;
    } else {
      hide Handle, OpensSession;
    }
  }

  lemma EnrolReplays(sys: System)
    requires ReplayInv(sys) && sys.worker.Busy? && sys.worker.stage.HasReference?
    ensures ReplayInv(HandleNext(sys))
  {
    hide Replay;
  }

  lemma DispatchReplays(sys: System)
    requires ReplayInv(sys) && sys.worker.Busy? && sys.worker.stage.Dispatching?
    ensures ReplayInv(HandleNext(sys))
  {
    hide Replay;
    var d := sys.worker.a.event.device;
    assert d !in sys.sessions ==> sys.sessions - {d} == sys.sessions;
  }

  lemma CleanupKeeps(sys: System, d: Device)
    requires LockInv(sys) && QueueInv(sys) && CleanupReady(sys, d)
    ensures LockInv(CleanupNext(sys, d)) && QueueInv(CleanupNext(sys, d))
  {
    hide EventsOf, Inside, CleanupNext;
  }

  lemma CleanupReplays(sys: System, d: Device)
    requires ReplayInv(sys) && CleanupReady(sys, d)
    ensures ReplayInv(CleanupNext(sys, d))
  {
    hide Replay;
  }

  lemma StepKeeps(sys: System, step: Step)
    requires Inv(sys) && Enabled(sys, step)
    ensures Inv(Do(sys, step))
  {
    hide Conserved, LockInv, QueueInv, ReplayInv, ClientNext, LoopNext, HandleNext, CleanupNext;
    match step
    case ByClient(i, move) =>
      forall d: Device ensures Conserved(ClientNext(sys, i, move), d) { ClientConserves(sys, i, move, d); }
      ClientKeepsLock(sys, i, move);
      ClientKeepsQueue(sys, i, move);
    case ByLoop(answer) =>
      forall d: Device ensures Conserved(LoopNext(sys, answer), d) { LoopConserves(sys, answer, d); }
      LoopKeeps(sys, answer);
    case ByHandler =>
      forall d: Device ensures Conserved(HandleNext(sys), d) { HandleConserves(sys, d); }
      HandleKeepsQueue(sys);
      HandleReplays(sys);
    case ByCleanup(e) =>
      forall d: Device ensures Conserved(CleanupNext(sys, e), d) { CleanupConserves(sys, e, d); }
      CleanupKeeps(sys, e);
      CleanupReplays(sys, e);
  }

  lemma NextKeeps(sys: System, sys': System)
    requires Inv(sys) && Next(sys, sys')
    ensures Inv(sys')
  {
    hide Inv, Enabled, Do;
    var step :| Enabled(sys, step) && sys' == Do(sys, step);
    StepKeeps(sys, step);
  }

  lemma StartInv(n: nat)
    ensures Inv(Start(n))
  {
    forall d: Device ensures Conserved(Start(n), d) {
      NoneInTransit(Start(n).clients, d);
    }
  }

  lemma {:induction false} NoneInTransit(clients: seq<Client>, d: Device)
    requires forall i | 0 <= i < |clients| :: clients[i].Idle?
    ensures InTransit(clients, d) == 0
    decreases |clients|
  {
    if clients != [] {
      NoneInTransit(clients[..|clients| - 1], d);
    }
  }

  lemma {:induction false} RunKeeps(n: nat, run: seq<System>, i: nat)
    requires IsRun(n, run) && i < |run|
    ensures Inv(run[i])
    decreases i
  {
    hide Inv, Next;
    if i == 0 {
      StartInv(n);
    } else {
      RunKeeps(n, run, i - 1);
      assert Next(run[i - 1], run[i - 1 + 1]);
      NextKeeps(run[i - 1], run[i]);
    }
  }

  // ---------- Main results ----------

  /**
   In every state of every interleaving, the references on each device are those of enqueue calls
   in progress, queued events, the worker's hands and the device's session, one each.
   */
  lemma ReferencesConserved(n: nat, run: seq<System>, i: nat, d: Device)
    requires IsRun(n, run) && i < |run|
    ensures Conserved(run[i], d)
    ensures run[i].worker.Waiting? ==>
              && run[i].refs[d] == InTransit(run[i].clients, d) + Mentions(run[i].queue, d) + Bit(d in run[i].sessions)
              && run[i].handles[d] == Bit(d in run[i].sessions)
  {
    hide Next, InTransit, Mentions;
    RunKeeps(n, run, i);
  }

  /** When the worker has exited and every client has returned, nothing is held any more. */
  lemma AllReleased(n: nat, run: seq<System>, i: nat)
    requires IsRun(n, run) && i < |run| && run[i].worker.Exited?
    requires forall k | 0 <= k < |run[i].clients| :: run[i].clients[k].Idle?
    ensures run[i].refs == multiset{} && run[i].handles == multiset{}
  {
    hide Next, InTransit;
    RunKeeps(n, run, i);
    forall d: Device ensures run[i].refs[d] == 0 && run[i].handles[d] == 0 {
      assert Conserved(run[i], d);
      NoneInTransit(run[i].clients, d);
    }
    assert forall d :: d !in run[i].refs && d !in run[i].handles;
  }

  /** The device whose reference the step drops. */
  function Dropped(sys: System, step: Step): (d: Option<Device>)
    requires Enabled(sys, step)
  {
    match step
    case ByClient(i, _) =>
      if sys.clients[i].Entered? && sys.stopping then Some(sys.clients[i].event.device) else None
    case ByLoop(_) => None
    case ByHandler =>
      if sys.worker.stage.HandleClosed? || sys.worker.stage.Finishing? then Some(sys.worker.a.event.device) else None
    case ByCleanup(_) =>
      if sys.worker.Destroying? then Some(sys.worker.device)
      else if sys.worker.Draining? && sys.queue != [] then Some(sys.queue[0].device)
      else None
  }

  /** No reference is released that was not taken: every drop finds one to drop. */
  lemma DropsAreBacked(n: nat, run: seq<System>, i: nat, step: Step)
    requires IsRun(n, run) && i < |run| && Enabled(run[i], step) && Dropped(run[i], step).Some?
    ensures run[i].refs[Dropped(run[i], step).value] >= 1
  {
    hide Next, InTransit, Mentions;
    RunKeeps(n, run, i);
    var d := Dropped(run[i], step).value;
    assert Conserved(run[i], d);
    if step.ByClient? {
      InTransitAtLeast(run[i].clients, step.i, d);
    } else if run[i].queue != [] {
      MentionsCons(run[i].queue, d);
    }
  }

  /** Events are handled in the order of their acceptance, and all of them before the worker leaves. */
  lemma HandledInOrder(n: nat, run: seq<System>, i: nat)
    requires IsRun(n, run) && i < |run|
    ensures EventsOf(run[i].handled) <= run[i].accepted
    ensures Leaving(run[i].worker) ==> EventsOf(run[i].handled) == run[i].accepted && run[i].queue == []
  {
    hide Next, EventsOf, Conserved, LockInv, ReplayInv;
    RunKeeps(n, run, i);
  }

  /**
   Between events the sessions are exactly the replay of the handled events: a device has one when
   an arrival of it, the target, could be opened and no departure came later.
   */
  lemma SessionsAreReplay(n: nat, run: seq<System>, i: nat)
    requires IsRun(n, run) && i < |run| && run[i].worker.Waiting?
    ensures Book(run[i].sessions, run[i].openings) == Replay(run[i].handled)
    ensures forall d :: d in run[i].sessions <==> SessionHistory.Live(run[i].handled, |run[i].handled|, d)
    ensures run[i].openings == SessionHistory.Openings(run[i].handled, |run[i].handled|)
  {
    hide Next, EventsOf, Conserved, LockInv, QueueInv, Replay;
    RunKeeps(n, run, i);
    var handled := run[i].handled;
    SessionHistory.PrefixExact(handled, |handled|);
    assert handled[..|handled|] == handled;
  }

  lemma LeavingStep(sys: System, sys': System)
    requires Inv(sys) && Next(sys, sys') && Leaving(sys.worker)
    ensures Leaving(sys'.worker) && sys'.accepted == sys.accepted && sys'.handled == sys.handled
  {
    hide Conserved, ReplayInv, LockInv, ClientRefsAfter, ClientAfter, LockAfter, CleanupNext, HandleNext;
    var step :| Enabled(sys, step) && sys' == Do(sys, step);
  }

  /** Once the worker has left its loop nothing more is ever accepted: the cleanup misses no event. */
  lemma {:induction false} NothingAcceptedLater(n: nat, run: seq<System>, i: nat, j: nat)
    requires IsRun(n, run) && i <= j < |run| && Leaving(run[i].worker)
    ensures Leaving(run[j].worker) && run[j].queue == []
    ensures run[j].accepted == run[i].accepted && EventsOf(run[j].handled) == run[i].accepted
    decreases j
  {
    hide Inv, Next, EventsOf;
    HandledInOrder(n, run, j);
    if i < j {
      NothingAcceptedLater(n, run, i, j - 1);
      RunKeeps(n, run, j - 1);
      assert Next(run[j - 1], run[j - 1 + 1]);
      LeavingStep(run[j - 1], run[j]);
      HandledInOrder(n, run, j);
    }
  }

  // ---------- No deadlock ----------

  /** Only the stop call that set the flag joins, so a joining client finds it set. */
  predicate JoinersStopped(sys: System) {
    forall k | 0 <= k < |sys.clients| ::
      sys.clients[k].Joining? || (sys.clients[k].Unlocking? && sys.clients[k].joins) ==> sys.stopping
  }

  lemma NextKeepsJoiners(sys: System, sys': System)
    requires JoinersStopped(sys) && Next(sys, sys')
    ensures JoinersStopped(sys')
  {
    hide HandleNext, CleanupNext, ClientRefsAfter;
    var step :| Enabled(sys, step) && sys' == Do(sys, step);
  }

  lemma {:induction false} JoinersFindStop(n: nat, run: seq<System>, i: nat)
    requires IsRun(n, run) && i < |run|
    ensures JoinersStopped(run[i])
    decreases i
  {
    hide Next;
    if i > 0 {
      JoinersFindStop(n, run, i - 1);
      assert Next(run[i - 1], run[i - 1 + 1]);
      NextKeepsJoiners(run[i - 1], run[i]);
    }
  }

  predicate BeginsCall(sys: System, step: Step) {
    step.ByClient? && step.i < |sys.clients| && sys.clients[step.i].Idle?
  }

  /** No call is in progress and the worker has nothing to do, or has exited. */
  predicate Quiet(sys: System) {
    && (forall k | 0 <= k < |sys.clients| :: sys.clients[k].Idle?)
    && (sys.worker.Exited? || (sys.worker.Waiting? && sys.queue == [] && !sys.stopping))
  }

  /** What the worker can do when nobody holds the mutex and it has something to do. */
  lemma WorkerMoves(sys: System) returns (step: Step)
    requires !sys.worker.Exited? && !WorkerInside(sys.worker)
    requires sys.worker.Waiting? ==> sys.lock.Nobody? && (sys.stopping || sys.queue != [])
    ensures Enabled(sys, step) && !step.ByClient?
  {
    match sys.worker
    case Waiting => step := ByLoop(Answered(Event(0, false), false, false));
    case Busy(_, _) => step := ByHandler;
    case Clearing =>
      if d :| d in sys.sessions {
        step := ByCleanup(d);
      } else {
        assert sys.sessions == map[];
        step := ByCleanup(0);
      }
    case Draining => step := ByCleanup(0);
    case Destroying(_) => step := ByCleanup(0);
  }

  lemma SomeoneMoves(sys: System) returns (step: Step)
    requires LockInv(sys) && QueueInv(sys) && JoinersStopped(sys) && !Quiet(sys)
    ensures Enabled(sys, step) && !BeginsCall(sys, step)
  {
    hide EventsOf, CleanupReady;
    var nothing := Answered(Event(0, false), false, false);
    if sys.lock.Client? {
      step := ByClient(sys.lock.index, Stop);
    } else if sys.lock.TheWorker? {
      step := ByLoop(if sys.queue == [] then nothing else nothing.(event := sys.queue[0]));
    } else if sys.worker.Exited? || (sys.worker.Waiting? && sys.queue == [] && !sys.stopping) {
      var k :| 0 <= k < |sys.clients| && !sys.clients[k].Idle?;
      step := ByClient(k, Stop);
    } else {
      step := WorkerMoves(sys);
    }
  }

  /**
   No deadlock: in every reachable state a call in progress or the worker can take a step, except
   exactly when no call is in progress and the worker has exited or has nothing to do.
   */
  lemma NoDeadlock(n: nat, run: seq<System>, i: nat)
    requires IsRun(n, run) && i < |run|
    ensures (exists step :: Enabled(run[i], step) && !BeginsCall(run[i], step)) <==> !Quiet(run[i])
  {
    hide Next, Conserved, ReplayInv;
    RunKeeps(n, run, i);
    JoinersFindStop(n, run, i);
    if !Quiet(run[i]) {
      hide Inv, LockInv, QueueInv, JoinersStopped, Enabled, Quiet;
      var step := SomeoneMoves(run[i]);
    }
  }

  // ---------- What calls achieve ----------

  /** A step changes the state of one client at most, and only that client's own step does. */
  lemma ClientMoves(sys: System, sys': System, k: nat)
    requires Next(sys, sys') && k < |sys.clients| && |sys'.clients| == |sys.clients| && sys'.clients[k] != sys.clients[k]
    ensures exists move :: ClientReady(sys, k) && sys' == ClientNext(sys, k, move)
  {
    hide HandleNext, CleanupNext, ClientAfter, ClientRefsAfter, LockAfter, Pushed;
    var step :| Enabled(sys, step) && sys' == Do(sys, step);
    assert step.ByClient? && step.i == k;
  }

  lemma {:induction false} ClientCount(n: nat, run: seq<System>, i: nat)
    requires IsRun(n, run) && i < |run|
    ensures |run[i].clients| == n
    decreases i
  {
    hide HandleNext, CleanupNext, ClientAfter, ClientRefsAfter, LockAfter, Pushed;
    if i > 0 {
      ClientCount(n, run, i - 1);
      assert Next(run[i - 1], run[i - 1 + 1]);
    }
  }

  /** An enqueue call adds its event at the end exactly when the manager is not stopping, and drops its reference otherwise. */
  lemma EnqueueAccepts(n: nat, run: seq<System>, i: nat, k: nat)
    requires IsRun(n, run) && i < |run| - 1 && k < |run[i].clients| && run[i].clients[k].Entered?
    requires k < |run[i + 1].clients| ==> !run[i + 1].clients[k].Entered?
    ensures var event := run[i].clients[k].event;
            if run[i].stopping then
              && run[i + 1].accepted == run[i].accepted && run[i + 1].queue == run[i].queue
              && run[i + 1].refs == run[i].refs - multiset{event.device}
            else
              && run[i + 1].accepted == run[i].accepted + [event] && run[i + 1].queue == run[i].queue + [event]
              && run[i + 1].refs == run[i].refs
  {
    ClientCount(n, run, i);
    ClientCount(n, run, i + 1);
    assert Next(run[i], run[i + 1]);
    hide Next;
    ClientMoves(run[i], run[i + 1], k);
  }

  lemma ExitedStays(sys: System, sys': System)
    requires Next(sys, sys') && sys.worker.Exited?
    ensures sys'.worker.Exited?
  {
    hide HandleNext, ClientAfter, ClientRefsAfter, LockAfter, Pushed;
    var step :| Enabled(sys, step) && sys' == Do(sys, step);
  }

  /** A joining client stays so until the worker has exited. */
  lemma JoinStep(sys: System, sys': System, k: nat)
    requires Next(sys, sys') && k < |sys.clients| == |sys'.clients| && !sys.worker.Exited?
    requires sys.clients[k] == Unlocking(true) || sys.clients[k].Joining?
    ensures sys'.clients[k] == Unlocking(true) || sys'.clients[k].Joining?
  {
    hide Next;
    if sys'.clients[k] != sys.clients[k] {
      ClientMoves(sys, sys', k);
    }
  }

  lemma StopSets(sys: System, sys': System, k: nat)
    requires Next(sys, sys') && k < |sys.clients| == |sys'.clients|
    requires sys.clients[k].StopEntered? && !sys.stopping && !sys'.clients[k].StopEntered?
    ensures sys'.stopping && sys'.clients[k] == Unlocking(true)
  {
    hide Next;
    ClientMoves(sys, sys', k);
  }

  lemma RunNext(n: nat, run: seq<System>, i: nat)
    requires IsRun(n, run) && i + 1 < |run|
    ensures Next(run[i], run[i + 1])
  {
    hide Next;
  }

  /** The stop call that sets the flag does not return before the worker has exited. */
  lemma {:induction false} StopReturnsLast(n: nat, run: seq<System>, i: nat, j: nat, k: nat)
    requires IsRun(n, run) && i < j < |run| && k < |run[i].clients| && run[i].clients[k].StopEntered? && !run[i].stopping
    requires k < |run[i + 1].clients| ==> !run[i + 1].clients[k].StopEntered?
    ensures run[i + 1].stopping && k < |run[j].clients|
    ensures run[j].worker.Exited? || run[j].clients[k] == Unlocking(true) || run[j].clients[k].Joining?
    decreases j
  {
    hide Next, IsRun;
    RunNext(n, run, i);
    RunNext(n, run, j - 1);
    ClientCount(n, run, i);
    ClientCount(n, run, i + 1);
    ClientCount(n, run, j);
    StopSets(run[i], run[i + 1], k);
    if j > i + 1 {
      ClientCount(n, run, j - 1);
      StopReturnsLast(n, run, i, j - 1, k);
      if run[j - 1].worker.Exited? {
        ExitedStays(run[j - 1], run[j]);
      } else {
        JoinStep(run[j - 1], run[j], k);
      }
    }
  }
}
