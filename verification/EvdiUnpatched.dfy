/**
 The same object before the patch: callers test `vmapping` without any lock, then map and store.
 Free still runs alone and unmaps once if `vmapping` is set.
 */
module EvdiUnpatched {
  import opened Wire
  import opened EvdiObject

  type Tid = nat

  /** Mapping: passed the null test; Storing: the kernel mapped; Pinned: own pages pinned. */
  datatype Caller = Mapping | Storing | Pinned | Returned(ok: bool)

  /** grabs: references taken so far (dma-buf mappings, or page pins for own pages). */
  datatype System = System(gem: Gem, callers: map<Tid, Caller>, grabs: nat, freed: bool)

  function Start(kind: Kind): (sys: System) {
    System(Fresh(kind), map[], 0, false)
  }

  predicate In(sys: System, t: Tid, c: Caller) {
    !sys.freed && t in sys.callers && sys.callers[t] == c
  }

  /** The null test of a call site, outside any lock. A caller may come again. */
  predicate Tests(sys: System, t: Tid, sys': System) {
    && !sys.freed && (t in sys.callers ==> sys.callers[t].Returned?)
    && sys' == sys.(callers := sys.callers[t := if sys.gem.mapped then Returned(true) else Mapping])
  }

  /** `dma_buf_vmap` for an imported buffer; a failure stores null through the plain-address interface only. */
  predicate Maps(sys: System, t: Tid, k: Kernel, sys': System) {
    && In(sys, t, Mapping) && !sys.gem.kind.Local?
    && sys' == if k.mapOk then
                 sys.(gem := sys.gem.(counter := sys.gem.counter + 1), callers := sys.callers[t := Storing], grabs := sys.grabs + 1)
               else
                 sys.(gem := sys.gem.(mapped := sys.gem.mapped && sys.gem.kind.ImportMap?), callers := sys.callers[t := Returned(false)])
  }

  predicate Stores(sys: System, t: Tid, sys': System) {
    && In(sys, t, Storing)
    && sys' == sys.(gem := sys.gem.(mapped := true), callers := sys.callers[t := Returned(true)])
  }

  predicate Pins(sys: System, t: Tid, k: Kernel, sys': System) {
    && In(sys, t, Mapping) && sys.gem.kind.Local?
    && sys' == if k.pinOk then
                 sys.(gem := sys.gem.(pins := sys.gem.pins + 1), callers := sys.callers[t := Pinned], grabs := sys.grabs + 1)
               else
                 sys.(callers := sys.callers[t := Returned(false)])
  }

  /** `vmap` of own pages; a failure stores null and returns with the pages still pinned. */
  predicate MapsPages(sys: System, t: Tid, k: Kernel, sys': System) {
    && In(sys, t, Pinned)
    && sys' == if k.areaOk then
                 sys.(gem := sys.gem.(areas := sys.gem.areas + 1), callers := sys.callers[t := Storing])
               else
                 sys.(gem := sys.gem.(mapped := false), callers := sys.callers[t := Returned(false)])
  }

  /** Free runs once, when no call is in progress. */
  predicate Frees(sys: System, sys': System) {
    && !sys.freed && (forall t | t in sys.callers :: sys.callers[t].Returned?)
    && sys' == sys.(gem := AfterVunmap(sys.gem), freed := true)
  }

  ghost predicate StepBy(sys: System, t: Tid, k: Kernel, sys': System) {
    || Tests(sys, t, sys')
    || Maps(sys, t, k, sys')
    || Stores(sys, t, sys')
    || Pins(sys, t, k, sys')
    || MapsPages(sys, t, k, sys')
    || Frees(sys, sys')
  }

  ghost predicate Next(sys: System, sys': System) {
    exists t: Tid, k: Kernel :: StepBy(sys, t, k, sys')
  }

  ghost predicate IsRun(kind: Kind, run: seq<System>) {
    && |run| > 0 && run[0] == Start(kind)
    && forall i | 0 <= i < |run| - 1 :: Next(run[i], run[i + 1])
  }

  /** The references that must be gone when the buffer is released. */
  function Outstanding(g: Gem): (n: int) {
    if g.kind.Local? then g.pins else g.counter
  }

  // ---------- Accounting over every run ----------

  /** Between its null test and its store a caller is in the window that the patch closes. */
  predicate InWindow(sys: System, t: Tid) {
    t in sys.callers && !sys.callers[t].Returned?
  }

  /** A caller that has taken a reference and not stored it yet. */
  predicate Held(sys: System, t: Tid) {
    t in sys.callers && (sys.callers[t].Storing? || sys.callers[t].Pinned?)
  }

  /**
   Before free every reference taken is outstanding; a stored mapping and every caller that holds a
   reference have one of their own, as far as two of these can tell.
   */
  ghost predicate Accounted(kind: Kind, sys: System) {
    && sys.gem.kind == kind
    && (forall t | t in sys.callers && sys.callers[t].Pinned? :: kind.Local?)
    && (forall t | Held(sys, t) :: sys.grabs >= 1)
    && (forall t, u | Held(sys, t) && Held(sys, u) && t != u :: sys.grabs >= 2)
    && (if sys.freed then
          !sys.gem.mapped && Outstanding(sys.gem) >= sys.grabs - 1 && forall t :: !InWindow(sys, t)
        else
          && Outstanding(sys.gem) == sys.grabs
          && (sys.gem.mapped ==> sys.grabs >= 1)
          && (forall t | Held(sys, t) && sys.gem.mapped :: sys.grabs >= 2))
  }

  lemma AccountedStep(kind: Kind, sys: System, t: Tid, k: Kernel, sys': System)
    requires Accounted(kind, sys) && StepBy(sys, t, k, sys')
    ensures Accounted(kind, sys')
  {
    assert forall u | Held(sys', u) && u != t :: Held(sys, u);
    assert Stores(sys, t, sys') || MapsPages(sys, t, k, sys') ==> Held(sys, t);
  }

  lemma {:induction false} RunAccounted(kind: Kind, run: seq<System>, i: nat)
    requires IsRun(kind, run) && i < |run|
    ensures Accounted(kind, run[i])
    decreases i
  {
    if i > 0 {
      hide Accounted, StepBy;
      RunAccounted(kind, run, i - 1);
      assert Next(run[i - 1], run[i - 1 + 1]);
      var t: Tid, k: Kernel :| StepBy(run[i - 1], t, k, run[i]);
      AccountedStep(kind, run[i - 1], t, k, run[i]);
    }
  }

  /** Free gives one reference back, and only if it is stored. */
  lemma LeftoverAfterFree(kind: Kind, run: seq<System>, i: nat)
    requires IsRun(kind, run) && i < |run| - 1 && Frees(run[i], run[i + 1])
    ensures Outstanding(run[i + 1].gem) == run[i].grabs - Bit(run[i].gem.mapped)
    ensures Outstanding(run[i + 1].gem) == 0
            <==> run[i].grabs == 0 || (run[i].grabs == 1 && run[i].gem.mapped)
  {
    hide Next;
    RunAccounted(kind, run, i);
  }

  // ---------- The schedules that leak ----------

  /** In the window at `j` and, without leaving it, holding a reference at `l`. */
  ghost predicate LandsAt(run: seq<System>, j: nat, l: nat, t: Tid) {
    j <= l < |run| && Held(run[l], t) && forall m | j <= m <= l :: InWindow(run[m], t)
  }

  /** The attempt that `t` has in progress at `j` obtains a reference, then or earlier or later. */
  ghost predicate Lands(run: seq<System>, j: nat, t: Tid) {
    exists l: nat :: LandsAt(run, j, l, t)
  }

  /** Two attempts that both obtain a reference are in the window together. */
  ghost predicate Collision(run: seq<System>) {
    exists j: nat, a: Tid, b: Tid :: a != b && Lands(run, j, a) && Lands(run, j, b)
  }

  predicate AbandonsPin(sys: System, t: Tid, sys': System) {
    t in sys.callers && sys.callers[t].Pinned? && t in sys'.callers && sys'.callers[t].Returned?
  }

  /** A failing attempt overwrites a stored mapping with null, or leaves its pin behind. */
  ghost predicate Loses(sys: System, sys': System) {
    && !sys'.freed
    && ((sys.gem.mapped && !sys'.gem.mapped) || exists t: Tid :: AbandonsPin(sys, t, sys'))
  }

  ghost predicate LosesNothing(run: seq<System>, i: nat) {
    i < |run| && forall x | 0 <= x < i :: !Loses(run[x], run[x + 1])
  }

  // ---------- A collision leaks ----------

  /** A reference that the attempt of `t` will still take. */
  function Due(sys: System, t: Tid, live: bool): (n: nat) {
    Bit(live && t in sys.callers && sys.callers[t].Mapping?)
  }

  lemma DueStep(sys: System, t: Tid, k: Kernel, sys': System, a: Tid, b: Tid, la: bool, lb: bool, la': bool, lb': bool)
    requires StepBy(sys, t, k, sys') && a != b && sys.grabs + Due(sys, a, la) + Due(sys, b, lb) >= 2
    requires Due(sys, a, la) == 1 ==> la' && InWindow(sys', a)
    requires Due(sys, b, lb) == 1 ==> lb' && InWindow(sys', b)
    ensures sys'.grabs + Due(sys', a, la') + Due(sys', b, lb') >= 2
  {
  }

  lemma {:induction false} CollisionOwes(kind: Kind, run: seq<System>, j: nat, m: nat, a: Tid, b: Tid, l: nat, l': nat)
    requires IsRun(kind, run) && a != b && LandsAt(run, j, l, a) && LandsAt(run, j, l', b) && j <= m < |run|
    ensures run[m].grabs + Due(run[m], a, m <= l) + Due(run[m], b, m <= l') >= 2
    decreases m
  {
    if m == j {
      RunAccounted(kind, run, j);
      assert InWindow(run[j], a) && InWindow(run[j], b);
      assert Due(run[j], a, true) == 1 || Held(run[j], a);
      assert Due(run[j], b, true) == 1 || Held(run[j], b);
    } else {
      CollisionOwes(kind, run, j, m - 1, a, b, l, l');
      assert Next(run[m - 1], run[m - 1 + 1]);
      var t: Tid, k: Kernel :| StepBy(run[m - 1], t, k, run[m]);
      hide StepBy;
      DueStep(run[m - 1], t, k, run[m], a, b, m - 1 <= l, m - 1 <= l', m <= l, m <= l');
    }
  }

  lemma CollisionLeaks(kind: Kind, run: seq<System>)
    requires IsRun(kind, run) && run[|run| - 1].freed && Collision(run)
    ensures Outstanding(run[|run| - 1].gem) >= 1
  {
    hide Next;
    var j: nat, a: Tid, b: Tid :| a != b && Lands(run, j, a) && Lands(run, j, b);
    var l: nat :| LandsAt(run, j, l, a);
    var l': nat :| LandsAt(run, j, l', b);
    var last := |run| - 1;
    CollisionOwes(kind, run, j, last, a, b, l, l');
    RunAccounted(kind, run, last);
    assert !InWindow(run[last], a) && !InWindow(run[last], b);
  }

  // ---------- A loss leaks ----------

  ghost predicate Leaked(sys: System) {
    if sys.freed then Outstanding(sys.gem) >= 1
    else sys.grabs >= 2 || (sys.grabs == 1 && !sys.gem.mapped && forall t :: !Held(sys, t))
  }

  lemma LossLeaks(kind: Kind, sys: System, t: Tid, k: Kernel, sys': System)
    requires Accounted(kind, sys) && StepBy(sys, t, k, sys') && Loses(sys, sys')
    ensures Leaked(sys')
  {
    assert forall u | Held(sys', u) :: Held(sys, u) && u != t;
    assert MapsPages(sys, t, k, sys') ==> Held(sys, t);
  }

  lemma LeakedStep(kind: Kind, sys: System, t: Tid, k: Kernel, sys': System)
    requires Accounted(kind, sys) && StepBy(sys, t, k, sys') && Leaked(sys)
    ensures Leaked(sys')
  {
    assert forall u | Held(sys', u) && u != t :: Held(sys, u);
    assert Stores(sys, t, sys') || MapsPages(sys, t, k, sys') ==> Held(sys, t);
  }

  lemma {:induction false} LossStays(kind: Kind, run: seq<System>, x: nat, i: nat)
    requires IsRun(kind, run) && x < i < |run| && Loses(run[x], run[x + 1])
    ensures Leaked(run[i])
    decreases i
  {
    hide Accounted, StepBy, Leaked, Loses;
    RunAccounted(kind, run, i - 1);
    assert Next(run[i - 1], run[i - 1 + 1]);
    var t: Tid, k: Kernel :| StepBy(run[i - 1], t, k, run[i]);
    if i == x + 1 {
      LossLeaks(kind, run[x], t, k, run[i]);
    } else {
      LossStays(kind, run, x, i - 1);
      LeakedStep(kind, run[i - 1], t, k, run[i]);
    }
  }

  // ---------- Nothing else leaks ----------

  /** Somebody else held a reference while `t` was already in the window where it still is. */
  ghost predicate Rivalled(run: seq<System>, m: nat, t: Tid) {
    exists j: nat, a: Tid :: RivalAt(run, j, m, a, t)
  }

  ghost predicate RivalAt(run: seq<System>, j: nat, m: nat, a: Tid, t: Tid) {
    j <= m < |run| && a != t && Held(run[j], a) && forall x | j <= x <= m :: InWindow(run[x], t)
  }

  /** A reference once taken is stored or held, and whoever is about to take another has a rival. */
  ghost predicate Tracked(run: seq<System>, m: nat) {
    && m < |run|
    && (!run[m].freed && run[m].grabs > 0 ==> run[m].gem.mapped || exists t :: Held(run[m], t))
    && (forall t | t in run[m].callers && run[m].callers[t].Mapping? && run[m].grabs > 0 :: Rivalled(run, m, t))
  }

  lemma StoredOrHeld(sys: System, t: Tid, k: Kernel, sys': System)
    requires StepBy(sys, t, k, sys') && !Loses(sys, sys') && !sys'.freed && sys'.grabs > 0
    requires sys.grabs > 0 ==> sys.gem.mapped || exists u :: Held(sys, u)
    ensures sys'.gem.mapped || exists u :: Held(sys', u)
  {
    if !sys'.gem.mapped {
      if sys'.grabs > sys.grabs {
        assert Held(sys', t);
      } else {
        var u :| Held(sys, u);
        assert !AbandonsPin(sys, u, sys');
        assert Held(sys', u);
      }
    }
  }

  /** A caller about to take a reference was so before, or has just found nothing stored. */
  lemma StillMapping(sys: System, t: Tid, k: Kernel, sys': System, u: Tid)
    requires StepBy(sys, t, k, sys') && u in sys'.callers && sys'.callers[u].Mapping? && !sys'.freed
    ensures !sys.freed
    ensures (u in sys.callers && sys.callers[u].Mapping?) || (u == t && !Held(sys, u) && !sys.gem.mapped && sys'.grabs == sys.grabs)
    ensures sys'.grabs > sys.grabs ==> u != t && Held(sys', t)
    ensures forall v | v != t && Held(sys, v) :: Held(sys', v)
  {
  }

  lemma RivalStep(run: seq<System>, m: nat, t: Tid, k: Kernel, u: Tid)
    requires m + 1 < |run| && Tracked(run, m) && StepBy(run[m], t, k, run[m + 1]) && !run[m + 1].freed
    requires u in run[m + 1].callers && run[m + 1].callers[u].Mapping? && run[m + 1].grabs > 0
    ensures Rivalled(run, m + 1, u)
  {
    hide StepBy;
    var sys, sys' := run[m], run[m + 1];
    StillMapping(sys, t, k, sys', u);
    if sys'.grabs > sys.grabs && sys.grabs == 0 {
      assert RivalAt(run, m + 1, m + 1, t, u);
    } else if u in sys.callers && sys.callers[u].Mapping? {
      var j: nat, a: Tid :| RivalAt(run, j, m, a, u);
      assert RivalAt(run, j, m + 1, a, u);
    } else {
      var a :| Held(sys, a);
      assert RivalAt(run, m + 1, m + 1, a, u);
    }
  }

  lemma {:induction false} RunTracked(kind: Kind, run: seq<System>, m: nat)
    requires IsRun(kind, run) && LosesNothing(run, m)
    ensures Tracked(run, m)
    decreases m
  {
    if m > 0 {
      hide StepBy, Loses, Rivalled;
      RunTracked(kind, run, m - 1);
      assert Next(run[m - 1], run[m - 1 + 1]);
      var t: Tid, k: Kernel :| StepBy(run[m - 1], t, k, run[m]);
      assert !Loses(run[m - 1], run[m - 1 + 1]);
      FreedIsLast(kind, run, m);
      if !run[m].freed {
        if run[m].grabs > 0 {
          StoredOrHeld(run[m - 1], t, k, run[m]);
        }
        forall u | u in run[m].callers && run[m].callers[u].Mapping? && run[m].grabs > 0 ensures Rivalled(run, m, u) {
          RivalStep(run, m - 1, t, k, u);
        }
      }
    }
  }

  /** Nothing happens after free. */
  lemma FreedIsLast(kind: Kind, run: seq<System>, m: nat)
    requires IsRun(kind, run) && 0 < m < |run|
    ensures !run[m - 1].freed
    ensures run[m].freed ==> forall t :: !InWindow(run[m], t)
  {
    RunAccounted(kind, run, m);
    assert Next(run[m - 1], run[m - 1 + 1]);
  }

  lemma GrabStep(sys: System, t: Tid, k: Kernel, sys': System)
    requires StepBy(sys, t, k, sys') && sys'.grabs > sys.grabs
    ensures sys'.grabs == sys.grabs + 1 && t in sys.callers && sys.callers[t].Mapping? && Held(sys', t)
  {
  }

  lemma {:induction false} TwoGrabsCollide(kind: Kind, run: seq<System>, m: nat)
    requires IsRun(kind, run) && LosesNothing(run, m) && run[m].grabs >= 2
    ensures Collision(run)
    decreases m
  {
    assert m > 0;
    assert Next(run[m - 1], run[m - 1 + 1]);
    if run[m - 1].grabs >= 2 {
      TwoGrabsCollide(kind, run, m - 1);
    } else {
      var t: Tid, k: Kernel :| StepBy(run[m - 1], t, k, run[m]);
      hide StepBy;
      GrabStep(run[m - 1], t, k, run[m]);
      RunTracked(kind, run, m - 1);
      assert Rivalled(run, m - 1, t);
      var j: nat, a: Tid :| RivalAt(run, j, m - 1, a, t);
      assert LandsAt(run, j, j, a);
      assert LandsAt(run, j, m, t);
      assert a != t && Lands(run, j, a) && Lands(run, j, t);
    }
  }

  lemma SafeOtherwise(kind: Kind, run: seq<System>)
    requires IsRun(kind, run) && run[|run| - 1].freed && LosesNothing(run, |run| - 1) && !Collision(run)
    ensures Outstanding(run[|run| - 1].gem) == 0
  {
    var m := |run| - 2;
    assert Next(run[m], run[m + 1]);
    FreedIsLast(kind, run, m + 1);
    assert Frees(run[m], run[m + 1]);
    hide Next, Frees, Loses, Collision;
    RunTracked(kind, run, m);
    RunAccounted(kind, run, m);
    LeftoverAfterFree(kind, run, m);
    if run[m].grabs >= 2 {
      TwoGrabsCollide(kind, run, m);
    }
  }

  /**
   The exact condition, for every kind of object and every run up to free: nothing is left behind
   if and only if no two attempts that obtain a reference overlap, and no failing attempt overwrites
   a stored mapping or abandons a pin.
   */
  lemma NothingLeftExactly(kind: Kind, run: seq<System>)
    requires IsRun(kind, run) && run[|run| - 1].freed
    ensures Outstanding(run[|run| - 1].gem) == 0 <==> !Collision(run) && LosesNothing(run, |run| - 1)
  {
    hide Next, Collision, Loses;
    var last := |run| - 1;
    if Collision(run) {
      CollisionLeaks(kind, run);
    } else if LosesNothing(run, last) {
      SafeOtherwise(kind, run);
    } else {
      var x :| 0 <= x < last && Loses(run[x], run[x + 1]);
      LossStays(kind, run, x, last);
    }
  }

  /** An iosys_map is stored only on success, and an imported buffer has no pins. */
  lemma ImportLosesNothing(run: seq<System>, i: nat)
    requires IsRun(ImportMap, run) && i < |run|
    ensures LosesNothing(run, i)
  {
    forall x | 0 <= x < i ensures !Loses(run[x], run[x + 1]) {
      RunAccounted(ImportMap, run, x);
      assert Next(run[x], run[x + 1]);
    }
  }

  /**
   Through an iosys_map, free leaves one mapping less than were taken, and none if and only if no two
   attempts that obtain a mapping overlap, whatever else fails.
   */
  lemma ImportLeftover(run: seq<System>)
    requires IsRun(ImportMap, run) && run[|run| - 1].freed
    ensures var last := run[|run| - 1];
            && last.gem.counter == (if last.grabs == 0 then 0 else last.grabs - 1)
            && (last.gem.counter == 0 <==> !Collision(run))
  {
    var m := |run| - 2;
    assert Next(run[m], run[m + 1]);
    FreedIsLast(ImportMap, run, m + 1);
    assert Frees(run[m], run[m + 1]);
    NothingLeftExactly(ImportMap, run);
    ImportLosesNothing(run, m + 1);
    assert LosesNothing(run, m);
    RunTracked(ImportMap, run, m);
    RunAccounted(ImportMap, run, m);
    hide Next, Collision, Loses;
    LeftoverAfterFree(ImportMap, run, m);
  }

  // ---------- Without overlap the old code is safe for imported buffers ----------

  ghost predicate NoOverlap(sys: System) {
    forall t, u | InWindow(sys, t) && InWindow(sys, u) :: t == u
  }

  /** The one caller in the window, if any, accounts for what is taken and not yet stored. */
  ghost predicate SerialInv(sys: System) {
    && !sys.gem.kind.Local?
    && (forall t | InWindow(sys, t) ::
          !sys.freed && !sys.gem.mapped && !sys.callers[t].Pinned? && sys.grabs == Bit(sys.callers[t].Storing?))
    && (!sys.freed && (forall t :: !InWindow(sys, t)) ==> sys.grabs == Bit(sys.gem.mapped))
    && (!sys.freed ==> Outstanding(sys.gem) == sys.grabs)
    && (sys.freed ==> Outstanding(sys.gem) == 0)
  }

  lemma SerialStep(sys: System, t: Tid, k: Kernel, sys': System)
    requires SerialInv(sys) && StepBy(sys, t, k, sys') && NoOverlap(sys) && NoOverlap(sys')
    ensures SerialInv(sys')
  {
    forall u: Tid | u != t ensures !Frees(sys, sys') ==> (InWindow(sys', u) <==> InWindow(sys, u)) {
    }
    if Frees(sys, sys') {
      forall u: Tid ensures !InWindow(sys, u) {
      }
    } else if InWindow(sys', t) && !InWindow(sys, t) {
      forall u: Tid ensures !InWindow(sys, u) {
        assert InWindow(sys', u) && InWindow(sys', t) ==> u == t;
      }
    } else if InWindow(sys, t) {
      forall u: Tid | u != t ensures !InWindow(sys', u) {
        assert InWindow(sys, u) && InWindow(sys, t) ==> u == t;
      }
    }
  }

  lemma {:induction false} SerialRunsAreSafe(kind: Kind, run: seq<System>, i: nat)
    requires IsRun(kind, run) && !kind.Local? && i < |run|
    requires forall j | 0 <= j <= i :: NoOverlap(run[j])
    ensures run[i].freed ==> Outstanding(run[i].gem) == 0
    ensures SerialInv(run[i])
    decreases i
  {
    if i > 0 {
      SerialRunsAreSafe(kind, run, i - 1);
      hide SerialInv, StepBy, NoOverlap;
      assert Next(run[i - 1], run[i - 1 + 1]);
      var t: Tid, k: Kernel :| StepBy(run[i - 1], t, k, run[i]);
      SerialStep(run[i - 1], t, k, run[i]);
    }
  }

  /** No mapping attempt has failed last time it was made. */
  ghost predicate NoFailure(sys: System) {
    forall t | t in sys.callers :: sys.callers[t] != Returned(false)
  }

  lemma LossIsFailure(sys: System, t: Tid, k: Kernel, sys': System)
    requires StepBy(sys, t, k, sys') && Loses(sys, sys')
    ensures !NoFailure(sys')
  {
    assert t in sys'.callers && sys'.callers[t] == Returned(false);
  }

  lemma WithoutFailureNoLoss(kind: Kind, run: seq<System>)
    requires IsRun(kind, run) && forall j | 0 <= j < |run| :: NoFailure(run[j])
    ensures LosesNothing(run, |run| - 1)
  {
    hide StepBy, Loses, NoFailure;
    forall x | 0 <= x < |run| - 1 ensures !Loses(run[x], run[x + 1]) {
      assert Next(run[x], run[x + 1]) && NoFailure(run[x + 1]);
      var t: Tid, k: Kernel :| StepBy(run[x], t, k, run[x + 1]);
      if Loses(run[x], run[x + 1]) {
        LossIsFailure(run[x], t, k, run[x + 1]);
      }
    }
  }

  /** Leaving the window without failure takes a reference. */
  lemma {:induction false} WindowLands(kind: Kind, run: seq<System>, j: nat, t: Tid)
    requires IsRun(kind, run) && run[|run| - 1].freed && forall m | 0 <= m < |run| :: NoFailure(run[m])
    requires j < |run| && InWindow(run[j], t)
    ensures Lands(run, j, t)
    decreases |run| - j
  {
    if Held(run[j], t) {
      assert LandsAt(run, j, j, t);
    } else {
      if j == |run| - 1 {
        RunAccounted(kind, run, j);
        assert false;
      }
      assert Next(run[j], run[j + 1]) && NoFailure(run[j + 1]);
      assert InWindow(run[j + 1], t);
      hide Next, NoFailure;
      WindowLands(kind, run, j + 1, t);
      var l: nat :| LandsAt(run, j + 1, l, t);
      assert LandsAt(run, j, l, t);
    }
  }

  lemma OverlapIsCollision(kind: Kind, run: seq<System>)
    requires IsRun(kind, run) && run[|run| - 1].freed && forall m | 0 <= m < |run| :: NoFailure(run[m])
    ensures Collision(run) <==> exists j | 0 <= j < |run| :: !NoOverlap(run[j])
  {
    hide Next, NoFailure;
    if Collision(run) {
      var j: nat, a: Tid, b: Tid :| a != b && Lands(run, j, a) && Lands(run, j, b);
      assert InWindow(run[j], a) && InWindow(run[j], b);
    }
    if j: nat :| j < |run| && !NoOverlap(run[j]) {
      var a, b :| InWindow(run[j], a) && InWindow(run[j], b) && a != b;
      WindowLands(kind, run, j, a);
      WindowLands(kind, run, j, b);
    }
  }

  /**
   When no mapping attempt fails, the old code leaves nothing behind if and only if no two callers
   are ever in the window together. For imported buffers that suffices also when attempts fail.
   */
  lemma SafeIffNoOverlap(kind: Kind, run: seq<System>)
    requires IsRun(kind, run) && run[|run| - 1].freed
    ensures (forall j | 0 <= j < |run| :: NoFailure(run[j])) ==>
              (Outstanding(run[|run| - 1].gem) == 0 <==> forall j | 0 <= j < |run| :: NoOverlap(run[j]))
    ensures !kind.Local? && (forall j | 0 <= j < |run| :: NoOverlap(run[j])) ==> Outstanding(run[|run| - 1].gem) == 0
  {
    hide Next, NoFailure, NoOverlap, Collision, Outstanding;
    if !kind.Local? && forall j | 0 <= j < |run| :: NoOverlap(run[j]) {
      SerialRunsAreSafe(kind, run, |run| - 1);
    }
    if forall j | 0 <= j < |run| :: NoFailure(run[j]) {
      NothingLeftExactly(kind, run);
      WithoutFailureNoLoss(kind, run);
      OverlapIsCollision(kind, run);
    }
  }

  // ---------- Runs that leak ----------

  /** Some run passes through `via` and ends in `sys`. */
  ghost predicate Reachable(kind: Kind, via: System, sys: System) {
    exists run: seq<System>, m: nat :: IsRun(kind, run) && m < |run| && run[m] == via && run[|run| - 1] == sys
  }

  lemma ReachStep(kind: Kind, via: System, sys: System, t: Tid, k: Kernel, sys': System)
    requires Reachable(kind, via, sys) && StepBy(sys, t, k, sys')
    ensures Reachable(kind, via, sys')
  {
    hide StepBy;
    var run: seq<System>, m: nat :| IsRun(kind, run) && m < |run| && run[m] == via && run[|run| - 1] == sys;
    var longer := run + [sys'];
    forall i | 0 <= i < |longer| - 1 ensures Next(longer[i], longer[i + 1]) {
      if i < |run| - 1 {
        assert Next(run[i], run[i + 1]);
      } else {
        assert StepBy(longer[i], t, k, longer[i + 1]);
      }
    }
    assert IsRun(kind, longer) && longer[m] == via && longer[|longer| - 1] == sys';
  }

  lemma ReachStart(kind: Kind)
    ensures Reachable(kind, Start(kind), Start(kind))
  {
    var run := [Start(kind)];
    assert IsRun(kind, run) && run[0] == Start(kind) && run[|run| - 1] == Start(kind);
  }

  lemma ReachHere(kind: Kind, via: System, sys: System)
    requires Reachable(kind, via, sys)
    ensures Reachable(kind, sys, sys)
  {
    var run: seq<System>, m: nat :| IsRun(kind, run) && m < |run| && run[m] == via && run[|run| - 1] == sys;
    assert run[|run| - 1] == sys;
  }

  const WILLING := Kernel(true, true, true)
  const NO_AREA := Kernel(true, true, false)

  /** The first `n` callers. */
  function FirstCallers(n: nat): (ts: set<Tid>)
    ensures forall t: Tid :: t in ts <==> t < n
  {
    if n == 0 then {} else FirstCallers(n - 1) + {n - 1}
  }

  /** `k` callers passed the null test and none has stored yet. */
  function Tested(kind: Kind, k: nat): (sys: System) {
    System(Fresh(kind), map t | t in FirstCallers(k) :: Mapping, 0, false)
  }

  lemma {:induction false} TestedReachable(kind: Kind, k: nat)
    ensures Reachable(kind, Start(kind), Tested(kind, k))
    decreases k
  {
    hide Reachable;
    if k == 0 {
      ReachStart(kind);
      assert Tested(kind, 0) == Start(kind);
    } else {
      TestedReachable(kind, k - 1);
      var sys, sys' := Tested(kind, k - 1), Tested(kind, k);
      assert sys'.callers == sys.callers[k - 1 := Mapping];
      ReachStep(kind, Start(kind), sys, k - 1, WILLING, sys');
    }
  }

  /** Of `n` callers that passed the test, the first `k` have mapped and stored. */
  function Raced(kind: Kind, n: nat, k: nat): (sys: System) {
    System(Gem(kind, k > 0, k, 0, 0), map t | t in FirstCallers(n) :: if t < k then Returned(true) else Mapping, k, false)
  }

  lemma {:induction false} RacedReachable(kind: Kind, n: nat, k: nat)
    requires !kind.Local? && k <= n
    ensures Reachable(kind, Tested(kind, n), Raced(kind, n, k))
    decreases k
  {
    hide Reachable;
    if k == 0 {
      TestedReachable(kind, n);
      ReachHere(kind, Start(kind), Tested(kind, n));
      assert Raced(kind, n, 0) == Tested(kind, n);
    } else {
      RacedReachable(kind, n, k - 1);
      var sys, sys' := Raced(kind, n, k - 1), Raced(kind, n, k);
      var mid := sys.(gem := sys.gem.(counter := k), callers := sys.callers[k - 1 := Storing], grabs := k);
      ReachStep(kind, Tested(kind, n), sys, k - 1, WILLING, mid);
      assert sys'.callers == mid.callers[k - 1 := Returned(true)];
      ReachStep(kind, Tested(kind, n), mid, k - 1, WILLING, sys');
    }
  }

  /**
   For every number n of callers there is a run in which all n pass the null test before any of
   them stores, and which leaves n - 1 mappings behind after free; two callers give the recorded
   remainder of one.
   */
  lemma RaceLeaks(kind: Kind, n: nat)
    requires !kind.Local? && n >= 1
    ensures exists sys :: Reachable(kind, Tested(kind, n), sys) && sys.freed && sys.gem.counter == n - 1
  {
    RacedReachable(kind, n, n);
    hide Reachable;
    var sys := Raced(kind, n, n);
    var sys' := sys.(gem := AfterVunmap(sys.gem), freed := true);
    assert Frees(sys, sys');
    ReachStep(kind, Tested(kind, n), sys, 0, WILLING, sys');
  }

  const UNWILLING := Kernel(false, false, false)

  /**
   One mapping is enough to leak when the plain-address interface is used: a second caller that passed
   the null test fails and overwrites the stored mapping with null, so free gives nothing back.
   */
  lemma NullStoreLeaks()
    ensures exists sys :: Reachable(ImportAddress, Tested(ImportAddress, 2), sys) && sys.freed && sys.grabs == 1 && sys.gem.counter == 1
  {
    RacedReachable(ImportAddress, 2, 1);
    hide Reachable;
    var via, sys := Tested(ImportAddress, 2), Raced(ImportAddress, 2, 1);
    var failed := sys.(gem := sys.gem.(mapped := false), callers := sys.callers[1 := Returned(false)]);
    ReachStep(ImportAddress, via, sys, 1, UNWILLING, failed);
    var freed := failed.(freed := true);
    assert Frees(failed, freed);
    ReachStep(ImportAddress, via, failed, 0, UNWILLING, freed);
  }

  /** `k` calls, one after the other, pinned the pages and then failed to map them. */
  function FailedLocally(k: nat): (sys: System) {
    System(Gem(Local, false, 0, k, 0), map t | t in FirstCallers(k) :: Returned(false), k, false)
  }

  lemma {:induction false} FailedLocallyReachable(k: nat)
    ensures Reachable(Local, Start(Local), FailedLocally(k))
    decreases k
  {
    hide Reachable;
    if k == 0 {
      ReachStart(Local);
      assert FailedLocally(0) == Start(Local);
    } else {
      FailedLocallyReachable(k - 1);
      var sys, sys' := FailedLocally(k - 1), FailedLocally(k);
      var tested := sys.(callers := sys.callers[k - 1 := Mapping]);
      var pinned := tested.(gem := tested.gem.(pins := k), callers := tested.callers[k - 1 := Pinned], grabs := k);
      ReachStep(Local, Start(Local), sys, k - 1, NO_AREA, tested);
      ReachStep(Local, Start(Local), tested, k - 1, NO_AREA, pinned);
      assert sys'.callers == pinned.callers[k - 1 := Returned(false)];
      ReachStep(Local, Start(Local), pinned, k - 1, NO_AREA, sys');
    }
  }

  /** Own pages leak even without a race: every failed mapping leaves its pin, and free returns none. */
  lemma FailedMappingsLeakPins(n: nat)
    ensures exists sys :: Reachable(Local, Start(Local), sys) && sys.freed && sys.gem.pins == n
  {
    FailedLocallyReachable(n);
    hide Reachable;
    var sys := FailedLocally(n);
    var sys' := sys.(freed := true);
    assert Frees(sys, sys');
    ReachStep(Local, Start(Local), sys, 0, NO_AREA, sys');
  }
}
