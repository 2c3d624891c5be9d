/** The interrupt latch shared by the transport and the signal handler. Each method is one
    atomic step; in particular the handler's own loads and its update are not interleaved with
    anything else. */
module Interrupt {
  import opened Wrappers
  import opened Wire

  const INTERRUPTED_EXIT_CODE := 130
  const CAMERA_STATE_UNKNOWN_EXIT_CODE := 3
  const U8_MAX: nat := 255

  /** Marker on an error: an interrupt was honoured, and whether a camera write came before. */
  datatype Interrupted = Interrupted(afterCameraWrite: bool)

  datatype Outcome<+T, +E> = Succeeded(value: T) | Errored(error: E)

  function ExitCode(duringCriticalWrite: bool): int {
    if duringCriticalWrite then CAMERA_STATE_UNKNOWN_EXIT_CODE else INTERRUPTED_EXIT_CODE
  }

  class InterruptLatch {
    var transactionInFlight: bool
    var criticalRegionDepth: nat
    var cameraWriteSent: bool
    var interruptsSeen: nat

    /** Interrupts recorded, drained, and dropped because the counter was full. */
    ghost var recorded: nat
    ghost var drained: nat
    ghost var dropped: nat

    ghost predicate Valid()
      reads this
    {
      interruptsSeen <= U8_MAX && recorded == drained + interruptsSeen + dropped
    }

    constructor ()
      ensures Valid() && fresh(this)
      ensures !transactionInFlight && criticalRegionDepth == 0 && !cameraWriteSent && interruptsSeen == 0
      ensures recorded == 0 && drained == 0 && dropped == 0
    {
      transactionInFlight, criticalRegionDepth, cameraWriteSent, interruptsSeen := false, 0, false, 0;
      recorded, drained, dropped := 0, 0, 0;
    }

    predicate CriticalRegionActive()
      reads this
    {
      criticalRegionDepth > 0
    }

    predicate IsDeferring()
      reads this
    {
      transactionInFlight || CriticalRegionActive()
    }

    /** Adds one, up to the counter's limit, and returns how many were pending before. */
    method RecordInterrupt() returns (seen: nat)
      requires Valid()
      modifies `interruptsSeen, `recorded, `dropped
      ensures Valid() && seen == old(interruptsSeen)
      ensures recorded == old(recorded) + 1
      ensures dropped == old(dropped) + if old(interruptsSeen) == U8_MAX then 1 else 0
    {
      seen := interruptsSeen;
      recorded := recorded + 1;
      if interruptsSeen == U8_MAX { dropped := dropped + 1; }
      interruptsSeen := if interruptsSeen == U8_MAX then U8_MAX else interruptsSeen + 1;
    }

    /** Empties the counter and returns what was in it. */
    method TakeInterrupts() returns (seen: nat)
      requires Valid()
      modifies `interruptsSeen, `drained
      ensures Valid() && seen == old(interruptsSeen) && interruptsSeen == 0
      ensures drained == old(drained) + seen
    {
      seen := interruptsSeen;
      drained := drained + seen;
      interruptsSeen := 0;
    }

    /** Inside a critical region, or with nothing pending, the result passes unchanged; otherwise
        the pending interrupts are drained and the result fails with the marker. */
    method AfterTransaction<T, E>(result: Outcome<T, E>, onInterrupted: (T, Interrupted) -> E, withContext: (E, Interrupted) -> E)
        returns (r: Outcome<T, E>)
      requires Valid()
      modifies `interruptsSeen, `drained
      ensures Valid()
      ensures criticalRegionDepth > 0 ==> r == result && interruptsSeen == old(interruptsSeen)
      ensures criticalRegionDepth == 0 ==> interruptsSeen == 0
      ensures criticalRegionDepth == 0 && old(interruptsSeen) == 0 ==> r == result
      ensures criticalRegionDepth == 0 && old(interruptsSeen) > 0 ==>
                r == Errored(match result
                            case Succeeded(v) => onInterrupted(v, Interrupted(cameraWriteSent))
                            case Errored(e) => withContext(e, Interrupted(cameraWriteSent)))
    {
      if CriticalRegionActive() { return result; }
      var pending := TakeInterrupts();
      if pending == 0 { return result; }
      var interrupted := Interrupted(cameraWriteSent);
      match result {
        case Succeeded(value) => r := Errored(onInterrupted(value, interrupted));
        case Errored(error) => r := Errored(withContext(error, interrupted));
      }
    }

    /** The signal handler: exits at once when nothing is deferring, and on the second interrupt
        otherwise. */
    method Handle() returns (exit: Option<int>)
      requires Valid()
      modifies `interruptsSeen, `recorded, `dropped
      ensures Valid()
      ensures exit.None? <==> IsDeferring() && old(interruptsSeen) == 0
      ensures exit.Some? && !IsDeferring() ==>
                exit.value == (if cameraWriteSent then 3 else 130) && interruptsSeen == old(interruptsSeen) && recorded == old(recorded)
      ensures exit.Some? && IsDeferring() ==> exit.value == if CriticalRegionActive() || cameraWriteSent then 3 else 130
      ensures exit.None? ==> interruptsSeen == 1 && recorded == old(recorded) + 1
      ensures dropped == old(dropped) + if IsDeferring() && old(interruptsSeen) == U8_MAX then 1 else 0
    {
      var writeSent := cameraWriteSent;
      if !IsDeferring() { return Some(ExitCode(writeSent)); }
      var seen := RecordInterrupt();
      var duringCriticalWrite := CriticalRegionActive();
      if seen == 0 { return None; }
      return Some(ExitCode(duringCriticalWrite || writeSent));
    }
  }

  // ---------- runs of a whole process ----------

  /** A critical region is entered by a critical camera write, which drains what is pending when
      it ends, or by a scope that restores the slot selector, which honours it like the end of a
      transaction does. */
  datatype Region = CriticalWrite | SelectorScope

  /** What a process does that concerns the latch. Transactions do not nest; regions do, and end
      in the opposite order. */
  datatype Action =
    | BeginTransaction
    | EndTransaction
    | FinishTransaction(sessionControl: bool, succeeded: bool)
    | BeginRegion(region: Region)
    | EndRegion
    | FinishRegion(succeeded: bool)
    | SendMutation(simulationAccess: bool)
    | Signal

  /** Between dropping a guard and looking at the pending interrupts a signal may still come. */
  datatype Phase = Running | TransactionOver | RegionOver(region: Region)

  /** How an interrupt surfaced: a marker on a result, the error of a critical write, or an exit. */
  datatype Surfaced = Marker(afterCameraWrite: bool) | StateUnknown | Exited(code: int)

  /** Something that surfaced, with whether a state-changing command was sent before it, and
      whether a critical region was running. */
  datatype Report = Report(writeSent: bool, inCriticalRegion: bool, surfaced: Surfaced)

  /** A report never hides that the camera may have been written to, and never claims it without
      reason. */
  predicate Honest(r: Report) {
    match r.surfaced
    case Marker(afterWrite) => afterWrite == r.writeSent
    case StateUnknown => r.inCriticalRegion
    case Exited(code) => code == if r.writeSent || r.inCriticalRegion then 3 else 130
  }

  class Process {
    const latch: InterruptLatch
    var exited: bool
    var phase: Phase
    var regions: seq<Region>

    /** Whether a mutation other than a simulation access was sent, and every report made. */
    ghost var mutationSent: bool
    ghost var reports: seq<Report>
    ghost var signals: nat

    ghost predicate Valid()
      reads this, latch
    {
      && latch.Valid() && latch.dropped == 0
      && latch.criticalRegionDepth == |regions|
      && (mutationSent <==> latch.cameraWriteSent)
      && (!exited ==> latch.interruptsSeen <= 1 && latch.recorded == signals)
      && (forall i | 0 <= i < |reports| :: Honest(reports[i]))
    }

    constructor ()
      ensures Valid() && fresh(this) && fresh(latch) && !exited && reports == [] && signals == 0
      ensures !latch.IsDeferring() && latch.interruptsSeen == 0 && latch.drained == 0
      ensures phase == Running && regions == []
    {
      latch := new InterruptLatch();
      exited, phase, regions, mutationSent, reports, signals := false, Running, [], false, [], 0;
    }

    /** The order in which the guards are taken and dropped; a signal may come at any time. */
    predicate Enabled(a: Action)
      reads this, latch
    {
      && !exited
      && match a
         case BeginTransaction => phase.Running? && !latch.transactionInFlight
         case EndTransaction => phase.Running? && latch.transactionInFlight
         case FinishTransaction(_, _) => phase.TransactionOver?
         case BeginRegion(_) => phase.Running? && !latch.transactionInFlight
         case EndRegion => phase.Running? && regions != [] && !latch.transactionInFlight
         case FinishRegion(_) => phase.RegionOver?
         case SendMutation(_) => phase.Running? && !latch.transactionInFlight
         case Signal => true
    }

    /** Something surfaced. */
    ghost method Surface(r: Report)
      requires Honest(r) && forall i | 0 <= i < |reports| :: Honest(reports[i])
      modifies this`reports
      ensures reports == old(reports) + [r] && forall i | 0 <= i < |reports| :: Honest(reports[i])
    {
      reports := reports + [r];
    }

    /** A pending interrupt is honoured, unless a critical region is still running: then its
        owner will, and neither the result nor the pending count changes. */
    method Honour(succeeded: bool) returns (ok: bool)
      requires Valid() && !exited
      modifies this`reports, this`phase, latch`interruptsSeen, latch`drained
      ensures Valid()
      ensures Honoured(succeeded, ok, old(Now()), Now())
    {
      ghost var pending := latch.interruptsSeen;
      var result: Outcome<bool, Interrupted> := if succeeded then Succeeded(true) else Errored(Interrupted(false));
      var r := latch.AfterTransaction(result, (_, i) => i, (_, i) => i);
      ok := r.Succeeded?;
      phase := Running;
      if regions == [] && pending > 0 {
        Surface(Report(mutationSent, false, Marker(r.error.afterCameraWrite)));
      }
    }

    /** `critical_camera_write` returns: pending interrupts are drained whether or not the
        operation succeeded. */
    method DrainAfterWrite(succeeded: bool) returns (ok: bool)
      requires Valid() && !exited
      modifies this`reports, this`phase, latch`interruptsSeen, latch`drained
      ensures Valid()
      ensures Drained(succeeded, ok, old(Now()), Now())
    {
      var interrupted := latch.TakeInterrupts();
      ok := succeeded && interrupted == 0;
      phase := Running;
      if succeeded && interrupted > 0 {
        Surface(Report(mutationSent, true, StateUnknown));
      }
    }

    method SignalStep()
      requires Valid() && !exited
      modifies this`exited, this`reports, this`signals, latch`interruptsSeen, latch`recorded, latch`dropped
      ensures Valid()
      ensures Signalled(old(Now()), Now())
    {
      var exit := latch.Handle();
      signals := signals + 1;
      if exit.Some? {
        exited := true;
        Surface(Report(mutationSent, regions != [], Exited(exit.value)));
      }
    }

    /** One step. Its result is whether the caller goes on with success. */
    method Step(a: Action) returns (ok: bool)
      requires Valid() && Enabled(a)
      modifies this`exited, this`phase, this`regions, this`mutationSent, this`reports, this`signals, latch
      ensures Valid()
      ensures Allowed(a, old(Now())) && StepLaw(a, ok, old(Now()), Now())
    {
      hide Honoured, Drained, Signalled;
      ok := true;
      match a {
        case BeginTransaction => latch.transactionInFlight := true;
        case EndTransaction =>
          latch.transactionInFlight := false;
          phase := TransactionOver;
        case FinishTransaction(sessionControl, succeeded) =>
          if sessionControl {
            ok := succeeded;
            phase := Running;
          } else {
            ok := Honour(succeeded);
          }
        case BeginRegion(region) =>
          regions := regions + [region];
          latch.criticalRegionDepth := latch.criticalRegionDepth + 1;
        case EndRegion =>
          phase := RegionOver(regions[|regions| - 1]);
          regions := regions[..|regions| - 1];
          latch.criticalRegionDepth := latch.criticalRegionDepth - 1;
        case FinishRegion(succeeded) =>
          if phase.region.CriticalWrite? { ok := DrainAfterWrite(succeeded); } else { ok := Honour(succeeded); }
        case SendMutation(simulationAccess) =>
          if !simulationAccess {
            latch.cameraWriteSent := true;
            mutationSent := true;
          }
        case Signal => SignalStep();
      }
    }

    /** The state as a value. */
    ghost function Now(): Snapshot
      reads this, latch
    {
      Snapshot(exited, phase, regions, latch.transactionInFlight, latch.interruptsSeen, mutationSent, signals,
               latch.drained, reports)
    }

    /** Any run, with the state before each step. */
    method Run(actions: seq<Action>) returns (done: nat, oks: seq<bool>, ghost trace: seq<Snapshot>)
      requires Valid()
      modifies this`exited, this`phase, this`regions, this`mutationSent, this`reports, this`signals, latch
      ensures Valid() && done == |oks| && |trace| == done + 1 <= |actions| + 1
      ensures done < |actions| ==> !Enabled(actions[done])
      ensures trace[0] == old(Now()) && trace[done] == Now()
      ensures IsRun(actions, oks, trace)
      ensures !exited ==> signals == latch.drained + latch.interruptsSeen && latch.interruptsSeen <= 1
      ensures forall i | 0 <= i < |reports| :: Honest(reports[i])
    {
      done, oks, trace := 0, [], [Now()];
      while done < |actions| && Enabled(actions[done])
        invariant Valid() && done == |oks| <= |actions| && |trace| == done + 1
        invariant trace[0] == old(Now()) && trace[done] == Now()
        invariant IsRun(actions, oks, trace)
      {
        var ok := Step(actions[done]);
        done, oks, trace := done + 1, oks + [ok], trace + [Now()];
      }
    }
  }

  datatype Snapshot = Snapshot(
    exited: bool,
    phase: Phase,
    regions: seq<Region>,
    inFlight: bool,
    pending: nat,
    mutationSent: bool,
    signals: nat,
    drained: nat,
    reports: seq<Report>)
  {
    predicate Deferring() { inFlight || regions != [] }
  }

  /** When the program can take the step: the guards as values. */
  predicate Allowed(a: Action, s: Snapshot) {
    && !s.exited
    && match a
       case BeginTransaction => s.phase.Running? && !s.inFlight
       case EndTransaction => s.phase.Running? && s.inFlight
       case FinishTransaction(_, _) => s.phase.TransactionOver?
       case BeginRegion(_) => s.phase.Running? && !s.inFlight
       case EndRegion => s.phase.Running? && s.regions != [] && !s.inFlight
       case FinishRegion(_) => s.phase.RegionOver?
       case SendMutation(_) => s.phase.Running? && !s.inFlight
       case Signal => true
  }

  /** A pending interrupt is honoured once no critical region is running. */
  predicate Honoured(succeeded: bool, ok: bool, s: Snapshot, t: Snapshot) {
    if s.regions != [] then
      ok == succeeded && t == s.(phase := Running)
    else
      && (ok <==> succeeded && s.pending == 0)
      && t == s.(phase := Running, pending := 0, drained := s.drained + s.pending,
                 reports := s.reports + if s.pending > 0 then [Report(s.mutationSent, false, Marker(s.mutationSent))] else [])
  }

  /** The owner of a critical write drains what is pending and reports it if the write succeeded. */
  predicate Drained(succeeded: bool, ok: bool, s: Snapshot, t: Snapshot) {
    && (ok <==> succeeded && s.pending == 0)
    && t == s.(phase := Running, pending := 0, drained := s.drained + s.pending,
               reports := s.reports + if succeeded && s.pending > 0 then [Report(s.mutationSent, true, StateUnknown)] else [])
  }

  /** The first interrupt while something defers is recorded; any other ends the process. */
  predicate Signalled(s: Snapshot, t: Snapshot) {
    if s.Deferring() && s.pending == 0 then
      t == s.(pending := 1, signals := s.signals + 1)
    else
      t == s.(exited := true, pending := t.pending, signals := s.signals + 1,
              reports := s.reports +
                [Report(s.mutationSent, s.regions != [], Exited(if s.mutationSent || s.regions != [] then 3 else 130))])
  }

  /** What one step does to the whole state. */
  predicate StepLaw(a: Action, ok: bool, s: Snapshot, t: Snapshot) {
    match a
    case BeginTransaction => ok && t == s.(inFlight := true)
    case EndTransaction => ok && t == s.(inFlight := false, phase := TransactionOver)
    case FinishTransaction(sessionControl, succeeded) =>
      if sessionControl then ok == succeeded && t == s.(phase := Running) else Honoured(succeeded, ok, s, t)
    case BeginRegion(region) => ok && t == s.(regions := s.regions + [region])
    case EndRegion =>
      && s.regions != []
      && ok && t == s.(regions := s.regions[..|s.regions| - 1], phase := RegionOver(s.regions[|s.regions| - 1]))
    case FinishRegion(succeeded) =>
      && s.phase.RegionOver?
      && if s.phase.region.SelectorScope? then Honoured(succeeded, ok, s, t)
         else Drained(succeeded, ok, s, t)
    case SendMutation(simulationAccess) => ok && t == s.(mutationSent := s.mutationSent || !simulationAccess)
    case Signal => ok && Signalled(s, t)
  }

  ghost predicate IsRun(actions: seq<Action>, oks: seq<bool>, trace: seq<Snapshot>) {
    && |trace| == |oks| + 1 <= |actions| + 1
    && forall i | 0 <= i < |oks| :: Allowed(actions[i], trace[i]) && StepLaw(actions[i], oks[i], trace[i], trace[i + 1])
  }

  /** An interrupt that comes inside an outer region stays pending until that region ends: no
      transaction and no selector scope inside it touches it or hides it from its owner. */
  lemma {:induction false} PendingWaitsForOwner(actions: seq<Action>, oks: seq<bool>, trace: seq<Snapshot>, i: nat, j: nat)
    requires IsRun(actions, oks, trace) && i <= j < |trace|
    requires forall k | i <= k <= j :: trace[k].regions != [] && !trace[k].exited
    requires forall k | i <= k < j && actions[k].FinishRegion? ::
               trace[k].phase.RegionOver? && trace[k].phase.region.SelectorScope?
    ensures trace[j].pending >= trace[i].pending && trace[j].drained == trace[i].drained
    ensures trace[j].reports == trace[i].reports
    ensures forall k | i <= k < j && (actions[k].FinishTransaction? || actions[k].FinishRegion?) :: oks[k] == actions[k].succeeded
    decreases j - i
  {
    if i < j {
      PendingWaitsForOwner(actions, oks, trace, i, j - 1);
      assert StepLaw(actions[j - 1], oks[j - 1], trace[j - 1], trace[j]);
    }
  }

  /** The report says that a write was sent. */
  predicate TellsOfWrite(r: Report) {
    r.writeSent && r.surfaced != Marker(false) && r.surfaced != Exited(130)
  }

  lemma StepTellsOfWrite(a: Action, ok: bool, s: Snapshot, t: Snapshot)
    requires StepLaw(a, ok, s, t) && s.mutationSent
    ensures t.mutationSent && s.reports <= t.reports
    ensures forall k | |s.reports| <= k < |t.reports| :: TellsOfWrite(t.reports[k])
  {}

  /** Once a mutation other than a simulation access was sent, everything that surfaces says so. */
  lemma {:induction false} WritesAreNeverHidden(actions: seq<Action>, oks: seq<bool>, trace: seq<Snapshot>, i: nat, j: nat)
    requires IsRun(actions, oks, trace) && i <= j < |trace| && trace[i].mutationSent
    ensures trace[j].mutationSent && trace[i].reports <= trace[j].reports
    ensures forall k | |trace[i].reports| <= k < |trace[j].reports| :: TellsOfWrite(trace[j].reports[k])
    decreases j - i
  {
    hide StepLaw, TellsOfWrite;
    if i < j {
      WritesAreNeverHidden(actions, oks, trace, i, j - 1);
      StepTellsOfWrite(actions[j - 1], oks[j - 1], trace[j - 1], trace[j]);
    }
  }

  // ---------- when an interrupt ends the process ----------

  /** The step empties the counter: a transaction or selector scope that ends with no region open,
      or a critical write that ends at any depth. Session control never does. */
  predicate Drains(a: Action, s: Snapshot) {
    match a
    case FinishTransaction(sessionControl, _) => !sessionControl && s.regions == []
    case FinishRegion(_) => s.phase.RegionOver? && (s.phase.region.CriticalWrite? || s.regions == [])
    case _ => false
  }

  /** No step strictly between the two drains. */
  ghost predicate Undrained(actions: seq<Action>, trace: seq<Snapshot>, k: nat, i: nat)
    requires i <= |actions| && i <= |trace|
  {
    forall d | k < d < i :: !Drains(actions[d], trace[d])
  }

  /** A signal came before, and nothing drained it since. */
  ghost predicate SignalWaits(actions: seq<Action>, trace: seq<Snapshot>, i: nat)
    requires i <= |actions| && i <= |trace|
  {
    exists k | 0 <= k < i :: actions[k].Signal? && Undrained(actions, trace, k, i)
  }

  lemma StepPending(a: Action, ok: bool, s: Snapshot, t: Snapshot)
    requires Allowed(a, s) && StepLaw(a, ok, s, t) && s.pending <= 1
    ensures !a.Signal? ==> !t.exited && t.pending == if Drains(a, s) then 0 else s.pending
    ensures a.Signal? && s.Deferring() ==> (t.exited <==> s.pending == 1)
    ensures a.Signal? && !t.exited ==> t == s.(pending := 1, signals := s.signals + 1)
    ensures a.Signal? ==> !Drains(a, s)
  {}

  /** While the process lives, an interrupt is pending exactly when a signal waits. */
  lemma {:induction false} PendingIsWaiting(actions: seq<Action>, oks: seq<bool>, trace: seq<Snapshot>, i: nat)
    requires IsRun(actions, oks, trace) && i < |trace| && trace[0].pending == 0 && !trace[i].exited
    ensures trace[i].pending <= 1 && (trace[i].pending == 1 <==> SignalWaits(actions, trace, i))
    decreases i
  {
    hide StepLaw, Drains;
    if i > 0 {
      var a, s, t := actions[i - 1], trace[i - 1], trace[i];
      assert Allowed(a, s) && StepLaw(a, oks[i - 1], s, t);
      PendingIsWaiting(actions, oks, trace, i - 1);
      StepPending(a, oks[i - 1], s, t);
      if t.pending == 1 {
        if a.Signal? {
          assert Undrained(actions, trace, i - 1, i);
        } else {
          var k :| 0 <= k < i - 1 && actions[k].Signal? && Undrained(actions, trace, k, i - 1);
          assert Undrained(actions, trace, k, i);
        }
      }
      if k :| 0 <= k < i && actions[k].Signal? && Undrained(actions, trace, k, i) {
        if k < i - 1 { assert Undrained(actions, trace, k, i - 1); }
      }
    }
  }

  /** Over every run: a signal that comes while something defers ends the process exactly when
      an earlier signal still waits. */
  lemma SignalExitsExactly(actions: seq<Action>, oks: seq<bool>, trace: seq<Snapshot>, i: nat)
    requires IsRun(actions, oks, trace) && i < |oks| && trace[0].pending == 0
    requires actions[i].Signal? && trace[i].Deferring()
    ensures trace[i + 1].exited <==> SignalWaits(actions, trace, i)
    ensures !trace[i + 1].exited ==> trace[i + 1] == trace[i].(pending := 1, signals := trace[i].signals + 1)
  {
    hide StepLaw;
    assert Allowed(actions[i], trace[i]) && StepLaw(actions[i], oks[i], trace[i], trace[i + 1]);
    PendingIsWaiting(actions, oks, trace, i);
    StepPending(actions[i], oks[i], trace[i], trace[i + 1]);
  }

  /** A session-control transaction ends with no region open while a signal waits: the only way
      one outlives everything that deferred it. */
  ghost predicate CarriesOver(actions: seq<Action>, trace: seq<Snapshot>, f: nat)
    requires f < |actions| && f < |trace|
  {
    actions[f].FinishTransaction? && actions[f].sessionControl && trace[f].regions == [] && SignalWaits(actions, trace, f)
  }

  ghost predicate CarriedInto(actions: seq<Action>, trace: seq<Snapshot>, i: nat)
    requires i <= |actions| && i <= |trace|
  {
    exists f | 0 <= f < i :: CarriesOver(actions, trace, f) && Undrained(actions, trace, f, i)
  }

  lemma StepSettles(a: Action, ok: bool, s: Snapshot, t: Snapshot)
    requires Allowed(a, s) && StepLaw(a, ok, s, t) && s.pending <= 1 && !t.exited
    requires t.pending == 1 && !t.Deferring() && t.phase.Running?
    ensures s.pending == 1 && !Drains(a, s)
    ensures (!s.Deferring() && s.phase.Running?) || (a.FinishTransaction? && a.sessionControl && s.regions == [])
  {}

  /** When nothing defers and no guard was just dropped, an interrupt is pending only if a
      session-control transaction carried it over. */
  lemma {:induction false} IdlePendingWasCarried(actions: seq<Action>, oks: seq<bool>, trace: seq<Snapshot>, b: nat)
    requires IsRun(actions, oks, trace) && b < |trace| && trace[0].pending == 0 && !trace[b].exited
    requires trace[b].pending == 1 && !trace[b].Deferring() && trace[b].phase.Running?
    ensures CarriedInto(actions, trace, b)
    decreases b
  {
    hide StepLaw, Drains, SignalWaits;
    if b > 0 {
      var a, s, t := actions[b - 1], trace[b - 1], trace[b];
      assert Allowed(a, s) && StepLaw(a, oks[b - 1], s, t);
      PendingIsWaiting(actions, oks, trace, b - 1);
      StepSettles(a, oks[b - 1], s, t);
      if !s.Deferring() && s.phase.Running? {
        IdlePendingWasCarried(actions, oks, trace, b - 1);
        var f :| 0 <= f < b - 1 && CarriesOver(actions, trace, f) && Undrained(actions, trace, f, b - 1);
        assert Undrained(actions, trace, f, b);
      } else {
        assert CarriesOver(actions, trace, b - 1) && Undrained(actions, trace, b - 1, b);
      }
    }
  }

  /** With no signal in between, what is pending was pending before and was not drained. */
  lemma {:induction false} PendingSince(actions: seq<Action>, oks: seq<bool>, trace: seq<Snapshot>, b: nat, i: nat)
    requires IsRun(actions, oks, trace) && b <= i < |trace| && trace[0].pending == 0 && !trace[i].exited
    requires trace[i].pending == 1 && forall k | b <= k < i :: !actions[k].Signal?
    ensures !trace[b].exited && trace[b].pending == 1
    ensures forall d | b <= d < i :: !Drains(actions[d], trace[d])
    decreases i - b
  {
    hide StepLaw, Drains;
    if b < i {
      var a, s, t := actions[i - 1], trace[i - 1], trace[i];
      assert Allowed(a, s) && StepLaw(a, oks[i - 1], s, t);
      PendingIsWaiting(actions, oks, trace, i - 1);
      StepPending(a, oks[i - 1], s, t);
      PendingSince(actions, oks, trace, b, i - 1);
    }
  }

  /** The first signal of a transaction or region that began with nothing deferring ends the
      process exactly when a session-control transaction before it carried one over. */
  lemma FirstInterruptIsExact(actions: seq<Action>, oks: seq<bool>, trace: seq<Snapshot>, b: nat, i: nat)
    requires IsRun(actions, oks, trace) && b < i < |oks| && trace[0].pending == 0
    requires (actions[b].BeginTransaction? || actions[b].BeginRegion?) && !trace[b].Deferring()
    requires actions[i].Signal? && trace[i].Deferring() && forall k | b < k < i :: !actions[k].Signal?
    ensures trace[i + 1].exited <==> CarriedInto(actions, trace, i)
    ensures !trace[i + 1].exited ==> trace[i + 1] == trace[i].(pending := 1, signals := trace[i].signals + 1)
  {
    hide StepLaw, Drains;
    SignalExitsExactly(actions, oks, trace, i);
    assert Allowed(actions[i], trace[i]) && Allowed(actions[b], trace[b]);
    PendingIsWaiting(actions, oks, trace, i);
    if trace[i].pending == 1 {
      PendingSince(actions, oks, trace, b, i);
      IdlePendingWasCarried(actions, oks, trace, b);
      var f :| 0 <= f < b && CarriesOver(actions, trace, f) && Undrained(actions, trace, f, b);
      assert Undrained(actions, trace, f, i);
    }
    if f :| 0 <= f < i && CarriesOver(actions, trace, f) && Undrained(actions, trace, f, i) {
      CarriedWaits(actions, trace, f, i);
    }
  }

  lemma CarriedWaits(actions: seq<Action>, trace: seq<Snapshot>, f: nat, i: nat)
    requires f < i <= |actions| && i <= |trace|
    requires CarriesOver(actions, trace, f) && Undrained(actions, trace, f, i)
    ensures SignalWaits(actions, trace, i)
  {
    var k :| 0 <= k < f && actions[k].Signal? && Undrained(actions, trace, k, f);
    assert !Drains(actions[f], trace[f]);
    assert Undrained(actions, trace, k, i);
  }

  /** So where no session-control transaction carried one over, the first signal of a transaction
      or region is only recorded. */
  lemma FirstInterruptNeverExits(actions: seq<Action>, oks: seq<bool>, trace: seq<Snapshot>, b: nat, i: nat)
    requires IsRun(actions, oks, trace) && b < i < |oks| && trace[0].pending == 0
    requires (actions[b].BeginTransaction? || actions[b].BeginRegion?) && !trace[b].Deferring()
    requires actions[i].Signal? && trace[i].Deferring() && forall k | b < k < i :: !actions[k].Signal?
    requires forall f | 0 <= f < b :: !CarriesOver(actions, trace, f)
    ensures trace[i + 1] == trace[i].(pending := 1, signals := trace[i].signals + 1)
  {
    hide StepLaw, Drains, CarriesOver;
    SignalExitsExactly(actions, oks, trace, i);
    assert Allowed(actions[i], trace[i]) && Allowed(actions[b], trace[b]);
    PendingIsWaiting(actions, oks, trace, i);
    if trace[i].pending == 1 {
      PendingSince(actions, oks, trace, b, i);
      IdlePendingWasCarried(actions, oks, trace, b);
    }
  }

  /** Nothing has happened yet. */
  function Fresh(): Snapshot { Snapshot(false, Running, [], false, 0, false, 0, 0, []) }

  /** A signal during session control, and another in what begins next. */
  function CarriedRun(next: Action): seq<Action> {
    [BeginTransaction, Signal, EndTransaction, FinishTransaction(true, true), next, Signal]
  }

  predicate Takes(a: Action, s: Snapshot, t: Snapshot) { Allowed(a, s) && StepLaw(a, true, s, t) }

  /** It does happen: a signal during a session-control transaction makes the first one of the
      next transaction, or of the next critical write, end the process. */
  lemma CarriedInterruptExits(next: Action) returns (oks: seq<bool>, trace: seq<Snapshot>)
    requires next == BeginTransaction || next == BeginRegion(CriticalWrite)
    ensures IsRun(CarriedRun(next), oks, trace) && |oks| == 6 && trace[0] == Fresh()
    ensures trace[5].Deferring() && !trace[4].Deferring() && !trace[5].exited && trace[6].exited
  {
    var s0 := Fresh();
    var s1 := s0.(inFlight := true);
    var s2 := s1.(pending := 1, signals := 1);
    var s3 := s2.(inFlight := false, phase := TransactionOver);
    var s4 := s3.(phase := Running);
    var s5 := if next.BeginTransaction? then s4.(inFlight := true) else s4.(regions := [CriticalWrite]);
    var s6 := s5.(exited := true, signals := 2,
                  reports := [Report(false, s5.regions != [], Exited(if s5.regions != [] then 3 else 130))]);
    assert Takes(BeginTransaction, s0, s1) && Takes(Signal, s1, s2) && Takes(EndTransaction, s2, s3);
    assert Takes(FinishTransaction(true, true), s3, s4) && Takes(next, s4, s5) && Takes(Signal, s5, s6);
    hide StepLaw, Allowed;
    oks, trace := [true, true, true, true, true, true], [s0, s1, s2, s3, s4, s5, s6];
  }
}
