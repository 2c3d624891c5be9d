/** The bulk writer: one container sent as full chunks, each retried from the confirmed offset
    after a partial or timed-out write. */
module BulkWrite {
  import opened Wrappers
  import opened Wire
  import opened Arithmetic
  import opened UsbLink
  import opened Deadlines
  import opened Container

  const MAX_CONTAINER_PAYLOAD_BYTES: nat := 128 * 1024 * 1024

  datatype WriteError =
    | WriteDeadline(phase: Phase, kind: Kind)
    | WriteUsb
    | ZeroWrite
    | WriteOverrun
    | BadChunkSize
    | ContainerTooLong

  datatype WriteStatus = Written | Unwritten(error: WriteError)

  /** The call offered what is left of `buffer`, which starts at offset `base` of everything the
      device has accepted. */
  predicate OffersRest(e: Event, base: nat, buffer: Bytes) {
    match e
    case WriteMoved(offset, offered, _) => base <= offset < base + |buffer| && offered == buffer[offset - base..]
    case WriteTimedOut(offset, offered) => base <= offset < base + |buffer| && offered == buffer[offset - base..]
    case WriteFailed(offset, offered) => base <= offset < base + |buffer| && offered == buffer[offset - base..]
    case _ => false
  }

  ghost predicate AllOfferRest(before: seq<Call>, after: seq<Call>, base: nat, buffer: Bytes) {
    forall i | |before| <= i < |after| :: OffersRest(after[i].event, base, buffer)
  }

  /** Why a write stopped, in terms of the calls made and the time. */
  ghost predicate WriteExplains(e: WriteError, before: seq<Call>, after: seq<Call>, now: Instant, due: Due) {
    match e
    case WriteDeadline(phase, Hard) => phase == due.pace.phase && due.hard < now + 1_000_000
    case WriteDeadline(phase, Idle) => phase == due.pace.phase && IdleIsOver(before, after, now, due)
    case WriteUsb => |after| > |before| && after[|after| - 1].event.WriteFailed?
    case ZeroWrite =>
      |after| > |before| && after[|after| - 1].event.WriteMoved? && after[|after| - 1].event.count == 0
    case WriteOverrun =>
      && |after| > |before| && after[|after| - 1].event.WriteMoved?
      && after[|after| - 1].event.count > |after[|after| - 1].event.offered|
    case _ => after == before
  }

  ghost predicate WritesSoFar(before: seq<Call>, calls: seq<Call>, base: nat, buffer: Bytes, due: Due) {
    && Continues(before, calls, TermsFor(due))
    && AllOfferRest(before, calls, base, buffer)
    && (EndsInProgress(before, calls) || calls[|calls| - 1].due.idle == due.idle)
  }

  lemma WritesSoFarStep(before: seq<Call>, calls: seq<Call>, call: Call, base: nat, buffer: Bytes, due: Due)
    requires WritesSoFar(before, calls, base, buffer, due)
    requires Bounded(call) && call.due == due && Fresh(calls, due)
    requires OffersRest(call.event, base, buffer)
    ensures Continues(before, calls + [call], TermsFor(due))
    ensures AllOfferRest(before, calls + [call], base, buffer)
    ensures Touched(before, calls + [call]) <==> Touched(before, calls) || call.event.TouchesWire()
  {
    ContinuesStep(before, calls, call, TermsFor(due));
  }

  /** The terms of calls that are due like this. */
  function TermsFor(due: Due): Terms { Terms(due.hard, {due.pace}) }

  /** The call is one the write loop makes in this state. */
  ghost predicate LoopCall(call: Call, due: Due, base: Bytes, buffer: Bytes) {
    Bounded(call) && call.due == due && OffersRest(call.event, |base|, buffer)
  }
  function AtMost(n: nat, limit: nat): nat { if n <= limit then n else limit }

  /** One bulk write of what is left of the buffer. */
  method OfferRest(link: Link, buffer: Bytes, written: nat, deadline: Deadline, ghost base: Bytes)
      returns (timeout: Timeout, r: IoResult)
    requires link.Valid() && deadline.Valid() && deadline.link == link
    requires written < |buffer| && link.accepted == base + buffer[..written]
    modifies link
    ensures link.Valid() && deadline.Valid() && link.received == old(link.received) && link.now >= old(link.now)
    ensures timeout.Exceeded? ==>
              && link.calls == old(link.calls) && link.accepted == old(link.accepted) && timeout.phase == deadline.phase
              && (timeout.kind.Hard? ==> deadline.hardExpiresAt < link.now + 1_000_000)
              && (timeout.kind.Idle? ==>
                    deadline.expiresAt < link.now + 1_000_000 <= deadline.hardExpiresAt)
    ensures timeout.Allowed? ==>
              && |link.calls| == |old(link.calls)| + 1
              && var call := link.calls[|old(link.calls)|];
              && link.calls == old(link.calls) + [call]
              && LoopCall(call, deadline.InForce(), base, buffer)
              && match r
                 case TimedOut =>
                   && call.event.WriteTimedOut? && link.accepted == old(link.accepted)
                   && old(link.now) + 1_000_000 <= deadline.hardExpiresAt
                   && link.now >= old(link.now) + 1_000_000
                 case Failed => call.event.WriteFailed? && link.accepted == old(link.accepted)
                 case Moved(n) =>
                   && call.event.WriteMoved? && call.event.count == n && |call.event.offered| == |buffer| - written
                   && link.accepted == base + buffer[..AtMost(written + n, |buffer|)]
  {
    hide Timeline;
    timeout := deadline.IoTimeout();
    r := Failed;
    if timeout.Exceeded? { return; }
    ghost var calls := link.calls;
    r := link.WriteBulk(buffer[written..], timeout.d, deadline.InForce());
    if r.Moved? {
      AcceptedGrows(base, buffer, written, r.n, link.accepted);
    } else {
      assert old(link.accepted) + [] == old(link.accepted);
    }
  }

  /** The state between two calls of one bulk write. */
  ghost predicate Writing(calls: seq<Call>, accepted: Bytes, due: Due, before: seq<Call>, base: Bytes, buffer: Bytes,
                          written: nat, dispatchedBefore: bool, dispatched: bool)
  {
    && written <= |buffer| && accepted == base + buffer[..written]
    && WritesSoFar(before, calls, |base|, buffer, due)
    && (dispatched <==> dispatchedBefore || Touched(before, calls))
    && (written == |buffer| ==> EndsInProgress(before, calls))
    && (written > 0 ==> dispatched)
  }

  /** The state in which a bulk write gives up. */
  ghost predicate GaveUp(calls: seq<Call>, accepted: Bytes, now: Instant, due: Due, before: seq<Call>, base: Bytes,
                         buffer: Bytes, dispatchedBefore: bool, dispatched: bool, e: WriteError)
  {
    && Continues(before, calls, TermsFor(due))
    && AllOfferRest(before, calls, |base|, buffer)
    && (dispatched <==> dispatchedBefore || Touched(before, calls))
    && IsPartOf(accepted, base, buffer)
    && !e.BadChunkSize? && !e.ContainerTooLong?
    && WriteExplains(e, before, calls, now, due)
  }

  datatype Step = Retry | Advanced(n: nat) | Stopped(error: WriteError)

  lemma DeadlineGivesUp(calls: seq<Call>, accepted: Bytes, now: Instant, due: Due, before: seq<Call>, base: Bytes,
                        buffer: Bytes, written: nat, dispatchedBefore: bool, dispatched: bool, e: WriteError)
    requires Writing(calls, accepted, due, before, base, buffer, written, dispatchedBefore, dispatched)
    requires e.WriteDeadline? && e.phase == due.pace.phase
    requires e.kind.Hard? ==> due.hard < now + 1_000_000
    requires e.kind.Idle? ==> due.idle < now + 1_000_000 <= due.hard
    requires Fresh(calls, due)
    ensures GaveUp(calls, accepted, now, due, before, base, buffer, dispatchedBefore, dispatched, e)
  {}

  lemma TimeoutRetries(calls: seq<Call>, call: Call, accepted: Bytes, due: Due, before: seq<Call>, base: Bytes,
                       buffer: Bytes, written: nat, dispatchedBefore: bool, dispatched: bool)
    requires Writing(calls, accepted, due, before, base, buffer, written, dispatchedBefore, dispatched)
    requires written < |buffer| && LoopCall(call, due, base, buffer) && Fresh(calls, due) && call.event.WriteTimedOut?
    ensures Writing(calls + [call], accepted, due, before, base, buffer, written, dispatchedBefore, dispatched)
  {
    WritesSoFarStep(before, calls, call, |base|, buffer, due);
  }

  lemma ZeroGivesUp(calls: seq<Call>, call: Call, accepted: Bytes, now: Instant, due: Due, before: seq<Call>, base: Bytes,
                    buffer: Bytes, written: nat, dispatchedBefore: bool, dispatched: bool)
    requires Writing(calls, accepted, due, before, base, buffer, written, dispatchedBefore, dispatched)
    requires LoopCall(call, due, base, buffer) && Fresh(calls, due) && call.event.WriteMoved? && call.event.count == 0
    ensures GaveUp(calls + [call], accepted, now, due, before, base, buffer, dispatchedBefore, dispatched, ZeroWrite)
  {
    WritesSoFarStep(before, calls, call, |base|, buffer, due);
    PrefixIsPart(base, buffer, written);
  }

  lemma FaultGivesUp(calls: seq<Call>, call: Call, accepted: Bytes, now: Instant, due: Due, before: seq<Call>, base: Bytes,
                     buffer: Bytes, written: nat, dispatchedBefore: bool, dispatched: bool)
    requires Writing(calls, accepted, due, before, base, buffer, written, dispatchedBefore, dispatched)
    requires LoopCall(call, due, base, buffer) && Fresh(calls, due) && call.event.WriteFailed?
    ensures GaveUp(calls + [call], accepted, now, due, before, base, buffer, dispatchedBefore, true, WriteUsb)
  {
    WritesSoFarStep(before, calls, call, |base|, buffer, due);
    PrefixIsPart(base, buffer, written);
  }

  lemma OverrunGivesUp(calls: seq<Call>, call: Call, accepted: Bytes, accepted': Bytes, now: Instant, due: Due,
                       before: seq<Call>, base: Bytes, buffer: Bytes, written: nat, dispatchedBefore: bool, dispatched: bool)
    requires Writing(calls, accepted, due, before, base, buffer, written, dispatchedBefore, dispatched)
    requires LoopCall(call, due, base, buffer) && Fresh(calls, due) && call.event.WriteMoved? && |call.event.offered| == |buffer| - written
    requires call.event.count > |buffer| - written && accepted' == base + buffer
    ensures GaveUp(calls + [call], accepted', now, due, before, base, buffer, dispatchedBefore, true, WriteOverrun)
  {
    WritesSoFarStep(before, calls, call, |base|, buffer, due);
    assert (base + buffer)[|base|..] == buffer;
  }

  lemma ProgressAdvances(calls: seq<Call>, call: Call, accepted: Bytes, accepted': Bytes, due: Due, before: seq<Call>,
                         base: Bytes, buffer: Bytes, written: nat, n: nat, dispatchedBefore: bool, dispatched: bool)
    requires Writing(calls, accepted, due, before, base, buffer, written, dispatchedBefore, dispatched)
    requires LoopCall(call, due, base, buffer) && Fresh(calls, due) && call.event.WriteMoved? && call.event.count > 0
    requires written + n <= |buffer| && accepted' == base + buffer[..written + n]
    ensures Writing(calls + [call], accepted', due, before, base, buffer, written + n, dispatchedBefore, true)
    ensures EndsInProgress(before, calls + [call])
  {
    WritesSoFarStep(before, calls, call, |base|, buffer, due);
  }

  /** After progress the idle expiry may move. */
  lemma IdleMoves(calls: seq<Call>, accepted: Bytes, due: Due, idle: Instant, before: seq<Call>, base: Bytes,
                  buffer: Bytes, written: nat, dispatchedBefore: bool, dispatched: bool)
    requires Writing(calls, accepted, due, before, base, buffer, written, dispatchedBefore, dispatched)
    requires EndsInProgress(before, calls)
    ensures Writing(calls, accepted, due.(idle := idle), before, base, buffer, written, dispatchedBefore, dispatched)
  {}

  /** Progress restarts the idle allowance and loses nothing of what was established. */
  method NoteProgress(link: Link, deadline: Deadline, ghost before: seq<Call>, ghost base: Bytes, ghost buffer: Bytes,
                      ghost written: nat, ghost dispatchedBefore: bool, ghost dispatched: bool)
    requires link.Valid() && deadline.Valid() && deadline.link == link
    requires Writing(link.calls, link.accepted, deadline.InForce(), before, base, buffer, written, dispatchedBefore, dispatched)
    requires EndsInProgress(before, link.calls)
    modifies link`now, link`step, deadline`expiresAt
    ensures link.Valid() && deadline.Valid() && link.now >= old(link.now)
    ensures Writing(link.calls, link.accepted, deadline.InForce(), before, base, buffer, written, dispatchedBefore, dispatched)
    ensures deadline.progressTimeout.Some? ==>
              deadline.expiresAt == Earlier(link.now + deadline.progressTimeout.value, deadline.hardExpiresAt)
    ensures Fresh(link.calls, deadline.InForce())
  {
    ghost var due := deadline.InForce();
    deadline.RecordProgress();
    IdleMoves(link.calls, link.accepted, due, deadline.expiresAt, before, base, buffer, written, dispatchedBefore, dispatched);
  }

  /** What one bulk write means for the loop: a timeout changes nothing and brings the hard
      expiry nearer, progress extends what was written, anything else gives up. */
  ghost predicate StepMeans(step: Step, calls: seq<Call>, accepted: Bytes, earlier: Instant, now: Instant, due: Due, before: seq<Call>,
                            base: Bytes, buffer: Bytes, written: nat, dispatchedBefore: bool, dispatched: bool) {
    match step
    case Retry =>
      && Writing(calls, accepted, due, before, base, buffer, written, dispatchedBefore, dispatched)
      && Fresh(calls, due) && SaturatingSince(due.hard, now) < SaturatingSince(due.hard, earlier)
    case Advanced(n) =>
      && 0 < n <= |buffer| - written && EndsInProgress(before, calls)
      && Writing(calls, accepted, due, before, base, buffer, written + n, dispatchedBefore, dispatched)
    case Stopped(e) => GaveUp(calls, accepted, now, due, before, base, buffer, dispatchedBefore, dispatched, e)
  }

  /** One bulk write and what it means for the loop. */
  method WriteStep(link: Link, buffer: Bytes, written: nat, deadline: Deadline, dispatchedSoFar: bool,
                   ghost before: seq<Call>, ghost base: Bytes, ghost dispatchedBefore: bool)
      returns (step: Step, dispatched: bool)
    requires link.Valid() && deadline.Valid() && deadline.link == link && written < |buffer|
    requires Writing(link.calls, link.accepted, deadline.InForce(), before, base, buffer, written, dispatchedBefore, dispatchedSoFar)
    requires Fresh(link.calls, deadline.InForce())
    modifies link
    ensures link.Valid() && deadline.Valid() && link.received == old(link.received) && link.now >= old(link.now)
    ensures StepMeans(step, link.calls, link.accepted, old(link.now), link.now, deadline.InForce(), before, base, buffer, written,
                      dispatchedBefore, dispatched)
  {
    ghost var calls, accepted, due, earlier := link.calls, link.accepted, deadline.InForce(), link.now;
    assert accepted == base + buffer[..written];
    hide Writing, LoopCall, Timeline, Fresh, Link.Valid, Deadline.Valid, StepMeans, AtMost, AllowanceOf;
    var timeout, r := OfferRest(link, buffer, written, deadline, base);
    step := StepOf(timeout, r, |buffer| - written);
    dispatched := dispatchedSoFar || (timeout.Allowed? && (r.Failed? || (r.Moved? && r.n != 0)));
    if timeout.Exceeded? {
      DeadlineStep(calls, accepted, earlier, link.now, due, before, base, buffer, written, dispatchedBefore, dispatched, step.error);
    } else {
      CallStep(calls, link.calls[|calls|], r, accepted, link.accepted, earlier, link.now, due, before, base, buffer, written,
               dispatchedBefore, dispatchedSoFar, step);
    }
  }

  function StepOf(timeout: Timeout, r: IoResult, offered: nat): Step {
    match timeout
    case Exceeded(phase, kind) => Stopped(WriteDeadline(phase, kind))
    case Allowed(_) =>
      match r
      case TimedOut => Retry
      case Failed => Stopped(WriteUsb)
      case Moved(n) => if n == 0 then Stopped(ZeroWrite) else if n > offered then Stopped(WriteOverrun) else Advanced(n)
  }

  lemma DeadlineStep(calls: seq<Call>, accepted: Bytes, earlier: Instant, now: Instant, due: Due, before: seq<Call>, base: Bytes,
                     buffer: Bytes, written: nat, dispatchedBefore: bool, dispatched: bool, e: WriteError)
    requires Writing(calls, accepted, due, before, base, buffer, written, dispatchedBefore, dispatched)
    requires e.WriteDeadline? && e.phase == due.pace.phase
    requires e.kind.Hard? ==> due.hard < now + 1_000_000
    requires e.kind.Idle? ==> due.idle < now + 1_000_000 <= due.hard
    requires Fresh(calls, due)
    ensures StepMeans(Stopped(e), calls, accepted, earlier, now, due, before, base, buffer, written, dispatchedBefore, dispatched)
  {
    hide Writing, GaveUp, Fresh;
    DeadlineGivesUp(calls, accepted, now, due, before, base, buffer, written, dispatchedBefore, dispatched, e);
  }

  lemma CallStep(calls: seq<Call>, call: Call, r: IoResult, accepted: Bytes, accepted': Bytes, earlier: Instant, now: Instant, due: Due,
                 before: seq<Call>, base: Bytes, buffer: Bytes, written: nat, dispatchedBefore: bool, dispatched: bool, step: Step)
    requires Writing(calls, accepted, due, before, base, buffer, written, dispatchedBefore, dispatched) && written < |buffer|
    requires LoopCall(call, due, base, buffer) && Fresh(calls, due)
    requires match r
             case TimedOut =>
               && call.event.WriteTimedOut? && accepted' == accepted
               && earlier + 1_000_000 <= due.hard && now >= earlier + 1_000_000
             case Failed => call.event.WriteFailed? && accepted' == accepted
             case Moved(n) =>
               && call.event.WriteMoved? && call.event.count == n && |call.event.offered| == |buffer| - written
               && accepted' == base + buffer[..AtMost(written + n, |buffer|)]
    requires step == StepOf(Allowed(0), r, |buffer| - written)
    ensures StepMeans(step, calls + [call], accepted', earlier, now, due, before, base, buffer, written, dispatchedBefore,
                      dispatched || r.Failed? || (r.Moved? && r.n != 0))
  {
    hide Writing, GaveUp, LoopCall, Fresh, EndsInProgress;
    match r
    case TimedOut =>
      TimeoutRetries(calls, call, accepted, due, before, base, buffer, written, dispatchedBefore, dispatched);
      StillFresh(calls, call, due);
    case Failed => FaultGivesUp(calls, call, accepted, now, due, before, base, buffer, written, dispatchedBefore, dispatched);
    case Moved(n) => MovedMeans(calls, call, accepted, accepted', now, due, before, base, buffer, written, n, dispatchedBefore, dispatched);
  }

  /** What a write that moved `n` bytes comes to. */
  lemma MovedMeans(calls: seq<Call>, call: Call, accepted: Bytes, accepted': Bytes, now: Instant, due: Due, before: seq<Call>,
                   base: Bytes, buffer: Bytes, written: nat, n: nat, dispatchedBefore: bool, dispatched: bool)
    requires Writing(calls, accepted, due, before, base, buffer, written, dispatchedBefore, dispatched)
    requires LoopCall(call, due, base, buffer) && Fresh(calls, due) && written < |buffer|
    requires call.event.WriteMoved? && call.event.count == n && |call.event.offered| == |buffer| - written
    requires accepted' == base + buffer[..AtMost(written + n, |buffer|)]
    ensures n == 0 ==>
              GaveUp(calls + [call], accepted', now, due, before, base, buffer, dispatchedBefore, dispatched, ZeroWrite)
    ensures written + n > |buffer| ==>
              GaveUp(calls + [call], accepted', now, due, before, base, buffer, dispatchedBefore, true, WriteOverrun)
    ensures 0 < n <= |buffer| - written ==>
              && Writing(calls + [call], accepted', due, before, base, buffer, written + n, dispatchedBefore, true)
              && EndsInProgress(before, calls + [call])
  {
    assert accepted == base + buffer[..written];
    hide Writing, GaveUp, LoopCall, Fresh, EndsInProgress;
    if n == 0 {
      ZeroGivesUp(calls, call, accepted, now, due, before, base, buffer, written, dispatchedBefore, dispatched);
    } else if written + n > |buffer| {
      assert buffer[..|buffer|] == buffer;
      OverrunGivesUp(calls, call, accepted, accepted', now, due, before, base, buffer, written, dispatchedBefore, dispatched);
    } else {
      ProgressAdvances(calls, call, accepted, accepted', due, before, base, buffer, written, n, dispatchedBefore, dispatched);
    }
  }

  lemma StillFresh(calls: seq<Call>, call: Call, due: Due)
    requires call.event.IsTimeout()
    ensures Fresh(calls + [call], due)
  {}

  /** One turn of the write loop: after progress the idle allowance starts again. */
  method WriteTurn(link: Link, buffer: Bytes, written: nat, deadline: Deadline, dispatchedSoFar: bool,
                   ghost before: seq<Call>, ghost base: Bytes, ghost dispatchedBefore: bool)
      returns (step: Step, dispatched: bool)
    requires link.Valid() && deadline.Valid() && deadline.link == link && written < |buffer|
    requires Writing(link.calls, link.accepted, deadline.InForce(), before, base, buffer, written, dispatchedBefore, dispatchedSoFar)
    requires Fresh(link.calls, deadline.InForce())
    modifies link, deadline
    ensures link.Valid() && deadline.Valid() && link.received == old(link.received) && link.now >= old(link.now)
    ensures !step.Advanced? ==> deadline.expiresAt == old(deadline.expiresAt)
    ensures !step.Stopped? ==> Fresh(link.calls, deadline.InForce())
    ensures match step
            case Retry =>
              && Writing(link.calls, link.accepted, deadline.InForce(), before, base, buffer, written, dispatchedBefore, dispatched)
              && SaturatingSince(deadline.hardExpiresAt, link.now)
                   < SaturatingSince(deadline.hardExpiresAt, old(link.now))
            case Advanced(n) =>
              && 0 < n <= |buffer| - written
              && Writing(link.calls, link.accepted, deadline.InForce(), before, base, buffer, written + n, dispatchedBefore, dispatched)
              && (deadline.progressTimeout.Some? ==>
                    deadline.expiresAt == Earlier(link.now + deadline.progressTimeout.value, deadline.hardExpiresAt))
            case Stopped(e) =>
              GaveUp(link.calls, link.accepted, link.now, deadline.InForce(), before, base, buffer, dispatchedBefore, dispatched, e)
  {
    hide Writing, GaveUp, Timeline, EndsInProgress, Fresh, Link.Valid, Deadline.Valid;
    step, dispatched := WriteStep(link, buffer, written, deadline, dispatchedSoFar, before, base, dispatchedBefore);
    if step.Advanced? { NoteProgress(link, deadline, before, base, buffer, written + step.n, dispatchedBefore, dispatched); }
  }

  /** `write_all_bulk`. */
  method WriteAllBulk(link: Link, buffer: Bytes, deadline: Deadline, dispatchedBefore: bool)
      returns (status: WriteStatus, dispatched: bool)
    requires link.Valid() && deadline.Valid() && deadline.link == link && Fresh(link.calls, deadline.InForce())
    modifies link, deadline
    ensures link.Valid() && deadline.Valid() && link.received == old(link.received) && link.now >= old(link.now)
    ensures status.Written? ==> Fresh(link.calls, deadline.InForce())
    ensures status.Written? ==>
              Writing(link.calls, link.accepted, deadline.InForce(), old(link.calls), old(link.accepted), buffer, |buffer|,
                      dispatchedBefore, dispatched)
    ensures status.Unwritten? ==>
              GaveUp(link.calls, link.accepted, link.now, deadline.InForce(), old(link.calls), old(link.accepted), buffer,
                     dispatchedBefore, dispatched, status.error)
  {
    dispatched := dispatchedBefore;
    var written := 0;
    NothingWritten(link.calls, link.accepted, deadline.InForce(), buffer, dispatched);
    hide Writing, GaveUp, Fresh, Link.Valid, Deadline.Valid, AllowanceOf;
    while written < |buffer|
      invariant written <= |buffer| && Fresh(link.calls, deadline.InForce())
      invariant link.Valid() && deadline.Valid() && link.received == old(link.received) && link.now >= old(link.now)
      invariant Writing(link.calls, link.accepted, deadline.InForce(), old(link.calls), old(link.accepted), buffer, written,
                        dispatchedBefore, dispatched)
      decreases |buffer| - written, SaturatingSince(deadline.hardExpiresAt, link.now)
    {
      var step;
      step, dispatched := WriteTurn(link, buffer, written, deadline, dispatched,
                                    old(link.calls), old(link.accepted), dispatchedBefore);
      match step {
        case Retry =>
        case Advanced(n) => written := written + n;
        case Stopped(e) => return Unwritten(e), dispatched;
      }
    }
    status := Written;
  }

  lemma NothingWritten(calls: seq<Call>, accepted: Bytes, due: Due, buffer: Bytes, dispatched: bool)
    requires Fresh(calls, due)
    ensures Writing(calls, accepted, due, calls, accepted, buffer, 0, dispatched, dispatched)
  {
    PrefixIsPart(accepted, buffer, 0);
  }

  lemma PrefixIsPart(base: Bytes, buffer: Bytes, written: nat)
    requires written <= |buffer|
    ensures IsPartOf(base + buffer[..written], base, buffer)
    ensures base + buffer[..0] == base
  {}

  /** What was accepted is `base` and a prefix of `message`. */
  ghost predicate IsPartOf(accepted: Bytes, base: Bytes, message: Bytes) {
    base <= accepted && accepted[|base|..] <= message
  }

  lemma AcceptedGrows(base: Bytes, buffer: Bytes, written: nat, n: nat, accepted: Bytes)
    requires written < |buffer|
    requires var rest := buffer[written..];
             accepted == base + buffer[..written] + rest[..if n <= |rest| then n else |rest|]
    ensures IsPartOf(accepted, base, buffer)
    ensures written + n <= |buffer| ==> accepted == base + buffer[..written + n]
    ensures written + n > |buffer| ==> accepted == base + buffer
  {}

  // ---------- containers ----------

  /** Where the chunk that holds offset `k` of the message ends. */
  function ChunkEnd(k: nat, chunk: nat, total: nat): nat
    requires chunk > 0
  {
    var end := (k / chunk + 1) * chunk;
    if end < total then end else total
  }

  /** The call offered the rest of the chunk it was in: every chunk but the last is full. */
  predicate OffersChunk(e: Event, base: nat, message: Bytes, chunk: nat)
    requires chunk > 0
  {
    match e
    case WriteMoved(offset, offered, _) => ChunkAt(offset, offered, base, message, chunk)
    case WriteTimedOut(offset, offered) => ChunkAt(offset, offered, base, message, chunk)
    case WriteFailed(offset, offered) => ChunkAt(offset, offered, base, message, chunk)
    case _ => false
  }

  predicate ChunkAt(offset: nat, offered: Bytes, base: nat, message: Bytes, chunk: nat)
    requires chunk > 0
  {
    && base <= offset < base + |message|
    && var end := ChunkEnd(offset - base, chunk, |message|);
    && offset - base < end <= |message|
    && offered == message[offset - base..end]
  }

  ghost predicate AllOfferChunks(before: seq<Call>, after: seq<Call>, base: nat, message: Bytes, chunk: nat)
    requires chunk > 0
  {
    forall i | |before| <= i < |after| :: OffersChunk(after[i].event, base, message, chunk)
  }

  /** Offering the rest of the `j`-th chunk. */
  lemma RestIsChunk(e: Event, base: nat, message: Bytes, chunk: nat, j: nat, start: nat, end: nat)
    requires chunk > 0 && start == ChunkStart(j, chunk) < |message|
    requires end == if start + chunk < |message| then start + chunk else |message|
    requires OffersRest(e, base + start, message[start..end])
    ensures OffersChunk(e, base, message, chunk)
  {
    var offset, offered := e.offset, e.offered;
    var k := offset - base;
    assert start <= k < end;
    RemainderIsUnique(k, chunk, j, k - start);
    assert (j + 1) * chunk == start + chunk;
    assert ChunkEnd(k, chunk, |message|) == end;
    assert message[start..end][offset - (base + start)..] == message[k..end];
  }

  /** What sending the first `pos` bytes of a message leaves behind. */
  ghost predicate SentSoFar(before: seq<Call>, calls: seq<Call>, base: nat, message: Bytes, chunk: nat, terms: Terms)
    requires chunk > 0
  {
    && Continues(before, calls, terms) && EndsInProgress(before, calls)
    && AllOfferChunks(before, calls, base, message, chunk)
  }

  lemma ChunkSent(before: seq<Call>, mid: seq<Call>, after: seq<Call>, base: nat, message: Bytes, chunk: nat,
                  j: nat, start: nat, end: nat, terms: Terms)
    requires chunk > 0 && start == ChunkStart(j, chunk) < |message|
    requires end == if start + chunk < |message| then start + chunk else |message|
    requires SentSoFar(before, mid, base, message, chunk, terms)
    requires Continues(mid, after, terms) && AllOfferRest(mid, after, base + start, message[start..end])
    ensures Continues(before, after, terms) && AllOfferChunks(before, after, base, message, chunk)
    ensures EndsInProgress(mid, after) ==> EndsInProgress(before, after)
    ensures Touched(before, after) <==> Touched(before, mid) || Touched(mid, after)
  {
    ContinuesTrans(before, mid, after, terms);
    forall i | |before| <= i < |after| ensures OffersChunk(after[i].event, base, message, chunk) {
      if i < |mid| {
        assert after[..|mid|][i] == mid[i];
      } else {
        RestIsChunk(after[i].event, base, message, chunk, j, start, end);
      }
    }
  }

  /** The bytes one container puts on the wire. */
  function Message(kind: ContainerType, code: CommandCode, transactionId: U32, payload: Bytes): Bytes {
    match NewInfo(kind, code, transactionId, |payload|)
    case None => []
    case Some(info) => ContainerBytes(info, payload)
  }

  /** The same field by field: the whole length, the kind, the operation code, the transaction id,
      the payload. */
  lemma MessageOnTheWire(kind: ContainerType, code: CommandCode, transactionId: U32, payload: Bytes)
    requires |payload| < 0xFFFF_FFF4 && (kind.CommandBlock? || kind.DataBlock?)
    ensures Message(kind, code, transactionId, payload) ==
              LeBytes(12 + |payload|, 4) + LeBytes(if kind.CommandBlock? then 1 else 2, 2) + LeBytes(code.Code(), 2)
              + LeBytes(transactionId, 4) + payload
  {
    HeaderOnTheWire(NewInfo(kind, code, transactionId, |payload|).value, payload);
    HeaderOnTheWire(NewInfo(kind, code, transactionId, |payload|).value, []);
    hide LeBytes, PutHeader, CommandCode.Code;
  }

  /** The state between two chunks of one container. */
  ghost predicate Sending(calls: seq<Call>, accepted: Bytes, terms: Terms, before: seq<Call>, base: Bytes, message: Bytes,
                          chunk: nat, sent: nat, dispatchedBefore: bool, dispatched: bool)
    requires chunk > 0
  {
    && sent <= |message| && accepted == base + message[..sent]
    && SentSoFar(before, calls, |base|, message, chunk, terms)
    && (dispatched <==> dispatchedBefore || Touched(before, calls))
    && (sent > 0 ==> dispatched)
  }

  /** The state in which sending a container gives up. */
  ghost predicate Abandoned(calls: seq<Call>, accepted: Bytes, now: Instant, due: Due, before: seq<Call>, base: Bytes,
                            message: Bytes, chunk: nat, dispatchedBefore: bool, dispatched: bool, e: WriteError)
    requires chunk > 0
  {
    && Continues(before, calls, TermsFor(due))
    && AllOfferChunks(before, calls, |base|, message, chunk)
    && (dispatched <==> dispatchedBefore || Touched(before, calls))
    && IsPartOf(accepted, base, message)
    && !e.BadChunkSize? && !e.ContainerTooLong?
    && WriteExplains(e, before, calls, now, due)
  }

  function ChunkStart(j: nat, chunk: nat): nat { j * chunk }

  lemma NextChunkStart(j: nat, chunk: nat)
    ensures ChunkStart(j + 1, chunk) == ChunkStart(j, chunk) + chunk && ChunkStart(0, chunk) == 0
  {}

  /** The `j`-th chunk went out. */
  lemma ChunkOut(mid: seq<Call>, midAccepted: Bytes, calls: seq<Call>, accepted: Bytes, due: Due,
                 before: seq<Call>, base: Bytes, message: Bytes, chunk: nat, j: nat, start: nat, end: nat,
                 dispatchedBefore: bool, dispatchedMid: bool, dispatched: bool)
    requires 0 < chunk && start == ChunkStart(j, chunk) < |message|
    requires end == if start + chunk < |message| then start + chunk else |message|
    requires Sending(mid, midAccepted, TermsFor(due), before, base, message, chunk, start, dispatchedBefore, dispatchedMid)
    requires Writing(calls, accepted, due, mid, midAccepted, message[start..end], end - start, dispatchedMid, dispatched)
    ensures Sending(calls, accepted, TermsFor(due), before, base, message, chunk, end, dispatchedBefore, dispatched)
  {
    hide Continues, EndsInProgress, Touched, AllOfferRest, AllOfferChunks, ChunkStart;
    ChunkSent(before, mid, calls, |base|, message, chunk, j, start, end, TermsFor(due));
    assert message[start..end][..end - start] == message[start..end];
    assert message[..start] + message[start..end] == message[..end];
  }

  /** The `j`-th chunk did not go out. */
  lemma ChunkFailed(mid: seq<Call>, midAccepted: Bytes, calls: seq<Call>, accepted: Bytes, now: Instant, due: Due,
                    before: seq<Call>, base: Bytes, message: Bytes, chunk: nat, j: nat, start: nat, end: nat,
                    dispatchedBefore: bool, dispatchedMid: bool, dispatched: bool, e: WriteError)
    requires 0 < chunk && start == ChunkStart(j, chunk) < |message|
    requires end == if start + chunk < |message| then start + chunk else |message|
    requires Sending(mid, midAccepted, TermsFor(due), before, base, message, chunk, start, dispatchedBefore, dispatchedMid)
    requires GaveUp(calls, accepted, now, due, mid, midAccepted, message[start..end], dispatchedMid, dispatched, e)
    ensures Abandoned(calls, accepted, now, due, before, base, message, chunk, dispatchedBefore, dispatched, e)
  {
    assert |before| <= |mid|;
    hide Continues, EndsInProgress, Touched, AllOfferRest, AllOfferChunks, ChunkStart;
    ChunkSent(before, mid, calls, |base|, message, chunk, j, start, end, TermsFor(due));
    PartOfLater(accepted, midAccepted, base, message, start, end);
    ExplainsLonger(e, before, mid, calls, now, due);
  }

  /** The bytes are the chunk of the message that starts there. */
  predicate IsChunk(bytes: Bytes, message: Bytes, start: nat, chunk: nat) {
    start < |message| && bytes == message[start..if start + chunk < |message| then start + chunk else |message|]
  }

  /** Sends the `j`-th chunk. */
  method WriteChunk(link: Link, chunkSize: nat, bytes: Bytes, deadline: Deadline, dispatchedSoFar: bool,
                    ghost j: nat, ghost start: nat, ghost message: Bytes,
                    ghost before: seq<Call>, ghost base: Bytes, ghost dispatchedBefore: bool)
      returns (status: WriteStatus, dispatched: bool)
    requires link.Valid() && deadline.Valid() && deadline.link == link && Fresh(link.calls, deadline.InForce())
    requires 0 < chunkSize && start == ChunkStart(j, chunkSize) < |message|
    requires IsChunk(bytes, message, start, chunkSize)
    requires Sending(link.calls, link.accepted, TermsOf(deadline), before, base, message, chunkSize, start,
                     dispatchedBefore, dispatchedSoFar)
    modifies link, deadline
    ensures link.Valid() && deadline.Valid() && link.received == old(link.received) && link.now >= old(link.now)
    ensures status.Written? ==>
              && Fresh(link.calls, deadline.InForce())
              && Sending(link.calls, link.accepted, TermsOf(deadline), before, base, message, chunkSize,
                         start + |bytes|, dispatchedBefore, dispatched)
    ensures status.Unwritten? ==>
              Abandoned(link.calls, link.accepted, link.now, deadline.InForce(), before, base, message, chunkSize,
                        dispatchedBefore, dispatched, status.error)
  {
    hide Writing, GaveUp, Sending, Abandoned, Fresh;
    ghost var calls, accepted, end := link.calls, link.accepted, start + |bytes|;
    status, dispatched := WriteAllBulk(link, bytes, deadline, dispatchedSoFar);
    match status {
      case Written =>
        ChunkOut(calls, accepted, link.calls, link.accepted, deadline.InForce(), before, base, message, chunkSize,
                 j, start, end, dispatchedBefore, dispatchedSoFar, dispatched);
      case Unwritten(e) =>
        ChunkFailed(calls, accepted, link.calls, link.accepted, link.now, deadline.InForce(), before, base, message,
                    chunkSize, j, start, end, dispatchedBefore, dispatchedSoFar, dispatched, e);
    }
  }

  /** Header and payload in full chunks: the first holds the header and what fits beside it. */
  method WriteChunks(link: Link, chunkSize: nat, header: Bytes, payload: Bytes, deadline: Deadline, dispatchedBefore: bool)
      returns (status: WriteStatus, dispatched: bool)
    requires link.Valid() && deadline.Valid() && deadline.link == link && Fresh(link.calls, deadline.InForce())
    requires 0 < |header| < chunkSize
    modifies link, deadline
    ensures link.Valid() && deadline.Valid() && link.received == old(link.received) && link.now >= old(link.now)
    ensures status.Written? ==>
              Sending(link.calls, link.accepted, TermsOf(deadline), old(link.calls), old(link.accepted), header + payload,
                      chunkSize, |header + payload|, dispatchedBefore, dispatched)
    ensures status.Unwritten? ==>
              Abandoned(link.calls, link.accepted, link.now, deadline.InForce(), old(link.calls), old(link.accepted),
                        header + payload, chunkSize, dispatchedBefore, dispatched, status.error)
  {
    ghost var message := header + payload;
    NothingSent(link.calls, link.accepted, TermsOf(deadline), message, chunkSize, dispatchedBefore);
    hide Writing, GaveUp, Sending, Abandoned, ChunkStart, IsChunk, Timeline, Fresh;
    NextChunkStart(0, chunkSize);
    var firstPayloadLen := if |payload| < chunkSize - |header| then |payload| else chunkSize - |header|;
    var firstChunk := header + payload[..firstPayloadLen];
    FirstSlice(header, payload, firstPayloadLen, chunkSize);
    status, dispatched := WriteChunk(link, chunkSize, firstChunk, deadline, dispatchedBefore,
                                     0, 0, message, link.calls, link.accepted, dispatchedBefore);
    if status.Unwritten? { return; }
    if firstPayloadLen < |payload| {
      status, dispatched := WriteTail(link, chunkSize, payload, firstPayloadLen, deadline, dispatched,
                                      header, old(link.calls), old(link.accepted), dispatchedBefore);
    }
  }

  /** The payload after the first chunk, in full chunks. */
  method WriteTail(link: Link, chunkSize: nat, payload: Bytes, from: nat, deadline: Deadline, dispatchedSoFar: bool,
                   ghost header: Bytes, ghost before: seq<Call>, ghost base: Bytes, ghost dispatchedBefore: bool)
      returns (status: WriteStatus, dispatched: bool)
    requires link.Valid() && deadline.Valid() && deadline.link == link && Fresh(link.calls, deadline.InForce())
    requires 0 < chunkSize == |header| + from && from < |payload|
    requires Sending(link.calls, link.accepted, TermsOf(deadline), before, base, header + payload, chunkSize, chunkSize,
                     dispatchedBefore, dispatchedSoFar)
    modifies link, deadline
    ensures link.Valid() && deadline.Valid() && link.received == old(link.received) && link.now >= old(link.now)
    ensures status.Written? ==>
              Sending(link.calls, link.accepted, TermsOf(deadline), before, base, header + payload, chunkSize,
                      |header + payload|, dispatchedBefore, dispatched)
    ensures status.Unwritten? ==>
              Abandoned(link.calls, link.accepted, link.now, deadline.InForce(), before, base, header + payload, chunkSize,
                        dispatchedBefore, dispatched, status.error)
  {
    hide Writing, GaveUp, Sending, Abandoned, ChunkStart, IsChunk, Timeline, Fresh;
    ghost var message := header + payload;
    status, dispatched := Written, dispatchedSoFar;
    var pos := from;
    ghost var j := 1;
    NextChunkStart(0, chunkSize);
    while pos < |payload|
      invariant pos <= |payload| && Fresh(link.calls, deadline.InForce())
      invariant pos < |payload| ==> |header| + pos == ChunkStart(j, chunkSize)
      invariant link.Valid() && deadline.Valid() && link.received == old(link.received) && link.now >= old(link.now)
      invariant Sending(link.calls, link.accepted, TermsOf(deadline), before, base, message, chunkSize, |header| + pos,
                        dispatchedBefore, dispatched)
    {
      var size := if |payload| - pos < chunkSize then |payload| - pos else chunkSize;
      PayloadSlice(header, payload, pos, size, chunkSize);
      status, dispatched := WriteChunk(link, chunkSize, payload[pos..pos + size], deadline, dispatched,
                                       j, |header| + pos, message, before, base, dispatchedBefore);
      if status.Unwritten? { return; }
      NextChunkStart(j, chunkSize);
      pos, j := pos + size, j + 1;
    }
    status := Written;
  }

  lemma FirstSlice(header: Bytes, payload: Bytes, n: nat, chunk: nat)
    requires 0 < |header| < chunk && n == if |payload| < chunk - |header| then |payload| else chunk - |header|
    ensures IsChunk(header + payload[..n], header + payload, 0, chunk)
  {
    assert (header + payload)[0..|header| + n] == header + payload[..n];
  }

  lemma PayloadSlice(header: Bytes, payload: Bytes, pos: nat, size: nat, chunk: nat)
    requires pos < |payload| && size == if |payload| - pos < chunk then |payload| - pos else chunk
    ensures IsChunk(payload[pos..pos + size], header + payload, |header| + pos, chunk)
  {
    assert (header + payload)[|header| + pos..|header| + pos + size] == payload[pos..pos + size];
  }

  lemma NothingSent(calls: seq<Call>, accepted: Bytes, terms: Terms, message: Bytes, chunk: nat, dispatched: bool)
    requires chunk > 0
    ensures Sending(calls, accepted, terms, calls, accepted, message, chunk, 0, dispatched, dispatched)
  {}

  lemma ExplainsLonger(e: WriteError, a: seq<Call>, b: seq<Call>, c: seq<Call>, now: Instant, due: Due)
    requires |a| <= |b| <= |c| && c[..|b|] == b && EndsInProgress(a, b) && WriteExplains(e, b, c, now, due)
    requires !e.BadChunkSize? && !e.ContainerTooLong?
    ensures WriteExplains(e, a, c, now, due)
  {
    hide Fresh, EndsInProgress;
    if e.WriteDeadline? && e.kind.Idle? { IdleIsOverLonger(a, b, c, now, due); }
  }

  /** Why a write stopped, whatever the idle expiry was then. */
  ghost predicate WriteStoppedBy(e: WriteError, before: seq<Call>, after: seq<Call>, now: Instant, hard: Instant, pace: Pace) {
    exists idle :: WriteExplains(e, before, after, now, Due(idle, hard, pace))
  }

  lemma WriteStoppedLater(e: WriteError, a: seq<Call>, b: seq<Call>, c: seq<Call>, now: Instant, hard: Instant, pace: Pace)
    requires |a| <= |b| <= |c| && c[..|b|] == b && EndsInProgress(a, b) && WriteStoppedBy(e, b, c, now, hard, pace)
    requires !e.BadChunkSize? && !e.ContainerTooLong?
    ensures WriteStoppedBy(e, a, c, now, hard, pace)
  {
    hide WriteExplains, EndsInProgress;
    var idle :| WriteExplains(e, b, c, now, Due(idle, hard, pace));
    ExplainsLonger(e, a, b, c, now, Due(idle, hard, pace));
  }

  predicate LegalChunkSize(chunkSize: nat) {
    12 < chunkSize <= 134_217_740
  }

  /** `write_container`. */
  method WriteContainer(link: Link, chunkSize: nat, kind: ContainerType, code: CommandCode, payload: Bytes,
                        transactionId: U32, deadline: Deadline, dispatchedBefore: bool)
      returns (status: WriteStatus, dispatched: bool)
    requires link.Valid() && deadline.Valid() && deadline.link == link && Fresh(link.calls, deadline.InForce())
    modifies link, deadline
    ensures link.Valid() && deadline.Valid() && link.received == old(link.received) && link.now >= old(link.now)
    ensures Continues(old(link.calls), link.calls, TermsOf(deadline))
    ensures dispatched <==> dispatchedBefore || Touched(old(link.calls), link.calls)
    ensures OnlyWrites(old(link.calls), link.calls)
    ensures status == Unwritten(BadChunkSize) <==> !LegalChunkSize(chunkSize)
    ensures status == Unwritten(ContainerTooLong) <==>
              LegalChunkSize(chunkSize) && |payload| >= 0xFFFF_FFF4
    ensures LegalChunkSize(chunkSize) ==>
              AllOfferChunks(old(link.calls), link.calls, |old(link.accepted)|,
                             Message(kind, code, transactionId, payload), chunkSize)
    ensures status.Written? ==>
              && link.accepted == old(link.accepted) + Message(kind, code, transactionId, payload)
              && EndsInProgress(old(link.calls), link.calls) && dispatched
    ensures status.Unwritten? ==>
              && IsPartOf(link.accepted, old(link.accepted), Message(kind, code, transactionId, payload))
              && WriteExplains(status.error, old(link.calls), link.calls, link.now, deadline.InForce())
  {
    if chunkSize <= HEADER_SIZE || chunkSize > HEADER_SIZE + MAX_CONTAINER_PAYLOAD_BYTES {
      return Unwritten(BadChunkSize), dispatchedBefore;
    }
    var info := NewInfo(kind, code, transactionId, |payload|);
    if info.None? { return Unwritten(ContainerTooLong), dispatchedBefore; }
    var header := PutHeader(info.value, []);
    HeaderIsPrefix(info.value, []);
    ghost var message := header + payload;
    status, dispatched := WriteChunks(link, chunkSize, header, payload, deadline, dispatchedBefore);
    assert message[..|message|] == message;
    ChunksAreWrites(old(link.calls), link.calls, |old(link.accepted)|, message, chunkSize);
  }

  lemma ChunksAreWrites(before: seq<Call>, after: seq<Call>, base: nat, message: Bytes, chunk: nat)
    requires chunk > 0 && AllOfferChunks(before, after, base, message, chunk)
    ensures OnlyWrites(before, after)
  {}

  lemma PartOfLater(accepted: Bytes, mid: Bytes, base: Bytes, message: Bytes, start: nat, end: nat)
    requires start <= end <= |message| && mid == base + message[..start]
    requires IsPartOf(accepted, mid, message[start..end])
    ensures IsPartOf(accepted, base, message)
  {}
}
