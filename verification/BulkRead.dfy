/** The buffered bulk reader: rebuilds the device's byte stream from transfers cut anywhere. */
module BulkRead {
  import opened Wrappers
  import opened Wire
  import opened UsbLink
  import opened Deadlines
  import opened Container

  const MAX_BULK_READ_CHUNK_BYTES: nat := 16 * 1024 * 1024

  datatype ReadError =
    | ReadDeadline(phase: Phase, kind: Kind)
    | ReadUsb
    | Truncated
    | Overrun

  datatype ReadStatus = Complete | Broken(error: ReadError)

  /** The last transfer that was not a timeout filled its buffer, so one zero-length transfer
      may follow to end it. */
  ghost predicate LastReadFilled(calls: seq<Call>) {
    calls != [] &&
    var last := calls[|calls| - 1].event;
    match last
    case ReadMoved(room, data) => data != [] && |data| == room
    case _ => LastReadFilled(calls[..|calls| - 1])
  }

  /** Call `i` is one a successful read may contain. */
  ghost predicate Clean(calls: seq<Call>, i: nat)
    requires i < |calls|
  {
    match calls[i].event
    case ReadTimedOut => true
    case ReadMoved(room, data) => |data| <= room && (data == [] ==> LastReadFilled(calls[..i]))
    case _ => false
  }

  ghost predicate AllClean(before: seq<Call>, after: seq<Call>) {
    forall i | |before| <= i < |after| :: Clean(after, i)
  }

  /** Why a read stopped, in terms of the calls made and the time. */
  ghost predicate Explains(e: ReadError, before: seq<Call>, after: seq<Call>, now: Instant, due: Due) {
    match e
    case ReadDeadline(phase, Hard) => phase == due.pace.phase && due.hard < now + 1_000_000
    case ReadDeadline(phase, Idle) => phase == due.pace.phase && IdleIsOver(before, after, now, due)
    case ReadUsb => |after| > |before| && after[|after| - 1].event.ReadFailed?
    case Truncated =>
      && |after| > |before| && after[|after| - 1].event.ReadMoved? && after[|after| - 1].event.data == []
      && !LastReadFilled(after[..|after| - 1])
    case Overrun =>
      && |after| > |before| && after[|after| - 1].event.ReadMoved?
      && |after[|after| - 1].event.data| > after[|after| - 1].event.room
  }

  /** What the reads of one operation leave behind: bounded calls under one hard expiry, no
      writes, nothing a successful read may not contain, and the idle expiry of a pending run
      of timeouts. */
  ghost predicate ReadsSoFar(before: seq<Call>, calls: seq<Call>, idleDue: Instant, terms: Terms) {
    && Continues(before, calls, terms)
    && OnlyReads(before, calls) && !Touched(before, calls)
    && AllClean(before, calls)
    && (EndsInProgress(before, calls) || calls[|calls| - 1].due.idle == idleDue)
  }

  lemma NoReadsYet(calls: seq<Call>, idleDue: Instant, terms: Terms)
    ensures ReadsSoFar(calls, calls, idleDue, terms) && ReadOperation(calls, calls, terms)
  {}

  /** What one more call says about the last transfer, and when a successful read may hold it. */
  lemma FilledStep(calls: seq<Call>, call: Call)
    ensures var d := calls + [call];
            && d[..|calls|] == calls
            && (LastReadFilled(d) <==>
                  match call.event
                  case ReadMoved(room, data) => data != [] && |data| == room
                  case _ => LastReadFilled(calls))
            && (Clean(d, |calls|) <==>
                  match call.event
                  case ReadTimedOut => true
                  case ReadMoved(room, data) => |data| <= room && (data == [] ==> LastReadFilled(calls))
                  case _ => false)
  {
    assert (calls + [call])[..|calls|] == calls;
  }

  lemma NoReadsNeeded(calls: seq<Call>, limit: nat)
    ensures NeededBelow(calls, calls, limit)
  {}

  lemma TimeoutKeepsFresh(calls: seq<Call>, call: Call, due: Due)
    requires call.event.IsTimeout()
    ensures Fresh(calls + [call], due)
  {}

  lemma ContinuesArePrefixes(a: seq<Call>, b: seq<Call>, c: seq<Call>, terms: Terms)
    requires Continues(a, b, terms) && Continues(b, c, terms)
    ensures a <= b <= c
  {}

  lemma ReadsSoFarStep(before: seq<Call>, calls: seq<Call>, call: Call, idleDue: Instant, terms: Terms)
    requires ReadsSoFar(before, calls, idleDue, terms)
    requires Within(call, terms) && call.due.idle == idleDue && !call.event.IsWrite() && Fresh(calls, call.due)
    ensures Continues(before, calls + [call], terms)
    ensures OnlyReads(before, calls + [call]) && !Touched(before, calls + [call])
    ensures Clean(calls + [call], |calls|) ==> AllClean(before, calls + [call])
    ensures (calls + [call])[..|calls|] == calls && |before| <= |calls|
  {
    ContinuesStep(before, calls, call, terms);
    var d := calls + [call];
    assert d[..|calls|] == calls;
    if Clean(d, |calls|) {
      forall i | |before| <= i < |d| ensures Clean(d, i) {
        if i < |calls| { assert Clean(calls, i) && d[..i] == calls[..i]; }
      }
    }
  }

  class BulkReadState {
    var buffer: array<Byte>
    var cursor: nat
    var len: nat
    var previousReadFilledBuffer: bool

    /** Every byte handed out so far. */
    ghost var consumed: Bytes

    ghost predicate Valid()
      reads this
    {
      12 <= buffer.Length <= 16_777_216 && cursor <= len <= buffer.Length
    }

    /** The flag is what the record of calls says. */
    ghost predicate FlagInStep(link: Link)
      reads this, link
    {
      previousReadFilledBuffer == LastReadFilled(link.calls)
    }

    /** The device's stream so far is what was handed out followed by what is pending. */
    ghost predicate Conserves(link: Link)
      requires Valid()
      reads this, buffer, link
    {
      link.received == consumed + Pending()
    }

    ghost predicate InStep(link: Link)
      reads this, buffer, link
    {
      Valid() && FlagInStep(link) && Conserves(link)
    }

    /** Bytes received and not yet handed out. */
    ghost function Pending(): Bytes
      requires Valid()
      reads this, buffer
    {
      buffer[cursor..len]
    }

    constructor (chunkSize: nat)
      requires 12 <= chunkSize <= 16_777_216
      ensures Valid() && fresh(this) && fresh(buffer) && buffer.Length == chunkSize
      ensures Pending() == [] && !previousReadFilledBuffer && consumed == []
    {
      buffer := new Byte[chunkSize](_ => 0);
      cursor, len, previousReadFilledBuffer := 0, 0, false;
      consumed := [];
    }

    /** A buffer of another size, or nothing when bytes are pending, the size is out of range or
        the allocation fails. */
    method Resized(link: Link, chunkSize: nat, allocates: bool) returns (r: BulkReadState?)
      requires InStep(link)
      ensures r == null <==>
                Pending() != [] || !(12 <= chunkSize <= 16_777_216) || !allocates
      ensures r != null ==>
                && fresh(r) && fresh(r.buffer) && r.InStep(link) && r.buffer.Length == chunkSize
                && r.Pending() == [] && r.consumed == consumed
    {
      var pending := HasPendingBytes();
      if pending { return null; }
      if !(HEADER_SIZE <= chunkSize <= MAX_BULK_READ_CHUNK_BYTES) || !allocates { return null; }
      r := new BulkReadState(chunkSize);
      r.previousReadFilledBuffer := previousReadFilledBuffer;
      r.consumed := consumed;
    }

    method HasPendingBytes() returns (pending: bool)
      requires Valid()
      ensures pending <==> Pending() != []
    {
      pending := cursor < len;
    }

    /** One bulk read: the call is recorded, and a transfer that moved anything, or nothing,
        counts as progress. */
    method Attempt(link: Link, deadline: Deadline) returns (timeout: Timeout, r: IoResult)
      requires Valid() && link.Valid() && deadline.Valid() && deadline.link == link
      modifies buffer, link, deadline
      ensures Valid() && link.Valid() && deadline.Valid()
      ensures link.accepted == old(link.accepted) && link.now >= old(link.now)
      ensures timeout.Exceeded? ==>
                && link.calls == old(link.calls) && link.received == old(link.received)
                && deadline.expiresAt == old(deadline.expiresAt) && timeout.phase == deadline.phase
                && (timeout.kind.Hard? ==> deadline.hardExpiresAt < link.now + 1_000_000)
                && (timeout.kind.Idle? ==>
                      deadline.expiresAt < link.now + 1_000_000 <= deadline.hardExpiresAt)
      ensures timeout.Allowed? ==>
                && |link.calls| == |old(link.calls)| + 1
                && var call := link.calls[|old(link.calls)|];
                && link.calls == old(link.calls) + [call]
                && Bounded(call) && !call.event.IsWrite()
                && call.due == old(deadline.InForce())
                && match r
                   case TimedOut =>
                     && call.event == ReadTimedOut && link.received == old(link.received)
                     && deadline.expiresAt == old(deadline.expiresAt)
                     && old(link.now) + 1_000_000 <= deadline.hardExpiresAt
                     && link.now >= old(link.now) + 1_000_000
                   case Failed =>
                     && call.event == ReadFailed && link.received == old(link.received)
                     && deadline.expiresAt == old(deadline.expiresAt)
                   case Moved(n) =>
                     && call.event.ReadMoved? && call.event.room == buffer.Length && |call.event.data| == n
                     && (deadline.progressTimeout.Some? ==>
                           deadline.expiresAt == Earlier(link.now + deadline.progressTimeout.value, deadline.hardExpiresAt))
                     && (n <= buffer.Length ==>
                           link.received == old(link.received) + call.event.data && buffer[..n] == call.event.data)
                     && (n > buffer.Length ==> link.received == old(link.received))
                     && Fresh(link.calls, deadline.InForce())
    {
      timeout := deadline.IoTimeout();
      r := Failed;
      if timeout.Exceeded? { return; }
      r := link.ReadBulk(buffer, timeout.d, deadline.InForce());
      if r.Moved? { deadline.RecordProgress(); }
    }

    /** Waits for the next transfer with bytes in it and keeps it as the pending bytes. */
    method Fill(link: Link, deadline: Deadline) returns (status: ReadStatus)
      requires Valid() && link.Valid() && InStep(link) && deadline.Valid() && deadline.link == link
      requires cursor == len && Fresh(link.calls, deadline.InForce())
      modifies this, buffer, link, deadline
      ensures Valid() && link.Valid() && deadline.Valid()
      ensures buffer == old(buffer) && consumed == old(consumed) && link.accepted == old(link.accepted)
      ensures Continues(old(link.calls), link.calls, TermsOf(deadline)) && link.now >= old(link.now)
      ensures OnlyReads(old(link.calls), link.calls) && !Touched(old(link.calls), link.calls)
      ensures NeededBelow(old(link.calls), link.calls, |consumed| + 1)
      ensures status.Complete? ==>
                && InStep(link) && cursor < len && Fresh(link.calls, deadline.InForce())
                && AllClean(old(link.calls), link.calls)
                && EndsInProgress(old(link.calls), link.calls)
      ensures status.Broken? ==>
                && Conserves(link) && Pending() == []
                && Explains(status.error, old(link.calls), link.calls, link.now, deadline.InForce())
    {
      hide Timeline, Continues, Touched, OnlyReads, AllClean, NeededBelow, Delivered, Fresh, Bounded,
           LastReadFilled, Clean;
      ghost var before := link.calls;
      NoReadsNeeded(before, |consumed| + 1);
      NoReadsYet(before, deadline.expiresAt, TermsOf(deadline));
      while true
        invariant Valid() && link.Valid() && deadline.Valid() && FlagInStep(link)
        invariant buffer == old(buffer) && consumed == old(consumed) && cursor == len
        invariant link.accepted == old(link.accepted) && link.received == consumed
        invariant ReadsSoFar(before, link.calls, deadline.expiresAt, TermsOf(deadline)) && link.now >= old(link.now)
        invariant NeededBelow(before, link.calls, |consumed| + 1) && Fresh(link.calls, deadline.InForce())
        decreases previousReadFilledBuffer, SaturatingSince(deadline.hardExpiresAt, link.now)
      {
        ghost var calls, due, filled := link.calls, deadline.expiresAt, previousReadFilledBuffer;
        var timeout, r := Attempt(link, deadline);
        if timeout.Exceeded? { return Broken(ReadDeadline(timeout.phase, timeout.kind)); }
        ghost var call := link.calls[|calls|];
        ReadsSoFarStep(before, calls, call, due, TermsOf(deadline));
        NeededStep(before, calls, call, |consumed| + 1);
        FilledStep(calls, call);
        if r.TimedOut? {
          TimeoutKeepsFresh(calls, call, deadline.InForce());
          continue;
        }
        if r.Failed? { return Broken(ReadUsb); }
        if r.n != 0 {
          if r.n > buffer.Length { return Broken(Overrun); }
          cursor := 0;
          len := r.n;
          previousReadFilledBuffer := r.n == buffer.Length;
          return Complete;
        }
        if !previousReadFilledBuffer { return Broken(Truncated); }
        previousReadFilledBuffer := false;
      }
    }

    /** Copies up to `wanted` pending bytes to the output. */
    method Take(output: array<Byte>, written: nat) returns (copied: nat)
      requires Valid() && output != buffer && written < output.Length && cursor < len
      modifies this`cursor, this`consumed, output
      ensures Valid() && 0 < copied && written + copied <= output.Length
      ensures output[..written] == old(output[..written])
      ensures consumed == old(consumed) + output[written..written + copied]
      ensures consumed + Pending() == old(consumed + Pending())
    {
      var available := len - cursor;
      var needed := output.Length - written;
      copied := if available < needed then available else needed;
      ghost var out := output[..written];
      for i := 0 to copied
        invariant output[..written] == out
        invariant output[written..written + i] == buffer[cursor..cursor + i]
        modifies output
      {
        ghost var part := output[written..written + i];
        output[written + i] := buffer[cursor + i];
        assert output[..written] == out;
        assert output[written..written + i] == part;
        assert output[written..written + i + 1] == part + [output[written + i]];
        assert buffer[cursor..cursor + i + 1] == buffer[cursor..cursor + i] + [buffer[cursor + i]];
      }
      assert buffer[cursor..len] == buffer[cursor..cursor + copied] + buffer[cursor + copied..len];
      assert output[written..written + copied] == buffer[cursor..cursor + copied];
      consumed := consumed + buffer[cursor..cursor + copied];
      cursor := cursor + copied;
    }

    /** Fills the output with exactly the next bytes of the device's stream, or says why not. */
    method ReadExact(link: Link, output: array<Byte>, deadline: Deadline) returns (status: ReadStatus)
      requires link.Valid() && InStep(link) && deadline.Valid() && deadline.link == link
      requires output != buffer && (output.Length > 0 ==> Fresh(link.calls, deadline.InForce()))
      modifies this, buffer, output, link, deadline
      ensures Valid() && link.Valid() && deadline.Valid() && Conserves(link)
      ensures buffer == old(buffer) && link.accepted == old(link.accepted)
      ensures Continues(old(link.calls), link.calls, TermsOf(deadline)) && link.now >= old(link.now)
      ensures OnlyReads(old(link.calls), link.calls) && !Touched(old(link.calls), link.calls)
      ensures NeededBelow(old(link.calls), link.calls, |old(consumed)| + output.Length)
      ensures status.Complete? ==>
                && InStep(link)
                && consumed == old(consumed) + output[..]
                && AllClean(old(link.calls), link.calls)
                && EndsInProgress(old(link.calls), link.calls)
      ensures status.Broken? ==>
                && old(consumed) <= consumed && |consumed| - |old(consumed)| < output.Length && Pending() == []
                && Explains(status.error, old(link.calls), link.calls, link.now, deadline.InForce())
    {
      hide Timeline, Continues, Touched, OnlyReads, AllClean, EndsInProgress, LastReadFilled, Explains, NeededBelow,
           Delivered, Fresh;
      var written := 0;
      ghost var before, limit := link.calls, |consumed| + output.Length;
      NoReadsNeeded(before, limit);
      NoReadsYet(before, deadline.expiresAt, TermsOf(deadline));
      while written < output.Length
        invariant written <= output.Length
        invariant link.Valid() && deadline.Valid() && InStep(link)
        invariant buffer == old(buffer) && link.accepted == old(link.accepted)
        invariant consumed == old(consumed) + output[..written]
        invariant ReadOperation(before, link.calls, TermsOf(deadline)) && link.now >= old(link.now)
        invariant NeededBelow(before, link.calls, limit)
        invariant output.Length > 0 ==> Fresh(link.calls, deadline.InForce())
      {
        if cursor == len {
          ghost var mid := link.calls;
          status := Fill(link, deadline);
          if status.Broken? {
            ContinuesTrans(before, mid, link.calls, TermsOf(deadline));
            ContinuesArePrefixes(before, mid, link.calls, TermsOf(deadline));
            NeededTrans(before, mid, link.calls, limit, |consumed| + 1, limit);
            ExplainsLonger(status.error, before, mid, link.calls, link.now, deadline.InForce());
            return;
          }
          ReadOperationTrans(before, mid, link.calls, TermsOf(deadline));
          ContinuesArePrefixes(before, mid, link.calls, TermsOf(deadline));
          NeededTrans(before, mid, link.calls, limit, |consumed| + 1, limit);
        }
        ghost var done := written;
        var copied := Take(output, written);
        assert output[..done + copied] == output[..done] + output[done..done + copied];
        written := written + copied;
      }
      assert output[..output.Length] == output[..];
      status := Complete;
    }
  }

  /** The calls of a read that is going well. */
  ghost predicate ReadOperation(before: seq<Call>, after: seq<Call>, terms: Terms) {
    && Continues(before, after, terms) && EndsInProgress(before, after)
    && OnlyReads(before, after) && !Touched(before, after) && AllClean(before, after)
  }

  lemma ReadOperationTrans(a: seq<Call>, b: seq<Call>, c: seq<Call>, terms: Terms)
    requires ReadOperation(a, b, terms) && ReadOperation(b, c, terms)
    ensures ReadOperation(a, c, terms)
  {
    ContinuesTrans(a, b, c, terms);
    forall i | |a| <= i < |c| ensures Clean(c, i) {
      if i < |b| {
        assert c[..|b|][i] == b[i];
        assert c[..i] == c[..|b|][..i] == b[..i];
        assert Clean(b, i);
      }
    }
  }

  lemma ExplainsLonger(e: ReadError, a: seq<Call>, b: seq<Call>, c: seq<Call>, now: Instant, due: Due)
    requires |a| <= |b| <= |c| && c[..|b|] == b && EndsInProgress(a, b) && Explains(e, b, c, now, due)
    ensures Explains(e, a, c, now, due)
  {
    hide LastReadFilled, Fresh, EndsInProgress;
    if e.ReadDeadline? && e.kind.Idle? { IdleIsOverLonger(a, b, c, now, due); }
  }

  /** Why a read stopped, whatever the idle expiry was then. */
  ghost predicate StoppedBy(e: ReadError, before: seq<Call>, after: seq<Call>, now: Instant, hard: Instant, pace: Pace) {
    exists idle :: Explains(e, before, after, now, Due(idle, hard, pace))
  }

  lemma StoppedLater(e: ReadError, a: seq<Call>, b: seq<Call>, c: seq<Call>, now: Instant, hard: Instant, pace: Pace)
    requires |a| <= |b| <= |c| && c[..|b|] == b && EndsInProgress(a, b) && StoppedBy(e, b, c, now, hard, pace)
    ensures StoppedBy(e, a, c, now, hard, pace)
  {
    hide Explains, EndsInProgress;
    var idle :| Explains(e, b, c, now, Due(idle, hard, pace));
    ExplainsLonger(e, a, b, c, now, Due(idle, hard, pace));
  }

  /** However the device's stream is cut: a read that succeeded returned exactly the bytes of
      the stream that follow what was handed out before, and what is still pending continues
      the stream from there. */
  lemma ReadsFollowTheStream(stream: Bytes, received: Bytes, consumedBefore: Bytes, output: Bytes, pending: Bytes)
    requires received <= stream
    requires received == consumedBefore + output + pending
    ensures output == stream[|consumedBefore|..|consumedBefore| + |output|]
    ensures pending + stream[|received|..] == stream[|consumedBefore| + |output|..]
  {}

  /** A read from a device that has this stream to deliver, however it cuts it: a success is the
      stream's next bytes, and what is pending and what was not transferred yet are the rest. */
  method ReadFromStream(link: Link, state: BulkReadState, output: array<Byte>, deadline: Deadline, ghost stream: Bytes)
      returns (status: ReadStatus)
    requires link.Valid() && state.InStep(link) && deadline.Valid() && deadline.link == link
    requires output != state.buffer && Fresh(link.calls, deadline.InForce())
    modifies state, state.buffer, output, link, deadline
    ensures link.Valid() && state.Valid() && state.Conserves(link)
    ensures status.Complete? && link.received <= stream ==>
              && |old(state.consumed)| + output.Length <= |stream|
              && output[..] == stream[|old(state.consumed)|..|old(state.consumed)| + output.Length]
              && state.Pending() + stream[|link.received|..] == stream[|old(state.consumed)| + output.Length..]
  {
    hide Timeline, Continues, Touched, OnlyReads, AllClean, EndsInProgress, LastReadFilled, Explains;
    ghost var before := state.consumed;
    status := state.ReadExact(link, output, deadline);
    if status.Complete? && link.received <= stream {
      ReadsFollowTheStream(stream, link.received, before, output[..], state.Pending());
    }
  }
}
