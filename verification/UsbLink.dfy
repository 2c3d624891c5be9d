/** The environment of the transport: the two bulk endpoints and the clock. An unbounded script
    decides how many bytes each call moves, when a call times out or fails, and how much time
    passes. A call that times out moves nothing and takes at least its timeout. */
module UsbLink {
  import opened Wire

  /** Nanoseconds since an arbitrary origin. */
  type Instant = nat
  type Duration = nat

  const MILLISECOND: nat := 1_000_000
  const SECOND: nat := 1000 * MILLISECOND
  const PTP_BULK_TIMEOUT: Duration := 10 * SECOND
  const MIN_PTP_BULK_TIMEOUT: Duration := MILLISECOND

  datatype ReadReply = Delivers(data: Bytes) | ReadTimesOut | ReadFails
  datatype WriteReply = Takes(count: nat) | WriteTimesOut | WriteFails

  /** What a bulk call reports: a byte count, a timeout, or another USB error. */
  datatype IoResult = Moved(n: nat) | TimedOut | Failed

  datatype Event =
    | ReadMoved(room: nat, data: Bytes)
    | ReadTimedOut
    | ReadFailed
    | WriteMoved(offset: nat, offered: Bytes, count: nat)
    | WriteTimedOut(offset: nat, offered: Bytes)
    | WriteFailed(offset: nat, offered: Bytes)
  {
    predicate IsTimeout() { ReadTimedOut? || WriteTimedOut? }
    predicate IsWrite() { WriteMoved? || WriteTimedOut? || WriteFailed? }

    /** Something may have reached the device: bytes were accepted, or the outcome is unknown. */
    predicate TouchesWire() { (WriteMoved? && count > 0) || WriteFailed? }
  }

  datatype Phase = TransactionPhase | CommandWrite | DataTransfer | ResponsePhase

  /** A phase of a transaction and the idle allowance it has. */
  datatype Pace = Pace(phase: Phase, allowance: Duration)

  /** The expiries and the pace a call is made under. */
  datatype Due = Due(idle: Instant, hard: Instant, pace: Pace)

  /** One bulk call: when it was issued, with what timeout, under which expiries. */
  datatype Call = Call(at: Instant, timeout: Duration, due: Due, event: Event)

  /** What the calls of an operation share: one hard expiry, and the paces of its phases. */
  datatype Terms = Terms(hard: Instant, paces: set<Pace>)

  // ---------- what holds of a record of calls ----------

  /** The call was over at time `t`; if it timed out, its timeout had passed. */
  predicate OverBy(c: Call, t: Instant) {
    c.at <= t && (c.event.IsTimeout() ==> c.at + c.timeout <= t)
  }

  predicate OverBeforeNext(calls: seq<Call>, i: nat)
    requires i + 1 < |calls|
  {
    OverBy(calls[i], calls[i + 1].at)
  }

  /** Calls follow one another in time, and a timed-out call used up its timeout. */
  ghost predicate Timeline(calls: seq<Call>, now: Instant) {
    && (forall i | 0 <= i < |calls| - 1 :: OverBeforeNext(calls, i))
    && (calls != [] ==> OverBy(calls[|calls| - 1], now))
  }

  lemma TimelineStep(calls: seq<Call>, now: Instant, c: Call, later: Instant)
    requires Timeline(calls, now) && c.at == now && OverBy(c, later)
    ensures Timeline(calls + [c], later)
  {
    var d := calls + [c];
    forall i | 0 <= i < |d| - 1 ensures OverBeforeNext(d, i) {
      if i < |calls| - 1 { assert OverBeforeNext(calls, i); }
    }
  }

  /** The timeout of a call is between the two limits and ends by both expiries; it is cut short
      only to end with the idle expiry, which is at most the idle allowance away. */
  predicate Bounded(c: Call) {
    && 1_000_000 <= c.timeout <= 10_000_000_000 && c.at + c.timeout <= c.due.idle <= c.due.hard
    && (c.timeout < 10_000_000_000 ==> c.at + c.timeout == c.due.idle)
    && c.due.idle <= c.at + c.due.pace.allowance
  }

  /** From index `from` on, a call that times out leaves the idle expiry where it was. */
  ghost predicate SteadyIdle(calls: seq<Call>, from: nat) {
    forall i | from <= i < |calls| - 1 && calls[i].event.IsTimeout() :: SameIdle(calls, i)
  }

  predicate SameIdle(calls: seq<Call>, i: nat)
    requires i < |calls| - 1
  {
    calls[i + 1].due.idle == calls[i].due.idle
  }

  function Earlier(a: Instant, b: Instant): Instant { if a < b then a else b }

  /** Calls made now under `due` have at least the allowance that the last call's progress
      restarted. */
  predicate Fresh(calls: seq<Call>, due: Due) {
    calls != [] && !calls[|calls| - 1].event.IsTimeout() ==>
      Earlier(calls[|calls| - 1].at + due.pace.allowance, due.hard) <= due.idle
  }

  /** The idle expiry in force is less than a millisecond away and the hard one is not. It is the
      one that the last new call ran under if that timed out, and otherwise no earlier than the
      allowance after that call began. */
  ghost predicate IdleIsOver(before: seq<Call>, after: seq<Call>, now: Instant, due: Due) {
    && due.idle < now + 1_000_000 <= due.hard && Fresh(after, due)
    && (|after| > |before| && after[|after| - 1].event.IsTimeout() ==> after[|after| - 1].due.idle == due.idle)
  }

  lemma IdleIsOverLonger(a: seq<Call>, b: seq<Call>, c: seq<Call>, now: Instant, due: Due)
    requires |a| <= |b| <= |c| && c[..|b|] == b && EndsInProgress(a, b) && IdleIsOver(b, c, now, due)
    ensures IdleIsOver(a, c, now, due)
  {
    if |c| == |b| { assert c == b; }
  }

  /** From index `from` on, whatever did not time out restarted the idle allowance of the call
      after it. */
  ghost predicate RestartedIdle(calls: seq<Call>, from: nat) {
    forall i | from <= i < |calls| :: Fresh(calls[..i], calls[i].due)
  }

  predicate Within(c: Call, terms: Terms) {
    Bounded(c) && c.due.hard == terms.hard && c.due.pace in terms.paces
  }

  /** `after` continues `before` with bounded calls that share one hard expiry and keep to the
      paces. */
  ghost predicate Continues(before: seq<Call>, after: seq<Call>, terms: Terms) {
    && |before| <= |after| && after[..|before|] == before
    && (forall i | |before| <= i < |after| :: Within(after[i], terms))
    && SteadyIdle(after, |before|) && RestartedIdle(after, |before|)
  }

  /** The last new call, if any, was not a timeout. */
  ghost predicate EndsInProgress(before: seq<Call>, after: seq<Call>) {
    |after| > |before| ==> !after[|after| - 1].event.IsTimeout()
  }

  ghost predicate Touched(before: seq<Call>, after: seq<Call>) {
    exists i | |before| <= i < |after| :: after[i].event.TouchesWire()
  }

  ghost predicate OnlyReads(before: seq<Call>, after: seq<Call>) {
    forall i | |before| <= i < |after| :: !after[i].event.IsWrite()
  }

  ghost predicate OnlyWrites(before: seq<Call>, after: seq<Call>) {
    forall i | |before| <= i < |after| :: after[i].event.IsWrite()
  }

  lemma OnlyWritesTrans(a: seq<Call>, b: seq<Call>, c: seq<Call>, terms: Terms)
    requires Continues(a, b, terms) && Continues(b, c, terms) && OnlyWrites(a, b) && OnlyWrites(b, c)
    ensures OnlyWrites(a, c)
  {}

  lemma RestartedTrans(a: seq<Call>, b: seq<Call>, c: seq<Call>)
    requires |a| <= |b| <= |c| && c[..|b|] == b
    requires RestartedIdle(b, |a|) && RestartedIdle(c, |b|)
    ensures RestartedIdle(c, |a|)
  {
    hide Fresh;
    forall i | |a| <= i < |c| ensures Fresh(c[..i], c[i].due) {
      if i < |b| { assert c[..i] == b[..i] && c[i] == b[i]; }
    }
  }

  lemma SteadyTrans(a: seq<Call>, b: seq<Call>, c: seq<Call>)
    requires |a| <= |b| <= |c| && c[..|b|] == b && EndsInProgress(a, b)
    requires SteadyIdle(b, |a|) && SteadyIdle(c, |b|)
    ensures SteadyIdle(c, |a|)
  {
    forall i | |a| <= i < |c| - 1 && c[i].event.IsTimeout() ensures SameIdle(c, i) {
      if i < |b| - 1 { assert SameIdle(b, i) && c[i] == b[i] && c[i + 1] == b[i + 1]; }
    }
  }

  lemma TouchedTrans(a: seq<Call>, b: seq<Call>, c: seq<Call>)
    requires |a| <= |b| <= |c| && c[..|b|] == b
    ensures Touched(a, c) <==> Touched(a, b) || Touched(b, c)
    ensures OnlyReads(a, b) && OnlyReads(b, c) ==> OnlyReads(a, c)
  {
    forall i | 0 <= i < |b| ensures c[i] == b[i] { assert c[..|b|][i] == b[i]; }
    if i :| |a| <= i < |b| && b[i].event.TouchesWire() { assert c[i].event.TouchesWire(); }
    if i :| |a| <= i < |c| && c[i].event.TouchesWire() {
      if i < |b| { assert b[i].event.TouchesWire(); }
    }
  }

  lemma WithinTrans(a: seq<Call>, b: seq<Call>, c: seq<Call>, terms: Terms)
    requires |a| <= |b| <= |c| && b[..|a|] == a && c[..|b|] == b
    requires forall i | |a| <= i < |b| :: Within(b[i], terms)
    requires forall i | |b| <= i < |c| :: Within(c[i], terms)
    ensures c[..|a|] == a && forall i | |a| <= i < |c| :: Within(c[i], terms)
  {
    hide Within;
    assert c[..|a|] == c[..|b|][..|a|];
    forall i | |a| <= i < |c| ensures Within(c[i], terms) {
      if i < |b| { assert c[..|b|][i] == b[i]; }
    }
  }

  lemma ContinuesTrans(a: seq<Call>, b: seq<Call>, c: seq<Call>, terms: Terms)
    requires Continues(a, b, terms) && Continues(b, c, terms) && EndsInProgress(a, b)
    ensures Continues(a, c, terms) && |a| <= |b| <= |c|
    ensures EndsInProgress(b, c) ==> EndsInProgress(a, c)
    ensures Touched(a, c) <==> Touched(a, b) || Touched(b, c)
    ensures OnlyReads(a, b) && OnlyReads(b, c) ==> OnlyReads(a, c)
  {
    RestartedTrans(a, b, c);
    SteadyTrans(a, b, c);
    TouchedTrans(a, b, c);
    WithinTrans(a, b, c, terms);
    hide RestartedIdle, SteadyIdle, Within, Touched, OnlyReads;
    if |b| == |c| { assert c == c[..|b|]; }
  }

  lemma ContinuesWiden(a: seq<Call>, b: seq<Call>, terms: Terms, wider: Terms)
    requires Continues(a, b, terms) && terms.hard == wider.hard && terms.paces <= wider.paces
    ensures Continues(a, b, wider)
  {}

  /** One more call, under the same idle expiry if the previous new one timed out. */
  lemma ContinuesStep(a: seq<Call>, b: seq<Call>, call: Call, terms: Terms)
    requires Continues(a, b, terms) && Within(call, terms)
    requires |b| > |a| && b[|b| - 1].event.IsTimeout() ==> call.due.idle == b[|b| - 1].due.idle
    requires Fresh(b, call.due)
    ensures Continues(a, b + [call], terms)
    ensures Touched(a, b + [call]) <==> Touched(a, b) || call.event.TouchesWire()
    ensures OnlyReads(a, b + [call]) <==> OnlyReads(a, b) && !call.event.IsWrite()
  {
    KindsStep(a, b, call);
    SteadyStep(b, |a|, call);
    RestartedStep(b, |a|, call);
    hide Touched, OnlyReads, Within, Fresh, SteadyIdle, RestartedIdle;
    assert (b + [call])[..|a|] == b[..|a|];
  }

  lemma SteadyStep(calls: seq<Call>, from: nat, call: Call)
    requires from <= |calls| && SteadyIdle(calls, from)
    requires |calls| > from && calls[|calls| - 1].event.IsTimeout() ==> call.due.idle == calls[|calls| - 1].due.idle
    ensures SteadyIdle(calls + [call], from)
  {
    var c := calls + [call];
    forall i | from <= i < |c| - 1 && c[i].event.IsTimeout() ensures SameIdle(c, i) {
      if i < |calls| - 1 { assert SameIdle(calls, i); }
    }
  }

  lemma RestartedStep(calls: seq<Call>, from: nat, call: Call)
    requires from <= |calls| && RestartedIdle(calls, from) && Fresh(calls, call.due)
    ensures RestartedIdle(calls + [call], from)
  {
    hide Fresh;
    var c := calls + [call];
    forall i | from <= i < |c| ensures Fresh(c[..i], c[i].due) {
      assert c[..i] == calls[..i];
      if i == |calls| { assert calls[..i] == calls; }
    }
  }

  lemma KindsStep(a: seq<Call>, b: seq<Call>, call: Call)
    requires |a| <= |b|
    ensures Touched(a, b + [call]) <==> Touched(a, b) || call.event.TouchesWire()
    ensures OnlyReads(a, b + [call]) <==> OnlyReads(a, b) && !call.event.IsWrite()
  {
    var c := b + [call];
    if Touched(a, b) {
      var i :| |a| <= i < |b| && b[i].event.TouchesWire();
      assert c[i].event.TouchesWire();
    }
    if call.event.TouchesWire() { assert c[|b|].event.TouchesWire(); }
    if OnlyReads(a, c) {
      forall i | |a| <= i < |b| ensures !b[i].event.IsWrite() { assert c[i] == b[i]; }
      assert !c[|b|].event.IsWrite();
    }
  }

  /** A run of timeouts with nothing moving in between is as short as its idle allowance: with
      at least a millisecond used by each, `idle / 1 ms` of them at most. */
  lemma {:induction false} TimeoutRunIsShort(calls: seq<Call>, now: Instant, i: nat, j: nat)
    requires Timeline(calls, now) && i < j <= |calls|
    requires SteadyIdle(calls, i)
    requires forall k | i <= k < j :: Bounded(calls[k]) && calls[k].event.IsTimeout()
    ensures (j - i) * 1_000_000 <= calls[i].due.idle - calls[i].at <= calls[i].due.pace.allowance
    decreases j - i
  {
    if j - i > 1 {
      assert SameIdle(calls, i) && OverBeforeNext(calls, i);
      TimeoutRunIsShort(calls, now, i + 1, j);
    }
  }

  // ---------- what the calls delivered ----------

  /** The bytes the device delivered in these calls; a transfer longer than its buffer delivers
      nothing that can be used. */
  function Delivered(calls: seq<Call>): Bytes {
    if calls == [] then []
    else
      var last := calls[|calls| - 1].event;
      Delivered(calls[..|calls| - 1]) + if last.ReadMoved? && |last.data| <= last.room then last.data else []
  }

  lemma DeliveredStep(calls: seq<Call>, call: Call)
    ensures Delivered(calls + [call]) ==
              Delivered(calls) + if call.event.ReadMoved? && |call.event.data| <= call.event.room then call.event.data else []
  {
    assert (calls + [call])[..|calls|] == calls;
  }

  lemma {:induction false} DeliveredGrows(front: seq<Call>, calls: seq<Call>)
    requires front <= calls
    ensures Delivered(front) <= Delivered(calls)
    decreases |calls|
  {
    if |front| < |calls| {
      DeliveredGrows(front, calls[..|calls| - 1]);
    } else {
      assert front == calls;
    }
  }

  /** Each new call was made while fewer than `limit` bytes had been delivered. */
  ghost predicate NeededBelow(before: seq<Call>, after: seq<Call>, limit: nat) {
    forall i | |before| <= i < |after| :: |Delivered(after[..i])| < limit
  }

  lemma NeededStep(before: seq<Call>, calls: seq<Call>, call: Call, limit: nat)
    requires NeededBelow(before, calls, limit) && |Delivered(calls)| < limit
    ensures NeededBelow(before, calls + [call], limit)
  {
    hide Delivered;
    var d := calls + [call];
    forall i | |before| <= i < |d| ensures |Delivered(d[..i])| < limit {
      assert d[..i] == calls[..i];
      if i == |calls| { assert calls[..i] == calls; }
    }
  }

  lemma NeededTrans(a: seq<Call>, b: seq<Call>, c: seq<Call>, low: nat, limit: nat, high: nat)
    requires a <= b <= c && NeededBelow(a, b, low) && NeededBelow(b, c, limit) && low <= high && limit <= high
    ensures NeededBelow(a, c, high)
  {
    hide Delivered;
    forall i | |a| <= i < |c| ensures |Delivered(c[..i])| < high {
      if i < |b| { assert c[..i] == b[..i]; }
    }
  }

  // ---------- the link itself ----------

  class Link {
    const readScript: nat -> ReadReply
    const writeScript: nat -> WriteReply
    const delayScript: nat -> Duration
    var step: nat
    var now: Instant

    /** Everything that was called, delivered by the device, and accepted by it. */
    ghost var calls: seq<Call>
    ghost var received: Bytes
    ghost var accepted: Bytes

    ghost predicate Valid()
      reads this
    {
      Timeline(calls, now) && received == Delivered(calls)
    }

    constructor (readScript: nat -> ReadReply, writeScript: nat -> WriteReply, delayScript: nat -> Duration)
      ensures Valid() && fresh(this) && calls == [] && received == [] && accepted == []
    {
      this.readScript, this.writeScript, this.delayScript := readScript, writeScript, delayScript;
      step, now := 0, 0;
      calls, received, accepted := [], [], [];
    }

    /** Reads the clock; any time may have passed since the last event. */
    method Now() returns (t: Instant)
      requires Valid()
      modifies `now, `step
      ensures Valid() && t == now && now >= old(now)
    {
      now := now + delayScript(step);
      step := step + 1;
      t := now;
    }

    /** A reply longer than the buffer is reported but leaves the buffer alone. */
    method ReadBulk(buf: array<Byte>, timeout: Duration, ghost due: Due)
        returns (r: IoResult)
      requires Valid()
      modifies this, buf
      ensures Valid()
      ensures accepted == old(accepted)
      ensures now >= old(now) + (if r.TimedOut? then timeout else 0)
      ensures match r
              case TimedOut =>
                && calls == old(calls) + [Call(old(now), timeout, due, ReadTimedOut)]
                && received == old(received) && buf[..] == old(buf[..])
              case Failed =>
                && calls == old(calls) + [Call(old(now), timeout, due, ReadFailed)]
                && received == old(received) && buf[..] == old(buf[..])
              case Moved(n) =>
                && |calls| == |old(calls)| + 1
                && calls[|old(calls)|].event.ReadMoved?
                && var data := calls[|old(calls)|].event.data;
                && calls == old(calls) + [Call(old(now), timeout, due, ReadMoved(buf.Length, data))]
                && n == |data|
                && (n <= buf.Length ==> received == old(received) + data && buf[..n] == data)
                && (n > buf.Length ==> received == old(received))
    {
      hide Timeline, Delivered;
      ghost var at := now;
      var reply := readScript(step);
      now := now + delayScript(step);
      step := step + 1;
      match reply {
        case ReadTimesOut =>
          now := now + timeout;
          Record(Call(at, timeout, due, ReadTimedOut));
          r := TimedOut;
        case ReadFails =>
          Record(Call(at, timeout, due, ReadFailed));
          r := Failed;
        case Delivers(data) =>
          Record(Call(at, timeout, due, ReadMoved(buf.Length, data)));
          r := Moved(|data|);
          if |data| <= buf.Length { CopyInto(buf, data); }
      }
    }

    method CopyInto(buf: array<Byte>, data: Bytes)
      requires |data| <= buf.Length
      modifies buf
      ensures buf[..|data|] == data
    {
      for i := 0 to |data|
        invariant forall k | 0 <= k < i :: buf[k] == data[k]
      {
        buf[i] := data[i];
      }
    }

    /** One more call, over by now. */
    ghost method Record(c: Call)
      requires Timeline(calls, c.at) && received == Delivered(calls) && OverBy(c, now)
      modifies `calls, `received
      ensures Valid() && calls == old(calls) + [c]
      ensures received == old(received) + if c.event.ReadMoved? && |c.event.data| <= c.event.room then c.event.data else []
    {
      TimelineStep(calls, c.at, c, now);
      DeliveredStep(calls, c);
      calls := calls + [c];
      received := Delivered(calls);
    }

    /** The device takes a prefix of what is offered; it may claim more than that. */
    method WriteBulk(offered: Bytes, timeout: Duration, ghost due: Due)
        returns (r: IoResult)
      requires Valid()
      modifies this
      ensures Valid()
      ensures received == old(received)
      ensures now >= old(now) + (if r.TimedOut? then timeout else 0)
      ensures var event := match r
                           case TimedOut => WriteTimedOut(|old(accepted)|, offered)
                           case Failed => WriteFailed(|old(accepted)|, offered)
                           case Moved(n) => WriteMoved(|old(accepted)|, offered, n);
              calls == old(calls) + [Call(old(now), timeout, due, event)]
      ensures accepted == old(accepted) +
                if r.Moved? then offered[..if r.n <= |offered| then r.n else |offered|] else []
    {
      hide Timeline, Delivered;
      ghost var at := now;
      var reply := writeScript(step);
      now := now + delayScript(step);
      step := step + 1;
      match reply {
        case WriteTimesOut =>
          now := now + timeout;
          Record(Call(at, timeout, due, WriteTimedOut(|accepted|, offered)));
          r := TimedOut;
        case WriteFails =>
          Record(Call(at, timeout, due, WriteFailed(|accepted|, offered)));
          r := Failed;
        case Takes(n) =>
          Record(Call(at, timeout, due, WriteMoved(|accepted|, offered, n)));
          accepted := accepted + offered[..if n <= |offered| then n else |offered|];
          r := Moved(n);
      }
    }
  }
}
