/** A PTP session over the bulk transport: numbered transactions, poisoning after any ambiguous
    failure, and a read buffer that grows between transactions. */
module Session {
  import opened Wrappers
  import opened Wire
  import opened UsbLink
  import opened Deadlines
  import opened BulkRead
  import opened BulkWrite
  import opened Container
  import opened Transaction
  import ChunkPolicy

  const U32_MAX: nat := 0xFFFF_FFFF

  /** One command of the session: its transaction id, and whether anything of it may have
      reached the device. */
  datatype Issued = Issued(id: nat, onWire: bool)

  datatype Request = Request(code: CommandCode, params: seq<U32>, data: Option<Bytes>) {
    /** The parameters do not fit the payload of a container. */
    predicate TooLong() { |params| * 4 > MAX_CONTAINER_PAYLOAD_BYTES }
  }

  /** The command container of a transaction, and the data container if it has one. */
  function CommandBytes(q: Request, id: U32): Bytes {
    Message(CommandBlock, q.code, id, PutMany(q.params, 4, []))
  }

  function DataBytes(q: Request, id: U32): Bytes {
    match q.data
    case None => []
    case Some(data) => Message(DataBlock, q.code, id, data)
  }

  /** Ids rise, and a command that may have reached the device never shares its id. */
  ghost predicate WellNumbered(history: seq<Issued>, next: nat) {
    && (forall i | 0 <= i < |history| ::
          history[i].id <= next && (history[i].onWire ==> history[i].id < next))
    && (forall i, j | 0 <= i < j < |history| ::
          history[i].id <= history[j].id && (history[i].onWire ==> history[i].id < history[j].id))
  }

  /** The calls of one transaction that started then: all keep to the operation's policy. */
  ghost predicate KeepsTo(before: seq<Call>, after: seq<Call>, started: Instant, policy: TimeoutPolicy) {
    Continues(before, after, TransactionTerms(started + policy.transaction, policy))
  }

  /** An id as it goes on the wire. */
  function IdOf(id: nat): U32 { if id <= U32_MAX then id else 0 }

  lemma NothingTried(calls: seq<Call>, base: nat, command: Bytes, data: Bytes, chunk: nat, from: nat, policy: TimeoutPolicy)
    ensures PacedAs(calls, calls, base + |command|, from, [], policy) && RequestChunks(calls, calls, base, command, data, chunk)
  {}

  /** What a call of a transaction waits under: writes up to stream position `limit` are the
      command container's, later ones the data container's; reads wait for headers under the
      response allowance and for payloads under the data allowance. */
  ghost predicate PacedAs(before: seq<Call>, after: seq<Call>, limit: nat, base: nat, blocks: seq<Block>, policy: TimeoutPolicy) {
    forall i | |before| <= i < |after| ::
      after[i].due.pace ==
        if after[i].event.IsWrite() then WritePace(after[i].event.offset, limit, policy)
        else if InHeader(|Delivered(after[..i])| - base, blocks) then Pace(ResponsePhase, policy.response)
        else Pace(DataTransfer, policy.dataIdle)
  }

  function WritePace(offset: nat, limit: nat, policy: TimeoutPolicy): Pace {
    if offset < limit then Pace(CommandWrite, policy.commandIdle) else Pace(DataTransfer, policy.dataIdle)
  }

  ghost predicate WritePaced(before: seq<Call>, after: seq<Call>, limit: nat, policy: TimeoutPolicy) {
    forall i | |before| <= i < |after| ::
      after[i].event.IsWrite() && after[i].due.pace == WritePace(after[i].event.offset, limit, policy)
  }

  /** The record of a link. */
  datatype Traffic = Traffic(calls: seq<Call>, accepted: Bytes, received: Bytes)

  ghost function TrafficOf(link: Link): Traffic
    reads link
  {
    Traffic(link.calls, link.accepted, link.received)
  }

  /** Every write offered the rest of a chunk of the command container or the data container. */
  ghost predicate RequestChunks(before: seq<Call>, after: seq<Call>, base: nat, command: Bytes, data: Bytes, chunk: nat) {
    forall i | |before| <= i < |after| && after[i].event.IsWrite() ::
      && LegalChunkSize(chunk)
      && (OffersChunk(after[i].event, base, command, chunk) || OffersChunk(after[i].event, base + |command|, data, chunk))
  }

  /** Why a container could not be written: its chunk size or length, or the last calls or the
      clock say so under the phase's allowance. */
  ghost predicate WriteFailsFor(e: WriteError, before: seq<Call>, after: seq<Call>, now: Instant, hard: Instant, pace: Pace,
                             chunk: nat, length: nat) {
    match e
    case BadChunkSize => !LegalChunkSize(chunk)
    case ContainerTooLong => length >= 0xFFFF_FFF4
    case _ => WriteStoppedBy(e, before, after, now, hard, pace)
  }

  ghost predicate CommandFails(e: WriteError, q: Request, id: U32, s: Traffic, t: Traffic, now: Instant, hard: Instant,
                               chunk: nat, policy: TimeoutPolicy) {
    && IsPartOf(t.accepted, s.accepted, CommandBytes(q, id))
    && WriteFailsFor(e, s.calls, t.calls, now, hard, Pace(CommandWrite, policy.commandIdle), chunk, |PutMany(q.params, 4, [])|)
  }

  ghost predicate DataFails(e: WriteError, q: Request, id: U32, s: Traffic, t: Traffic, now: Instant, hard: Instant,
                               chunk: nat, policy: TimeoutPolicy) {
    && q.data.Some? && IsPartOf(t.accepted, s.accepted + CommandBytes(q, id), DataBytes(q, id))
    && WriteFailsFor(e, s.calls, t.calls, now, hard, Pace(DataTransfer, policy.dataIdle), chunk, |q.data.value|)
  }

  /** What the result of a transaction that was tried says about the wire: the request went out
      unless writing it failed, the containers read say what the answer is or what is wrong with
      it, and a container that could not be had is explained. */
  ghost predicate Outcome(q: Request, id: U32, r: SendResult, s: Traffic, t: Traffic, now: Instant, pending: Bytes, hard: Instant,
                          blocks: seq<Block>, chunk: nat, policy: TimeoutPolicy) {
    if IsWriteFailure(r) then
      && blocks == [] && t.received == s.received
      && if r.error.CommandWriteFailed? then CommandFails(r.error.write, q, id, s, t, now, hard, chunk, policy)
         else DataFails(r.error.write, q, id, s, t, now, hard, chunk, policy)
    else
      && t.accepted == s.accepted + CommandBytes(q, id) + DataBytes(q, id)
      && if IsConclusion(r) then Concludes(blocks, q.code, id, r) && t.received == s.received + StreamOf(blocks)
         else if r.error.BlockFailed? then
           && s.received + StreamOf(blocks) <= t.received
           && BlockFails(r.error.block, s.calls, t.calls, now, hard, t.received, |s.received|, blocks, policy)
         else
           && Offends(blocks, q.code, id, r.error) && t.received == s.received + StreamOf(blocks) + pending
           && (r.error.BytesAfterResponse? ==> pending != [])
  }

  lemma WriteFailsAs(e: WriteError, before: seq<Call>, after: seq<Call>, now: Instant, due: Due, chunk: nat, length: nat)
    requires WriteExplains(e, before, after, now, due)
    requires e.BadChunkSize? ==> !LegalChunkSize(chunk)
    requires e.ContainerTooLong? ==> length >= 0xFFFF_FFF4
    ensures WriteFailsFor(e, before, after, now, due.hard, due.pace, chunk, length)
  {
    hide WriteExplains;
    assert due == Due(due.idle, due.hard, due.pace);
  }

  lemma WriteFailsLater(e: WriteError, a: seq<Call>, b: seq<Call>, c: seq<Call>, now: Instant, hard: Instant, pace: Pace,
                        chunk: nat, length: nat)
    requires |a| <= |b| <= |c| && c[..|b|] == b && EndsInProgress(a, b)
    requires WriteFailsFor(e, b, c, now, hard, pace, chunk, length)
    ensures WriteFailsFor(e, a, c, now, hard, pace, chunk, length)
  {
    hide WriteStoppedBy, EndsInProgress;
    if !e.BadChunkSize? && !e.ContainerTooLong? { WriteStoppedLater(e, a, b, c, now, hard, pace); }
  }

  lemma BlameStays(e: BlockError, stream: Bytes, longer: Bytes, from: nat)
    requires BlamesHeader(e, stream, from) && stream <= longer
    ensures BlamesHeader(e, longer, from)
  {
    hide ParseHeader;
    assert stream[from..from + 12] == longer[from..from + 12];
  }

  /** The outcome when the request could not be written. */
  lemma WriteOutcome(q: Request, id: U32, e: SendError, s: Traffic, t: Traffic, now: Instant, pending: Bytes, hard: Instant,
                     chunk: nat, policy: TimeoutPolicy)
    requires t.received == s.received && IsWriteFailure(Refused(e))
    requires e.CommandWriteFailed? ==> CommandFails(e.write, q, id, s, t, now, hard, chunk, policy)
    requires e.DataWriteFailed? ==> DataFails(e.write, q, id, s, t, now, hard, chunk, policy)
    ensures Outcome(q, id, Refused(e), s, t, now, pending, hard, [], chunk, policy)
  {
    hide CommandFails, DataFails;
  }

  /** The response part of the outcome, from what reading it came to. */
  lemma ReadOutcome(q: Request, id: U32, r: SendResult, s: Traffic, mid: seq<Call>, t: Traffic, now: Instant, consumed: Bytes,
                    pending: Bytes, hard: Instant, blocks: seq<Block>, chunk: nat, policy: TimeoutPolicy)
    requires |s.calls| <= |mid| <= |t.calls| && t.calls[..|mid|] == mid && EndsInProgress(s.calls, mid)
    requires t.accepted == s.accepted + CommandBytes(q, id) + DataBytes(q, id) && !Rejected(r) && !IsWriteFailure(r)
    requires t.received == consumed + pending
    requires IsConclusion(r) ==> pending == [] && Concludes(blocks, q.code, id, r) && consumed == s.received + StreamOf(blocks)
    requires r.Refused? && r.error.BlockFailed? ==>
               && BlockFails(r.error.block, mid, t.calls, now, hard, consumed, |s.received|, blocks, policy)
               && s.received + StreamOf(blocks) <= consumed
    requires !IsConclusion(r) && !r.error.BlockFailed? ==>
               && Offends(blocks, q.code, id, r.error) && consumed == s.received + StreamOf(blocks)
               && (r.error.BytesAfterResponse? ==> pending != [])
    ensures Outcome(q, id, r, s, t, now, pending, hard, blocks, chunk, policy)
  {
    hide EndsInProgress, Concludes, Offends, StreamOf, CommandBytes, DataBytes, StoppedBy, BlamesHeader, Delivered;
    if r.Refused? && r.error.BlockFailed? {
      BlockFailsLater(r.error.block, s.calls, mid, t.calls, now, hard, consumed, |s.received|, blocks, policy);
      if !r.error.block.ReadStopped? {
        BlameStays(r.error.block, consumed, t.received, |s.received| + if blocks == [] then 0 else 12 + |blocks[0].payload|);
      }
    }
  }

  lemma ReadsOfferNothing(a: seq<Call>, b: seq<Call>, c: seq<Call>, base: nat, command: Bytes, data: Bytes, chunk: nat)
    requires a <= b <= c && OnlyReads(b, c) && RequestChunks(a, b, base, command, data, chunk)
    ensures RequestChunks(a, c, base, command, data, chunk)
  {
    hide OffersChunk;
    forall i | |a| <= i < |c| && c[i].event.IsWrite()
      ensures LegalChunkSize(chunk) && (OffersChunk(c[i].event, base, command, chunk) || OffersChunk(c[i].event, base + |command|, data, chunk))
    {
      assert c[i] == b[i];
    }
  }

  lemma ContainerPaced(before: seq<Call>, after: seq<Call>, base: nat, message: Bytes, chunk: nat, hard: Instant, pace: Pace)
    requires Continues(before, after, Terms(hard, {pace}))
    requires if LegalChunkSize(chunk) then AllOfferChunks(before, after, base, message, chunk) else after == before
    ensures forall i | |before| <= i < |after| ::
              after[i].event.IsWrite() && base <= after[i].event.offset < base + |message| && after[i].due.pace == pace
  {
    forall i | |before| <= i < |after|
      ensures after[i].event.IsWrite() && base <= after[i].event.offset < base + |message| && after[i].due.pace == pace
    {
      assert Within(after[i], Terms(hard, {pace}));
      hide Within;
      assert OffersChunk(after[i].event, base, message, chunk);
    }
  }

  lemma CommandPaced(before: seq<Call>, after: seq<Call>, base: nat, message: Bytes, chunk: nat, hard: Instant, policy: TimeoutPolicy)
    requires Continues(before, after, Terms(hard, {Pace(CommandWrite, policy.commandIdle)}))
    requires if LegalChunkSize(chunk) then AllOfferChunks(before, after, base, message, chunk) else after == before
    ensures WritePaced(before, after, base + |message|, policy)
  {
    ContainerPaced(before, after, base, message, chunk, hard, Pace(CommandWrite, policy.commandIdle));
  }

  lemma DataPaced(a: seq<Call>, b: seq<Call>, c: seq<Call>, limit: nat, message: Bytes, chunk: nat, hard: Instant, policy: TimeoutPolicy)
    requires WritePaced(a, b, limit, policy) && a <= b
    requires Continues(b, c, Terms(hard, {Pace(DataTransfer, policy.dataIdle)}))
    requires if LegalChunkSize(chunk) then AllOfferChunks(b, c, limit, message, chunk) else c == b
    ensures WritePaced(a, c, limit, policy)
  {
    ContainerPaced(b, c, limit, message, chunk, hard, Pace(DataTransfer, policy.dataIdle));
    forall i | |a| <= i < |c| ensures c[i].event.IsWrite() && c[i].due.pace == WritePace(c[i].event.offset, limit, policy) {
      if i < |b| { assert c[..|b|][i] == b[i]; }
    }
  }

  lemma WritesAlonePaced(before: seq<Call>, after: seq<Call>, limit: nat, base: nat, policy: TimeoutPolicy)
    requires WritePaced(before, after, limit, policy)
    ensures PacedAs(before, after, limit, base, [], policy)
  {
    hide Delivered;
  }

  lemma WholePaced(a: seq<Call>, b: seq<Call>, c: seq<Call>, limit: nat, base: nat, blocks: seq<Block>, policy: TimeoutPolicy)
    requires a <= b <= c && WritePaced(a, b, limit, policy)
    requires OnlyReads(b, c) && ResponsePaced(b, c, base, blocks, policy)
    ensures PacedAs(a, c, limit, base, blocks, policy)
  {
    hide Delivered;
    forall i | |a| <= i < |c|
      ensures c[i].due.pace ==
                if c[i].event.IsWrite() then WritePace(c[i].event.offset, limit, policy)
                else if InHeader(|Delivered(c[..i])| - base, blocks) then Pace(ResponsePhase, policy.response)
                else Pace(DataTransfer, policy.dataIdle)
    {
      if i < |b| { assert c[i] == b[i]; }
    }
  }

  /** The calls of an opening: one transaction, and up to two more when a stale session is in the
      way. */
  ghost predicate OpeningKeeps(before: seq<Call>, after: seq<Call>, from: Instant, to: Instant) {
    exists first, started, now ::
      && from <= started <= now <= to
      && KeepsTo(before, first, started, Standard.Policy()) && RecoveryKeeps(first, after, now, to)
  }

  ghost predicate RecoveryKeeps(before: seq<Call>, after: seq<Call>, from: Instant, to: Instant) {
    exists second, t1, t2 ::
      && from <= t1 <= t2 <= to
      && KeepsTo(before, second, t1, Standard.Policy()) && KeepsTo(second, after, t2, Standard.Policy())
  }

  lemma NoCallsKeep(calls: seq<Call>, started: Instant, policy: TimeoutPolicy)
    ensures KeepsTo(calls, calls, started, policy)
  {}

  lemma NoCallsRecover(calls: seq<Call>, now: Instant)
    ensures RecoveryKeeps(calls, calls, now, now)
  {
    hide KeepsTo;
    NoCallsKeep(calls, now, Standard.Policy());
  }

  lemma RecoveryPieces(before: seq<Call>, second: seq<Call>, after: seq<Call>, from: Instant, t1: Instant, t2: Instant, to: Instant)
    requires from <= t1 <= t2 <= to
    requires KeepsTo(before, second, t1, Standard.Policy()) && KeepsTo(second, after, t2, Standard.Policy())
    ensures RecoveryKeeps(before, after, from, to)
  {
    hide KeepsTo;
  }

  lemma OpeningPieces(before: seq<Call>, first: seq<Call>, after: seq<Call>, from: Instant, started: Instant, now: Instant, to: Instant)
    requires from <= started <= now <= to
    requires KeepsTo(before, first, started, Standard.Policy()) && RecoveryKeeps(first, after, now, to)
    ensures OpeningKeeps(before, after, from, to)
  {
    hide KeepsTo, RecoveryKeeps;
  }

  class PtpSession {
    const link: Link
    const policy: ChunkPolicy.Policy
    var readState: BulkReadState
    var transactionId: nat
    var poisoned: bool

    /** The commands issued since the id counter last started, the calls made when the session
        was poisoned, and the promotions that succeeded. */
    ghost var history: seq<Issued>
    ghost var callsAtPoison: seq<Call>
    ghost var promotions: nat

    ghost predicate Valid()
      reads this, link, policy, readState, readState.buffer
    {
      && link.Valid() && readState.Valid() && readState.Conserves(link)
      && transactionId <= U32_MAX
      && (!poisoned ==> readState.FlagInStep(link) && readState.Pending() == [])
      && (poisoned ==> link.calls == callsAtPoison)
      && WellNumbered(history, transactionId)
      && readState.buffer.Length == policy.read.effective
      && Sized()
    }

    /** The policy is sound, and at most five promotions ever succeed. */
    ghost predicate Sized()
      reads this`promotions, policy
    {
      policy.readMaxPacketSize != 0 && policy.Valid() && policy.AtMostFive(promotions)
    }

    /** A new session owns a link nothing was read from yet. */
    constructor (link: Link, policy: ChunkPolicy.Policy, readState: BulkReadState)
      requires link.Valid() && link.calls == [] && link.received == []
      requires policy.Valid() && policy.read.initial == policy.read.effective
      requires readState.InStep(link) && readState.Pending() == []
      requires readState.buffer.Length == policy.read.effective
      ensures Valid() && fresh(this)
      ensures this.link == link && this.policy == policy && this.readState == readState
      ensures transactionId == 0 && !poisoned && history == [] && promotions == 0
    {
      this.link, this.policy, this.readState := link, policy, readState;
      transactionId, poisoned := 0, false;
      history, callsAtPoison, promotions := [], [], 0;
    }

    /** The command container and, when there is one, the data container. */
    method WriteRequest(q: Request, id: U32, payload: Bytes, writeChunk: nat, hardExpiresAt: Instant, timeouts: TimeoutPolicy)
        returns (error: Option<SendError>, touched: bool)
      requires link.Valid() && payload == PutMany(q.params, 4, [])
      modifies link
      ensures link.Valid() && link.received == old(link.received) && link.now >= old(link.now)
      ensures Continues(old(link.calls), link.calls, TransactionTerms(hardExpiresAt, timeouts))
      ensures touched <==> Touched(old(link.calls), link.calls)
      ensures OnlyWrites(old(link.calls), link.calls)
      ensures RequestChunks(old(link.calls), link.calls, |old(link.accepted)|, CommandBytes(q, id), DataBytes(q, id), writeChunk)
      ensures error.None? ==>
                && touched && EndsInProgress(old(link.calls), link.calls)
                && link.accepted == old(link.accepted) + CommandBytes(q, id) + DataBytes(q, id)
      ensures WritePaced(old(link.calls), link.calls, |old(link.accepted)| + |CommandBytes(q, id)|, timeouts)
      ensures error.Some? ==>
                match error.value
                case CommandWriteFailed(e) =>
                  CommandFails(e, q, id, old(TrafficOf(link)), TrafficOf(link), link.now, hardExpiresAt, writeChunk, timeouts)
                case DataWriteFailed(e) =>
                  touched && DataFails(e, q, id, old(TrafficOf(link)), TrafficOf(link), link.now, hardExpiresAt, writeChunk, timeouts)
                case _ => false
    {
      hide Continues, EndsInProgress, Touched, Timeline, AllOfferChunks, IsPartOf, Message, OnlyWrites, WritePaced,
           Delivered, Fresh, WriteExplains, WriteFailsFor, OffersChunk;
      ghost var calls, accepted := link.calls, link.accepted;
      ghost var terms := TransactionTerms(hardExpiresAt, timeouts);
      var commandDeadline := StartPhase(link, hardExpiresAt, CommandWrite, timeouts.commandIdle);
      NoCalls(calls);
      var status;
      status, touched := WriteContainer(link, writeChunk, CommandBlock, q.code, payload, id, commandDeadline, false);
      CommandPaced(calls, link.calls, |accepted|, CommandBytes(q, id), writeChunk, hardExpiresAt, timeouts);
      ContinuesWiden(calls, link.calls, TermsOf(commandDeadline), terms);
      if status.Unwritten? {
        WriteFailsAs(status.error, calls, link.calls, link.now, commandDeadline.InForce(), writeChunk, |payload|);
        OnlyCommand(calls, link.calls, |accepted|, CommandBytes(q, id), DataBytes(q, id), writeChunk);
        return Some(CommandWriteFailed(status.error)), touched;
      }
      if q.data.None? {
        assert link.accepted + [] == link.accepted;
        OnlyCommand(calls, link.calls, |accepted|, CommandBytes(q, id), DataBytes(q, id), writeChunk);
        return None, touched;
      }
      ghost var mid, midAccepted := link.calls, link.accepted;
      var dataDeadline := StartPhase(link, hardExpiresAt, DataTransfer, timeouts.dataIdle);
      var data := q.data.value;
      status, touched := WriteContainer(link, writeChunk, DataBlock, q.code, data, id, dataDeadline, touched);
      ContinuesIsPrefix(calls, mid, terms);
      DataPaced(calls, mid, link.calls, |midAccepted|, DataBytes(q, id), writeChunk, hardExpiresAt, timeouts);
      ContinuesWiden(mid, link.calls, TermsOf(dataDeadline), terms);
      ContinuesTrans(calls, mid, link.calls, terms);
      OnlyWritesTrans(calls, mid, link.calls, terms);
      BothContainers(calls, mid, link.calls, |accepted|, CommandBytes(q, id), DataBytes(q, id), writeChunk, terms);
      if status.Unwritten? {
        WriteFailsAs(status.error, mid, link.calls, link.now, dataDeadline.InForce(), writeChunk, |data|);
        WriteFailsLater(status.error, calls, mid, link.calls, link.now, hardExpiresAt, Pace(DataTransfer, timeouts.dataIdle), writeChunk, |data|);
        return Some(DataWriteFailed(status.error)), touched;
      }
      error := None;
    }

    /** One transaction on a usable session: the request goes out, then the response is read. */
    method Exchange(q: Request, hardExpiresAt: Instant, timeouts: TimeoutPolicy)
        returns (r: SendResult, ghost blocks: seq<Block>, touched: bool)
      requires Valid() && !poisoned && transactionId < U32_MAX
      modifies this`transactionId, this`poisoned, this`history, this`callsAtPoison, link, readState, readState.buffer
      ensures Valid() && readState.buffer == old(readState.buffer) && link.now >= old(link.now)
      ensures Continues(old(link.calls), link.calls, TransactionTerms(hardExpiresAt, timeouts))
      ensures touched <==> Touched(old(link.calls), link.calls)
      ensures !Rejected(r)
      ensures PacedAs(old(link.calls), link.calls, |old(link.accepted)| + |CommandBytes(q, IdOf(old(transactionId)))|,
                      |old(link.received)|, blocks, timeouts)
      ensures RequestChunks(old(link.calls), link.calls, |old(link.accepted)|, CommandBytes(q, IdOf(old(transactionId))),
                            DataBytes(q, IdOf(old(transactionId))), policy.write.effective)
      ensures Outcome(q, old(transactionId), r, old(TrafficOf(link)), TrafficOf(link), link.now, readState.Pending(), hardExpiresAt,
                      blocks, policy.write.effective, timeouts)
      ensures transactionId == old(transactionId) + if touched then 1 else 0
      ensures poisoned <==> touched && !IsConclusion(r)
      ensures IsConclusion(r) ==>
                && touched
                && link.accepted == old(link.accepted) + CommandBytes(q, old(transactionId)) + DataBytes(q, old(transactionId))
                && Concludes(blocks, q.code, old(transactionId), r)
                && link.received == old(link.received) + StreamOf(blocks)
      ensures history == old(history) + [Issued(old(transactionId), touched)]
    {
      hide Continues, EndsInProgress, Touched, Timeline, Message, IsPartOf, RequestChunks, Concludes,
           Offends, LastReadFilled, OnlyWrites, WellNumbered, StreamOf, PutMany, Sized, Delivered, WritePaced,
           ResponsePaced, PacedAs, CommandBytes, DataBytes, CommandFails, DataFails, BlockFails, Outcome;
      var id: U32 := transactionId;
      var payload := PutMany(q.params, 4, []);
      ghost var calls, traffic := link.calls, TrafficOf(link);
      NumberOneMore(history, id, false);
      NumberOneMore(history, id, true);
      var error;
      error, touched := WriteRequest(q, id, payload, policy.write.effective, hardExpiresAt, timeouts);
      history := history + [Issued(id, touched)];
      if touched { transactionId := id + 1; }
      OnlyWritesKeepFlag(calls, link.calls, TransactionTerms(hardExpiresAt, timeouts));
      if error.Some? {
        if touched { poisoned := true; }
        callsAtPoison := link.calls;
        WritesAlonePaced(calls, link.calls, |traffic.accepted| + |CommandBytes(q, id)|, |link.received|, timeouts);
        WriteOutcome(q, id, error.value, traffic, TrafficOf(link), link.now, readState.Pending(), hardExpiresAt,
                     policy.write.effective, timeouts);
        return Refused(error.value), [], touched;
      }
      ContinuesIsPrefix(calls, link.calls, TransactionTerms(hardExpiresAt, timeouts));
      r, blocks := Answer(q, id, hardExpiresAt, timeouts, traffic);
      if !IsConclusion(r) { poisoned := true; }
      callsAtPoison := link.calls;
    }

    /** The response to a request that went out, from the traffic before it. */
    method Answer(q: Request, id: U32, hardExpiresAt: Instant, timeouts: TimeoutPolicy, ghost traffic: Traffic)
        returns (r: SendResult, ghost blocks: seq<Block>)
      requires link.Valid() && readState.InStep(link) && readState.Pending() == []
      requires traffic.calls <= link.calls && EndsInProgress(traffic.calls, link.calls)
      requires Continues(traffic.calls, link.calls, TransactionTerms(hardExpiresAt, timeouts))
      requires link.received == traffic.received && link.accepted == traffic.accepted + CommandBytes(q, id) + DataBytes(q, id)
      requires WritePaced(traffic.calls, link.calls, |traffic.accepted| + |CommandBytes(q, id)|, timeouts)
      requires RequestChunks(traffic.calls, link.calls, |traffic.accepted|, CommandBytes(q, id), DataBytes(q, id), policy.write.effective)
      modifies link, readState, readState.buffer
      ensures link.Valid() && readState.Valid() && readState.Conserves(link) && readState.buffer == old(readState.buffer)
      ensures link.accepted == old(link.accepted) && link.now >= old(link.now) && !Rejected(r) && !IsWriteFailure(r)
      ensures Continues(traffic.calls, link.calls, TransactionTerms(hardExpiresAt, timeouts))
      ensures Touched(traffic.calls, link.calls) <==> Touched(traffic.calls, old(link.calls))
      ensures PacedAs(traffic.calls, link.calls, |traffic.accepted| + |CommandBytes(q, id)|, |traffic.received|, blocks, timeouts)
      ensures RequestChunks(traffic.calls, link.calls, |traffic.accepted|, CommandBytes(q, id), DataBytes(q, id), policy.write.effective)
      ensures Outcome(q, id, r, traffic, TrafficOf(link), link.now, readState.Pending(), hardExpiresAt, blocks,
                      policy.write.effective, timeouts)
      ensures IsConclusion(r) ==>
                && readState.InStep(link) && readState.Pending() == []
                && Concludes(blocks, q.code, id, r) && link.received == traffic.received + StreamOf(blocks)
    {
      hide Continues, EndsInProgress, Touched, RequestChunks, Concludes, Offends, LastReadFilled, StreamOf, Delivered,
           WritePaced, ResponsePaced, PacedAs, CommandBytes, DataBytes, BlockFails, Outcome, Timeline;
      ghost var mid := link.calls;
      assert traffic.received == readState.consumed + [] == readState.consumed;
      r, blocks := ReadResponse(link, readState, q.code, id, hardExpiresAt, timeouts);
      ContinuesIsPrefix(mid, link.calls, TransactionTerms(hardExpiresAt, timeouts));
      ContinuesTrans(traffic.calls, mid, link.calls, TransactionTerms(hardExpiresAt, timeouts));
      WholePaced(traffic.calls, mid, link.calls, |traffic.accepted| + |CommandBytes(q, id)|, |traffic.received|, blocks, timeouts);
      ReadsOfferNothing(traffic.calls, mid, link.calls, |traffic.accepted|, CommandBytes(q, id), DataBytes(q, id), policy.write.effective);
      ReadOutcome(q, id, r, traffic, mid, TrafficOf(link), link.now, readState.consumed, readState.Pending(), hardExpiresAt, blocks,
                  policy.write.effective, timeouts);
      if IsConclusion(r) { assert link.received == readState.consumed + [] == readState.consumed; }
    }

    /** One transaction. The id rises by one exactly when something may have reached the device;
        after that, only a well-framed response leaves the session usable. */
    method Send(q: Request, hardExpiresAt: Instant, timeouts: TimeoutPolicy)
        returns (r: SendResult, ghost blocks: seq<Block>, ghost touched: bool)
      requires Valid()
      modifies this`transactionId, this`poisoned, this`history, this`callsAtPoison, link, readState, readState.buffer
      ensures Valid() && readState.buffer == old(readState.buffer) && link.now >= old(link.now)
      ensures Continues(old(link.calls), link.calls, TransactionTerms(hardExpiresAt, timeouts))
      ensures touched <==> Touched(old(link.calls), link.calls)
      ensures PacedAs(old(link.calls), link.calls, |old(link.accepted)| + |CommandBytes(q, IdOf(old(transactionId)))|,
                      |old(link.received)|, blocks, timeouts)
      ensures RequestChunks(old(link.calls), link.calls, |old(link.accepted)|, CommandBytes(q, IdOf(old(transactionId))),
                            DataBytes(q, IdOf(old(transactionId))), policy.write.effective)
      ensures !Rejected(r) ==>
                && old(transactionId) < U32_MAX
                && Outcome(q, old(transactionId), r, old(TrafficOf(link)), TrafficOf(link), link.now, readState.Pending(), hardExpiresAt,
                           blocks, policy.write.effective, timeouts)
      ensures r == Refused(SessionUnusable) <==> old(poisoned)
      ensures r == Refused(IdsExhausted) <==> !old(poisoned) && old(transactionId) == U32_MAX
      ensures r == Refused(ParamsTooLong) <==> !old(poisoned) && old(transactionId) < U32_MAX && |q.params| > 33_554_432
      ensures Rejected(r) ==>
                && link.calls == old(link.calls) && link.accepted == old(link.accepted)
                && link.received == old(link.received) && history == old(history)
      ensures transactionId == old(transactionId) + if touched then 1 else 0
      ensures poisoned <==> old(poisoned) || (touched && !IsConclusion(r))
      ensures IsConclusion(r) ==>
                && touched && old(transactionId) < U32_MAX
                && link.accepted == old(link.accepted) + CommandBytes(q, old(transactionId)) + DataBytes(q, old(transactionId))
                && Concludes(blocks, q.code, old(transactionId), r)
                && link.received == old(link.received) + StreamOf(blocks)
      ensures !Rejected(r) ==> history == old(history) + [Issued(old(transactionId), touched)]
    {
      blocks, touched := [], false;
      NothingYet(link.calls, TransactionTerms(hardExpiresAt, timeouts), []);
      NothingTried(link.calls, |link.accepted|, CommandBytes(q, IdOf(transactionId)), DataBytes(q, IdOf(transactionId)),
                   policy.write.effective, |link.received|, timeouts);
      assert transactionId <= U32_MAX;
      assert q.TooLong() <==> |q.params| > 33_554_432;
      hide Continues, Touched, Concludes, Outcome, RequestChunks, PacedAs, CommandBytes, DataBytes, StreamOf, PtpSession.Valid,
           Request.TooLong;
      if poisoned { return Refused(SessionUnusable), blocks, touched; }
      if transactionId == U32_MAX { return Refused(IdsExhausted), blocks, touched; }
      if q.TooLong() { return Refused(ParamsTooLong), blocks, touched; }
      r, blocks, touched := Exchange(q, hardExpiresAt, timeouts);
    }

    /** `send_with_transport_for_operation`: one hard expiry for all phases. */
    method SendForOperation(operation: Operation, q: Request)
        returns (r: SendResult, ghost blocks: seq<Block>, ghost touched: bool)
      requires Valid()
      modifies this`transactionId, this`poisoned, this`history, this`callsAtPoison, link, readState, readState.buffer
      ensures Valid() && readState.buffer == old(readState.buffer)
      ensures exists started ::
                && old(link.now) <= started <= link.now && KeepsTo(old(link.calls), link.calls, started, operation.Policy())
                && (!Rejected(r) ==>
                      && old(transactionId) < U32_MAX
                      && Outcome(q, old(transactionId), r, old(TrafficOf(link)), TrafficOf(link), link.now, readState.Pending(),
                                 started + operation.Policy().transaction, blocks, policy.write.effective, operation.Policy()))
      ensures old(link.calls) <= link.calls
      ensures touched <==> Touched(old(link.calls), link.calls)
      ensures PacedAs(old(link.calls), link.calls, |old(link.accepted)| + |CommandBytes(q, IdOf(old(transactionId)))|,
                      |old(link.received)|, blocks, operation.Policy())
      ensures RequestChunks(old(link.calls), link.calls, |old(link.accepted)|, CommandBytes(q, IdOf(old(transactionId))),
                            DataBytes(q, IdOf(old(transactionId))), policy.write.effective)
      ensures r == Refused(SessionUnusable) <==> old(poisoned)
      ensures r == Refused(IdsExhausted) <==> !old(poisoned) && old(transactionId) == U32_MAX
      ensures r == Refused(ParamsTooLong) <==> !old(poisoned) && old(transactionId) < U32_MAX && |q.params| > 33_554_432
      ensures Rejected(r) ==>
                && link.calls == old(link.calls) && link.accepted == old(link.accepted)
                && link.received == old(link.received) && history == old(history)
      ensures transactionId == old(transactionId) + if touched then 1 else 0
      ensures poisoned <==> old(poisoned) || (touched && !IsConclusion(r))
      ensures IsConclusion(r) ==>
                && touched && old(transactionId) < U32_MAX
                && link.accepted == old(link.accepted) + CommandBytes(q, old(transactionId)) + DataBytes(q, old(transactionId))
                && Concludes(blocks, q.code, old(transactionId), r)
                && link.received == old(link.received) + StreamOf(blocks)
      ensures !Rejected(r) ==> history == old(history) + [Issued(old(transactionId), touched)]
    {
      hide Timeline, Continues, Touched, Message, IsPartOf, Concludes, LastReadFilled, WellNumbered,
           StreamOf, Sized, Outcome, RequestChunks, PacedAs;
      var now := link.Now();
      var hard := now + operation.Policy().transaction;
      r, blocks, touched := Send(q, hard, operation.Policy());
      assert KeepsTo(old(link.calls), link.calls, now, operation.Policy());
      ContinuesIsPrefix(old(link.calls), link.calls, TransactionTerms(hard, operation.Policy()));
    }

    /** A read that succeeded may raise the read size for the next transaction. When the larger
        buffer cannot be had, nothing changes. */
    method ObserveReadSuccess(bytes: ChunkPolicy.Usize, elapsed: ChunkPolicy.Duration, allocates: bool)
      requires Valid() && !poisoned
      modifies this`readState, this`promotions, policy
      ensures Valid()
      ensures policy.write == old(policy.write)
      ensures policy.read.initial == old(policy.read.initial) && policy.read.ceiling == old(policy.read.ceiling)
      ensures readState.buffer.Length == policy.read.effective >= old(policy.read.effective)
      ensures policy.read.effective > old(policy.read.effective) <==> promotions == old(promotions) + 1
      ensures promotions == old(promotions) || promotions == old(promotions) + 1
      ensures promotions == old(promotions) + 1 <==>
                && ChunkPolicy.Promotes(old(policy.CurrentSample()), old(policy.read.effective), policy.read.ceiling,
                                        policy.readMaxPacketSize, bytes, elapsed)
                && allocates
                && ChunkPolicy.NextReadChunk(old(policy.read.effective), policy.read.ceiling, policy.readMaxPacketSize)
                     <= 16_777_216
      ensures promotions == old(promotions) ==> readState == old(readState) && policy.read == old(policy.read)
      ensures promotions == old(promotions) + 1 ==>
                policy.read.effective ==
                  ChunkPolicy.NextReadChunk(old(policy.read.effective), policy.read.ceiling, policy.readMaxPacketSize)
      ensures policy.CurrentSample() ==
                ChunkPolicy.Observed(old(policy.CurrentSample()), old(policy.read.effective), policy.read.ceiling, bytes, elapsed)
      ensures readState.consumed == old(readState.consumed)
      ensures promotions == old(promotions) + 1 ==>
                && fresh(readState) && fresh(readState.buffer) && allocates
                && policy.read.effective <= 16_777_216
                && old(policy.trueDuration) + elapsed > 0
                && ChunkPolicy.FitsTimeout(policy.read.effective, old(policy.trueDuration) + elapsed, old(policy.trueBytes) + bytes)
    {
      hide Timeline, LastReadFilled, WellNumbered;
      hide ChunkPolicy.NextReadChunk, ChunkPolicy.FitsTimeout, ChunkPolicy.PassesBudget, ChunkPolicy.PromotionsLeft;
      var promotion := policy.ObserveReadOnlySuccess(bytes, elapsed);
      if promotion.None? { return; }
      var resized := readState.Resized(link, promotion.value.newBytes, allocates);
      if resized == null {
        policy.RollBack(promotion.value);
      } else {
        readState := resized;
        promotions := promotions + 1;
      }
    }

    /** One transaction, stated on the state before and after. */
    method SendStated(operation: Operation, q: Request) returns (r: SendResult)
      requires Valid()
      modifies this`transactionId, this`poisoned, this`history, this`callsAtPoison, link, readState, readState.buffer
      ensures Valid() && readState.buffer == old(readState.buffer)
      ensures SentLaw(operation, q, r, old(State()), State())
      ensures r.Sent? ==> !poisoned && |r.data| < 0x1_0000_0000
    {
      hide Timeline, Continues, Touched, Message, IsPartOf, Concludes, LastReadFilled, WellNumbered, StreamOf, Sized,
           KeepsTo, DataBytes, CommandBytes, Outcome, RequestChunks, PacedAs;
      ghost var from := State();
      ghost var blocks, touched;
      r, blocks, touched := SendForOperation(operation, q);
      ghost var started :|
        && from.now <= started <= link.now && KeepsTo(from.calls, link.calls, started, operation.Policy())
        && (!Rejected(r) ==>
              && from.id < U32_MAX
              && Outcome(q, from.id, r, from.Record(), TrafficOf(link), link.now, readState.Pending(),
                         started + operation.Policy().transaction, blocks, policy.write.effective, operation.Policy()));
      assert Exchanged(operation, q, r, from, State(), started, blocks);
      SentMeaning(operation, q, r, from, State(), started, blocks);
      if r.Sent? { DataIsShort(blocks, q.code, old(transactionId), r.data); }
    }

    /** `send_unchecked_for_operation`: after a read that succeeded and left nothing pending the
        read size may be raised. */
    method Transact(operation: Operation, q: Request, elapsed: ChunkPolicy.Duration, allocates: bool) returns (r: SendResult)
      requires Valid()
      modifies this, link, policy, readState, readState.buffer
      ensures Valid()
      ensures readState == old(readState) || fresh(readState)
      ensures readState.buffer == old(readState.buffer) || fresh(readState.buffer)
      ensures TransactLaw(operation, q, r, old(State()), State(), elapsed, allocates)
    {
      hide Timeline, LastReadFilled, WellNumbered, SentLaw, ChunkPolicy.PromotionsLeft, ChunkPolicy.NextReadChunk, ChunkPolicy.FitsTimeout,
           ChunkPolicy.PassesBudget, ChunkPolicy.Promotes, ChunkPolicy.Observed;
      RiskByCode(q.code);
      ghost var before := State();
      r := SendStated(operation, q);
      ghost var after := State();
      if r.Sent? && Risk(q.code).ReadOnly? {
        var pending := readState.HasPendingBytes();
        if !pending { ObserveReadSuccess(|r.data|, elapsed, allocates); }
      }
      PromotionMeaning(operation, q, r, before, after, State(), elapsed, allocates);
    }

    lemma IsSound()
      requires Valid()
      ensures Sound(State())
    {}

    method Take(step: Step) returns (r: SendResult)
      requires Valid()
      modifies this, link, policy, readState, readState.buffer
      ensures Valid()
      ensures readState == old(readState) || fresh(readState)
      ensures readState.buffer == old(readState.buffer) || fresh(readState.buffer)
      ensures StepLaw(step, r, old(State()), State())
    {
      hide TransactLaw, Valid, Touched, Dialogue, PromotedTo, SampleAfter;
      match step {
        case Transaction(operation, q, elapsed, allocates) => r := Transact(operation, q, elapsed, allocates);
        case Open(sessionId) =>
          ghost var ids, results;
          r, ids, results := OpenSession(sessionId);
      }
    }

    /** The state as a value. */
    ghost function State(): Snapshot
      requires readState.Valid()
      reads this, link, policy, readState, readState.buffer
    {
      Snapshot(link.calls, link.accepted, link.received, link.now, transactionId, poisoned, history,
               Sizing(policy.write.effective, policy.read.ceiling, policy.readMaxPacketSize, policy.CurrentSample()),
               policy.read.effective, promotions, readState.buffer.Length, readState.Pending())
    }

    /** `open_session`: every OpenSession command carries transaction id 0. When the camera says a
        session is already open, that one is closed and the command tried once more. */
    method OpenSession(sessionId: U32) returns (r: SendResult, ghost ids: seq<nat>, ghost results: seq<SendResult>)
      requires Valid()
      modifies this`transactionId, this`poisoned, this`history, this`callsAtPoison, link, readState, readState.buffer
      ensures Valid() && readState.buffer == old(readState.buffer)
      ensures old(poisoned) ==>
                r == Refused(SessionUnusable) && link.calls == old(link.calls) && link.accepted == old(link.accepted)
      ensures 1 <= |results| == |ids| <= 3 && r == results[|results| - 1]
      ensures |results| == 1 <==> results[0] != StaleSession()
      ensures |results| == 3 <==> results[0] == StaleSession() && results[1].Sent?
      ensures transactionId <= 2 && |history| <= 2 && (history != [] ==> history[0].id == 0)
      ensures old(link.calls) <= link.calls && (old(poisoned) ==> poisoned)
      ensures OpeningKeeps(old(link.calls), link.calls, old(link.now), link.now)
      ensures poisoned && !old(poisoned) ==> Touched(old(link.calls), link.calls) && !IsConclusion(r)
      ensures forall i | 0 <= i < |ids| :: i % 2 == 0 ==> ids[i] == 0
      ensures r.Sent? ==>
                && !poisoned && (ids == [0] || ids == [0, 1, 0])
                && link.accepted == old(link.accepted) + Dialogue(sessionId, ids == [0, 1, 0])
    {
      hide Timeline, Continues, Touched, Message, IsPartOf, LastReadFilled, StreamOf, Concludes, Sized,
           CommandBytes, WellNumbered, KeepsTo, Valid;
      RestartIds();
      ids := [transactionId];
      ghost var accepted := link.accepted;
      NoData(accepted, CommandBytes(OpenRequest(sessionId), 0), CommandBytes(CloseRequest(), 1));
      ghost var blocks, touched;
      ghost var calls, from := link.calls, link.now;
      r, blocks, touched := SendForOperation(Standard, OpenRequest(sessionId));
      results := [r];
      ghost var first, now := link.calls, link.now;
      ghost var started :| from <= started <= now && KeepsTo(calls, first, started, Standard.Policy());
      if r != StaleSession() {
        NoCallsRecover(first, now);
      } else {
        ghost var moreIds, moreResults;
        r, moreIds, moreResults := RecoverStale(sessionId);
        ids, results := ids + moreIds, results + moreResults;
        TouchedExtends(calls, first, link.calls);
      }
      OpeningPieces(calls, first, link.calls, from, started, now, link.now);
    }

    /** Closes the session another host left open, and opens once more. */
    method RecoverStale(sessionId: U32) returns (r: SendResult, ghost ids: seq<nat>, ghost results: seq<SendResult>)
      requires Valid() && !poisoned && transactionId == 1 && |history| == 1 && history[0].id == 0
      modifies this`transactionId, this`poisoned, this`history, this`callsAtPoison, link, readState, readState.buffer
      ensures Valid() && readState.buffer == old(readState.buffer)
      ensures 1 <= |results| == |ids| <= 2 && r == results[|results| - 1]
      ensures |results| == 2 <==> results[0].Sent?
      ensures ids[0] == 1 && (|ids| == 2 ==> ids[1] == 0)
      ensures transactionId <= 2 && |history| <= 2 && (history != [] ==> history[0].id == 0)
      ensures old(link.calls) <= link.calls && RecoveryKeeps(old(link.calls), link.calls, old(link.now), link.now)
      ensures poisoned ==> Touched(old(link.calls), link.calls) && !IsConclusion(r)
      ensures r.Sent? ==>
                && !poisoned && |results| == 2
                && link.accepted == old(link.accepted) + CommandBytes(CloseRequest(), 1) + [] + CommandBytes(OpenRequest(sessionId), 0) + []
    {
      hide Timeline, Continues, Touched, Message, IsPartOf, LastReadFilled, StreamOf, Concludes, Sized,
           CommandBytes, WellNumbered, KeepsTo, Valid;
      ids := [transactionId];
      ghost var blocks, touched;
      ghost var calls, from := link.calls, link.now;
      r, blocks, touched := SendForOperation(Standard, CloseRequest());
      results := [r];
      ghost var second, now := link.calls, link.now;
      ghost var t1 :| from <= t1 <= now && KeepsTo(calls, second, t1, Standard.Policy());
      if r.Refused? {
        NoCallsKeep(second, now, Standard.Policy());
        RecoveryPieces(calls, second, second, from, t1, now, now);
        return;
      }
      RestartIds();
      ids := ids + [transactionId];
      r, blocks, touched := SendForOperation(Standard, OpenRequest(sessionId));
      results := results + [r];
      ghost var t2 :| now <= t2 <= link.now && KeepsTo(second, link.calls, t2, Standard.Policy());
      TouchedExtends(calls, second, link.calls);
      RecoveryPieces(calls, second, link.calls, from, t1, t2, link.now);
    }

    /** A new numbering begins with OpenSession. */
    method RestartIds()
      requires Valid()
      modifies this`transactionId, this`history
      ensures Valid() && transactionId == 0 && history == []
    {
      transactionId := 0;
      history := [];
    }
  }

  lemma TouchedExtends(a: seq<Call>, b: seq<Call>, c: seq<Call>)
    requires a <= b <= c
    ensures Touched(b, c) ==> Touched(a, c)
  {}

  lemma ContinuesIsPrefix(a: seq<Call>, b: seq<Call>, terms: Terms)
    requires Continues(a, b, terms)
    ensures a <= b
  {}

  /** The camera says that another host left a session open. */
  function StaleSession(): SendResult { Refused(ResponseError(ResponseCode.SessionAlreadyOpen.Code())) }

  function OpenRequest(sessionId: U32): Request { Request(CommandCode.OpenSession, [sessionId], None) }

  function CloseRequest(): Request { Request(CommandCode.CloseSession, [], None) }

  /** What opening a session writes, with or without closing a stale one first. */
  function Dialogue(sessionId: U32, stale: bool): Bytes {
    var opening := CommandBytes(OpenRequest(sessionId), 0);
    if stale then opening + CommandBytes(CloseRequest(), 1) + opening else opening
  }

  /** The same byte by byte: OpenSession with id 0 and the session id, CloseSession with id 1, and
      the response code that says a session is already open. */
  lemma OpeningOnTheWire(sessionId: U32)
    ensures CommandBytes(OpenRequest(sessionId), 0) ==
              [16, 0, 0, 0] + [1, 0] + [0x02, 0x10] + [0, 0, 0, 0] + LeBytes(sessionId, 4)
    ensures CommandBytes(CloseRequest(), 1) == [12, 0, 0, 0] + [1, 0] + [0x03, 0x10] + [1, 0, 0, 0]
    ensures StaleSession() == Refused(ResponseError(0x201E))
  {
    FourBytes(16);
    FourBytes(12);
    FourBytes(0);
    FourBytes(1);
    TwoBytes(1);
    TwoBytes(0x1002);
    TwoBytes(0x1003);
    hide LeBytes;
    assert PutMany([sessionId], 4, []) == PutLe(sessionId, 4, PutMany([], 4, []));
    var noParams: seq<nat> := [];
    assert PutMany(noParams, 4, []) == [];
  }

  lemma FourBytes(v: Byte)
    ensures LeBytes(v, 4) == [v, 0, 0, 0]
  {
    assert LeBytes(v, 1) == [v % 256] + LeBytes(v / 256, 0);
    LittleEndian([v, 0, 0, 0]);
    LeUnique([v, 0, 0, 0]);
  }

  lemma TwoBytes(v: U16)
    ensures LeBytes(v, 2) == [v % 256, v / 256]
  {
    LittleEndian([v % 256, v / 256]);
    LeUnique([v % 256, v / 256]);
  }

  lemma NoData(a: Bytes, b: Bytes, c: Bytes)
    ensures a + b + [] == a + b
    ensures a + b + [] + c + [] + b + [] == a + (b + c + b)
  {}

  // ---------- runs ----------

  /** The write chunk size, and what decides about the read size besides the size in force. */
  datatype Sizing = Sizing(writeChunk: nat, ceiling: nat, packet: nat, sample: ChunkPolicy.Sample)

  datatype Snapshot = Snapshot(
    calls: seq<Call>,
    accepted: Bytes,
    received: Bytes,
    now: Instant,
    id: nat,
    poisoned: bool,
    history: seq<Issued>,
    sizing: Sizing,
    effective: nat,
    promotions: nat,
    bufferLength: nat,
    pending: Bytes)
  {
    ghost function Record(): Traffic { Traffic(calls, accepted, received) }
  }

  /** The calls of a transaction that started then and read these containers: what each waited
      under and offered, and what the result says about them. */
  ghost predicate Exchanged(operation: Operation, q: Request, r: SendResult, s: Snapshot, t: Snapshot, started: Instant, blocks: seq<Block>) {
    && s.now <= started <= t.now && KeepsTo(s.calls, t.calls, started, operation.Policy())
    && PacedAs(s.calls, t.calls, |s.accepted| + |CommandBytes(q, IdOf(s.id))|, |s.received|, blocks, operation.Policy())
    && RequestChunks(s.calls, t.calls, |s.accepted|, CommandBytes(q, IdOf(s.id)), DataBytes(q, IdOf(s.id)), s.sizing.writeChunk)
    && (!Rejected(r) ==>
          && s.id < U32_MAX
          && Outcome(q, s.id, r, s.Record(), t.Record(), t.now, t.pending, started + operation.Policy().transaction, blocks,
                     s.sizing.writeChunk, operation.Policy()))
  }

  /** What one transaction does, on the wire and to the session. */
  ghost predicate SentLaw(operation: Operation, q: Request, r: SendResult, s: Snapshot, t: Snapshot) {
    && (exists started, blocks :: Exchanged(operation, q, r, s, t, started, blocks))
    && (r == Refused(SessionUnusable) <==> s.poisoned)
    && (r == Refused(IdsExhausted) <==> !s.poisoned && s.id == U32_MAX)
    && (r == Refused(ParamsTooLong) <==> !s.poisoned && s.id < U32_MAX && |q.params| > 33_554_432)
    && t.id == s.id + (if Touched(s.calls, t.calls) then 1 else 0)
    && (t.poisoned <==> s.poisoned || Poisons(s.calls, t.calls, r))
    && t.history == s.history + (if Rejected(r) then [] else [Issued(s.id, Touched(s.calls, t.calls))])
    && (Rejected(r) ==> t.calls == s.calls && t.accepted == s.accepted && t.received == s.received)
  }

  /** The commands whose replies say something about the rate. */
  predicate IsRead(q: Request) {
    q.code.Code() in {0x1001, 0x1007, 0x1008, 0x1009, 0x1014, 0x1015}
  }

  /** What is known about the rate after this reply. */
  function SampleAfter(q: Request, r: SendResult, s: Snapshot, elapsed: nat): ChunkPolicy.Sample {
    if r.Sent? && IsRead(q) then ChunkPolicy.Observed(s.sizing.sample, s.effective, s.sizing.ceiling, |r.data|, elapsed)
    else s.sizing.sample
  }

  /** The size to promote to when this reply promotes: after the third read that counts passes
      the budget, if the next size is at most 16 MiB and the buffer for it can be had. */
  function PromotedTo(q: Request, r: SendResult, s: Snapshot, elapsed: nat, allocates: bool): Option<nat>
    requires s.sizing.packet != 0
  {
    if r.Sent? && IsRead(q) && allocates
         && ChunkPolicy.Promotes(s.sizing.sample, s.effective, s.sizing.ceiling, s.sizing.packet, |r.data|, elapsed)
         && ChunkPolicy.NextReadChunk(s.effective, s.sizing.ceiling, s.sizing.packet) <= 16_777_216
    then Some(ChunkPolicy.NextReadChunk(s.effective, s.sizing.ceiling, s.sizing.packet))
    else None
  }

  /** The same with the promotion that follows exactly when it is due. */
  ghost predicate TransactLaw(operation: Operation, q: Request, r: SendResult, s: Snapshot, t: Snapshot, elapsed: nat, allocates: bool) {
    && SentLaw(operation, q, r, s, t)
    && s.sizing.packet != 0
    && t.sizing == s.sizing.(sample := SampleAfter(q, r, s, elapsed))
    && match PromotedTo(q, r, s, elapsed, allocates)
       case None => t.effective == s.effective && t.promotions == s.promotions
       case Some(bytes) => s.effective < bytes == t.effective && t.promotions == s.promotions + 1
  }

  /** What opening a session does: a new numbering, and nothing at all on a poisoned session. */
  ghost predicate OpenLaw(sessionId: U32, r: SendResult, s: Snapshot, t: Snapshot) {
    && t.id <= 2 && |t.history| <= 2 && (t.history != [] ==> t.history[0].id == 0)
    && s.calls <= t.calls && OpeningKeeps(s.calls, t.calls, s.now, t.now)
    && (s.poisoned ==> t.poisoned && r == Refused(SessionUnusable) && t.calls == s.calls && t.accepted == s.accepted)
    && (t.poisoned && !s.poisoned ==> Poisons(s.calls, t.calls, r))
    && (r.Sent? ==>
          && !t.poisoned
          && (t.accepted == s.accepted + Dialogue(sessionId, false) || t.accepted == s.accepted + Dialogue(sessionId, true)))
    && t.effective == s.effective && t.promotions == s.promotions && t.sizing == s.sizing
  }

  lemma SentMeaning(operation: Operation, q: Request, r: SendResult, s: Snapshot, t: Snapshot, started: Instant, blocks: seq<Block>)
    requires Exchanged(operation, q, r, s, t, started, blocks)
    requires r == Refused(SessionUnusable) <==> s.poisoned
    requires r == Refused(IdsExhausted) <==> !s.poisoned && s.id == U32_MAX
    requires r == Refused(ParamsTooLong) <==> !s.poisoned && s.id < U32_MAX && |q.params| > 33_554_432
    requires t.id == s.id + if Touched(s.calls, t.calls) then 1 else 0
    requires t.poisoned <==> s.poisoned || (Touched(s.calls, t.calls) && !IsConclusion(r))
    requires Rejected(r) ==> t.calls == s.calls && t.accepted == s.accepted && t.received == s.received && t.history == s.history
    requires !Rejected(r) ==> t.history == s.history + [Issued(s.id, Touched(s.calls, t.calls))]
    ensures SentLaw(operation, q, r, s, t)
  {
    hide Touched, Exchanged;
  }

  lemma PromotionMeaning(operation: Operation, q: Request, r: SendResult, s: Snapshot, mid: Snapshot, t: Snapshot, elapsed: nat, allocates: bool)
    requires SentLaw(operation, q, r, s, mid) && s.sizing.packet != 0
    requires t == mid.(sizing := t.sizing, effective := t.effective, promotions := t.promotions,
                       bufferLength := t.bufferLength, pending := t.pending)
    requires t.sizing == s.sizing.(sample := SampleAfter(q, r, s, elapsed)) && (!r.Sent? ==> t.pending == mid.pending)
    requires match PromotedTo(q, r, s, elapsed, allocates)
             case None => t.effective == s.effective && t.promotions == s.promotions
             case Some(bytes) => s.effective < bytes == t.effective && t.promotions == s.promotions + 1
    ensures TransactLaw(operation, q, r, s, t, elapsed, allocates)
  {
    hide PromotedTo, SampleAfter, Touched, KeepsTo, PacedAs, RequestChunks, CommandFails, DataFails, BlockFails, Concludes,
         Offends, StreamOf, CommandBytes, DataBytes;
    var started, blocks :| Exchanged(operation, q, r, s, mid, started, blocks);
    assert Exchanged(operation, q, r, s, t, started, blocks);
  }

  lemma DataIsShort(blocks: seq<Block>, code: CommandCode, id: U32, data: Bytes)
    requires Concludes(blocks, code, id, Sent(data))
    ensures |data| < 0x1_0000_0000
  {}

  /** One thing the owner of a session does with it. */
  datatype Step =
    | Transaction(operation: Operation, q: Request, elapsed: ChunkPolicy.Duration, allocates: bool)
    | Open(sessionId: U32)

  ghost predicate StepLaw(step: Step, r: SendResult, s: Snapshot, t: Snapshot) {
    match step
    case Transaction(operation, q, elapsed, allocates) => TransactLaw(operation, q, r, s, t, elapsed, allocates)
    case Open(sessionId) => OpenLaw(sessionId, r, s, t)
  }

  /** What holds of a session between any two steps: the commands are well numbered, the calls
      follow one another in time, the read buffer has the size in force, and unless the session
      is poisoned nothing read is left over. */
  ghost predicate Sound(s: Snapshot) {
    && s.id <= U32_MAX && WellNumbered(s.history, s.id)
    && Timeline(s.calls, s.now)
    && s.bufferLength == s.effective && s.promotions <= 5
    && (!s.poisoned ==> s.pending == [])
  }

  ghost predicate IsRun(steps: seq<Step>, results: seq<SendResult>, trace: seq<Snapshot>) {
    && |trace| == |results| + 1 <= |steps| + 1
    && (forall i | 0 <= i < |trace| :: Sound(trace[i]))
    && (forall i | 0 <= i < |results| :: StepLaw(steps[i], results[i], trace[i], trace[i + 1]))
  }

  lemma RunGrows(steps: seq<Step>, results: seq<SendResult>, trace: seq<Snapshot>, r: SendResult, t: Snapshot)
    requires IsRun(steps, results, trace) && |results| < |steps|
    requires StepLaw(steps[|results|], r, trace[|results|], t) && Sound(t)
    ensures IsRun(steps, results + [r], trace + [t])
  {
    hide StepLaw, Sound;
  }

  /** Any number of transactions of any kind, promotions and openings on one session. */
  method Run(session: PtpSession, steps: seq<Step>) returns (results: seq<SendResult>, ghost trace: seq<Snapshot>)
    requires session.Valid()
    modifies session, session.link, session.policy, session.readState, session.readState.buffer
    ensures session.Valid() && |results| == |steps|
    ensures IsRun(steps, results, trace)
    ensures trace[0] == old(session.State()) && trace[|steps|] == session.State()
  {
    hide StepLaw, Sound;
    results, trace := [], [session.State()];
    session.IsSound();
    for k := 0 to |steps|
      invariant session.Valid() && |results| == k && IsRun(steps, results, trace)
      invariant session.readState == old(session.readState) || fresh(session.readState)
      invariant session.readState.buffer == old(session.readState.buffer) || fresh(session.readState.buffer)
      invariant trace[0] == old(session.State()) && trace[k] == session.State()
    {
      hide PtpSession.Valid;
      var r := session.Take(steps[k]);
      session.IsSound();
      RunGrows(steps, results, trace, r, session.State());
      results, trace := results + [r], trace + [session.State()];
    }
  }

  /** Poisoning is final: every later request is refused and no further call is made. */
  lemma {:induction false} PoisonIsFinal(steps: seq<Step>, results: seq<SendResult>, trace: seq<Snapshot>, i: nat, j: nat)
    requires IsRun(steps, results, trace) && i <= j < |trace| && trace[i].poisoned
    ensures trace[j].poisoned && trace[j].calls == trace[i].calls && trace[j].accepted == trace[i].accepted
    ensures forall k | i <= k < j :: results[k] == Refused(SessionUnusable)
    decreases j - i
  {
    hide Touched, WellNumbered, Exchanged, OpeningKeeps, Dialogue, PromotedTo, SampleAfter;
    if i < j {
      PoisonIsFinal(steps, results, trace, i, j - 1);
      assert StepLaw(steps[j - 1], results[j - 1], trace[j - 1], trace[j]);
    }
  }

  /** A session is poisoned only by a step that touched the wire and did not end in a well-framed
      response. */
  lemma {:induction false} PoisonHasCause(steps: seq<Step>, results: seq<SendResult>, trace: seq<Snapshot>, j: nat)
    requires IsRun(steps, results, trace) && j < |trace| && !trace[0].poisoned && trace[j].poisoned
    ensures exists k | 0 <= k < j :: !trace[k].poisoned && Poisons(trace[k].calls, trace[k + 1].calls, results[k])
    decreases j
  {
    hide Touched, WellNumbered, Exchanged, OpeningKeeps, Dialogue, PromotedTo, SampleAfter;
    assert StepLaw(steps[j - 1], results[j - 1], trace[j - 1], trace[j]);
    if trace[j - 1].poisoned { PoisonHasCause(steps, results, trace, j - 1); }
  }

  ghost predicate AllTimeouts(calls: seq<Call>, i: nat, j: nat)
    requires j <= |calls|
  {
    forall k | i <= k < j :: calls[k].event.IsTimeout()
  }

  /** Between two calls that move something there are at most as many timed-out calls as the
      idle allowance of their phase has milliseconds. */
  ghost predicate FewTimeouts(calls: seq<Call>, from: nat, to: nat, policy: TimeoutPolicy)
    requires to <= |calls|
  {
    forall i, j | from <= i < j <= to && AllTimeouts(calls, i, j) ::
      && (j - i) * 1_000_000 <= calls[i].due.pace.allowance
      && calls[i].due.pace in TransactionTerms(0, policy).paces
  }

  lemma TimelineOfPrefix(calls: seq<Call>, now: Instant, front: seq<Call>) returns (until: Instant)
    requires Timeline(calls, now) && front <= calls
    ensures Timeline(front, until)
  {
    until := if |front| < |calls| then calls[|front|].at else now;
    forall i | 0 <= i < |front| - 1 ensures OverBeforeNext(front, i) {
      assert OverBeforeNext(calls, i);
    }
    if front != [] && |front| < |calls| { assert OverBeforeNext(calls, |front| - 1); }
  }

  lemma KeptHasFewTimeouts(before: seq<Call>, front: seq<Call>, calls: seq<Call>, now: Instant, started: Instant, policy: TimeoutPolicy)
    requires KeepsTo(before, front, started, policy) && front <= calls && Timeline(calls, now)
    ensures before <= front && FewTimeouts(calls, |before|, |front|, policy)
  {
    var until := TimelineOfPrefix(calls, now, front);
    forall i, j | |before| <= i < j <= |front| && AllTimeouts(calls, i, j)
      ensures (j - i) * 1_000_000 <= calls[i].due.pace.allowance
      ensures calls[i].due.pace in TransactionTerms(0, policy).paces
    {
      forall k | i <= k < j ensures front[k] == calls[k] && Bounded(front[k]) && front[k].event.IsTimeout() {}
      TimeoutRunIsShort(front, until, i, j);
    }
  }

  /** The calls from `from` on are those of three transactions with few timeouts each. */
  ghost predicate FewTimeoutsThrice(calls: seq<Call>, from: nat) {
    exists first: nat, second: nat | from <= first <= second <= |calls| ::
      && FewTimeouts(calls, from, first, Standard.Policy())
      && FewTimeouts(calls, first, second, Standard.Policy())
      && FewTimeouts(calls, second, |calls|, Standard.Policy())
  }

  /** Every step of every run: within each transaction runs of timeouts are that short. */
  lemma RunHasFewTimeouts(steps: seq<Step>, results: seq<SendResult>, trace: seq<Snapshot>, n: nat)
    requires IsRun(steps, results, trace) && n < |results|
    ensures trace[n].calls <= trace[n + 1].calls
    ensures var (from, calls) := (|trace[n].calls|, trace[n + 1].calls);
            match steps[n]
            case Transaction(operation, _, _, _) => FewTimeouts(calls, from, |calls|, operation.Policy())
            case Open(_) => FewTimeoutsThrice(calls, from)
  {
    hide Touched, WellNumbered, Concludes, StreamOf, IsPartOf, CommandBytes, DataBytes, Dialogue, KeepsTo, Timeline, FewTimeouts,
         FewTimeoutsThrice, Operation.Policy, OpeningKeeps;
    var s, t := trace[n], trace[n + 1];
    assert StepLaw(steps[n], results[n], s, t) && Sound(t);
    if steps[n].Transaction? {
      var started, blocks :| Exchanged(steps[n].operation, steps[n].q, results[n], s, t, started, blocks);
      KeptHasFewTimeouts(s.calls, t.calls, t.calls, t.now, started, steps[n].operation.Policy());
    } else {
      OpeningHasFewTimeouts(s.calls, t.calls, s.now, t.now);
    }
  }

  lemma OpeningHasFewTimeouts(before: seq<Call>, after: seq<Call>, from: Instant, to: Instant)
    requires OpeningKeeps(before, after, from, to) && Timeline(after, to)
    ensures FewTimeoutsThrice(after, |before|)
  {
    hide KeepsTo, Timeline, FewTimeouts, Operation.Policy;
    var first, started, now :|
      && from <= started <= now <= to
      && KeepsTo(before, first, started, Standard.Policy()) && RecoveryKeeps(first, after, now, to);
    var second, t1, t2 :|
      && now <= t1 <= t2 <= to
      && KeepsTo(first, second, t1, Standard.Policy()) && KeepsTo(second, after, t2, Standard.Policy());
    KeptHasFewTimeouts(second, after, after, to, t2, Standard.Policy());
    KeptExtends(first, second, t1, Standard.Policy());
    KeptHasFewTimeouts(first, second, after, to, t1, Standard.Policy());
    KeptHasFewTimeouts(before, first, after, to, started, Standard.Policy());
    var one, two := |first|, |second|;
    assert |before| <= one <= two <= |after|;
    assert FewTimeouts(after, |before|, one, Standard.Policy()) && FewTimeouts(after, one, two, Standard.Policy());
  }

  lemma KeptExtends(before: seq<Call>, after: seq<Call>, started: Instant, policy: TimeoutPolicy)
    requires KeepsTo(before, after, started, policy)
    ensures before <= after
  {}

  /** The commands issued by steps `i` to `j`, one for each transaction that was not refused
      before it was tried. */
  ghost function IssuedBetween(steps: seq<Step>, results: seq<SendResult>, trace: seq<Snapshot>, i: nat, j: nat): seq<Issued>
    requires i <= j <= |results| && |trace| == |results| + 1
    decreases j - i
  {
    if i == j then []
    else
      IssuedBetween(steps, results, trace, i, j - 1) +
      IssuedBy(results[j - 1], trace[j - 1].id, Touched(trace[j - 1].calls, trace[j].calls))
  }

  function IssuedBy(r: SendResult, id: nat, touched: bool): seq<Issued> {
    if Rejected(r) then [] else [Issued(id, touched)]
  }

  lemma StepIssues(step: Step, r: SendResult, s: Snapshot, t: Snapshot)
    requires step.Transaction? && StepLaw(step, r, s, t)
    ensures t.history == s.history + IssuedBy(r, s.id, Touched(s.calls, t.calls))
    ensures t.id == s.id + OnWire(IssuedBy(r, s.id, Touched(s.calls, t.calls)))
  {
    hide Exchanged, PromotedTo, SampleAfter;
    var touched := Touched(s.calls, t.calls);
    if !Rejected(r) { assert [Issued(s.id, touched)][..0] == []; }
  }

  /** Between two openings the history grows by exactly these commands, and the id by the number
      of those that may have reached the device. */
  lemma {:induction false} HistoryGrows(steps: seq<Step>, results: seq<SendResult>, trace: seq<Snapshot>, i: nat, j: nat)
    requires IsRun(steps, results, trace) && i <= j < |trace|
    requires forall k | i <= k < j :: steps[k].Transaction?
    ensures trace[j].history == trace[i].history + IssuedBetween(steps, results, trace, i, j)
    ensures trace[j].id == trace[i].id + OnWire(IssuedBetween(steps, results, trace, i, j))
    decreases j - i
  {
    hide StepLaw, Sound, Touched, Rejected, IssuedBy, OnWire;
    if i == j {
      NothingOnWire(trace[i].history);
    } else {
      HistoryGrows(steps, results, trace, i, j - 1);
      var s, t, r := trace[j - 1], trace[j], results[j - 1];
      StepIssues(steps[j - 1], r, s, t);
      var earlier, last := IssuedBetween(steps, results, trace, i, j - 1), IssuedBy(r, s.id, Touched(s.calls, t.calls));
      OnWireAdds(earlier, last);
      assert trace[i].history + (earlier + last) == (trace[i].history + earlier) + last;
    }
  }

  function OnWire(history: seq<Issued>): nat {
    if history == [] then 0
    else OnWire(history[..|history| - 1]) + if history[|history| - 1].onWire then 1 else 0
  }

  lemma NothingOnWire(history: seq<Issued>)
    ensures OnWire([]) == 0 && history + [] == history
  {}

  lemma {:induction false} OnWireAdds(a: seq<Issued>, b: seq<Issued>)
    ensures OnWire(a + b) == OnWire(a) + OnWire(b)
    decreases b
  {
    if b == [] {
      assert a + b == a;
    } else {
      assert (a + b)[..|a + b| - 1] == a + b[..|b| - 1];
      OnWireAdds(a, b[..|b| - 1]);
    }
  }

  /** Two commands with no opening between them share an id only if the first put nothing on the
      wire. */
  lemma IdSharedOnlyIfUntouched(steps: seq<Step>, results: seq<SendResult>, trace: seq<Snapshot>, i: nat, j: nat)
    requires IsRun(steps, results, trace) && i < j < |results|
    requires forall k | i <= k < j :: steps[k].Transaction?
    requires trace[i].id == trace[j].id
    ensures !Touched(trace[i].calls, trace[i + 1].calls)
  {
    hide Touched, WellNumbered, Exchanged, OpeningKeeps, Dialogue, PromotedTo, SampleAfter;
    assert StepLaw(steps[i], results[i], trace[i], trace[i + 1]);
    HistoryGrows(steps, results, trace, i + 1, j);
  }

  /** The transaction touched the wire and did not end in a well-framed response. */
  ghost predicate Poisons(before: seq<Call>, after: seq<Call>, r: SendResult) {
    Touched(before, after) && !IsConclusion(r)
  }

  lemma NumberOneMore(history: seq<Issued>, id: nat, onWire: bool)
    requires WellNumbered(history, id)
    ensures WellNumbered(history + [Issued(id, onWire)], if onWire then id + 1 else id)
  {}

  lemma NoCalls(calls: seq<Call>)
    ensures !Touched(calls, calls)
  {}

  lemma OnlyCommand(before: seq<Call>, after: seq<Call>, base: nat, command: Bytes, data: Bytes, chunk: nat)
    requires if LegalChunkSize(chunk) then AllOfferChunks(before, after, base, command, chunk) else after == before
    ensures RequestChunks(before, after, base, command, data, chunk)
  {}

  lemma BothContainers(a: seq<Call>, b: seq<Call>, c: seq<Call>, base: nat, command: Bytes, data: Bytes, chunk: nat, terms: Terms)
    requires Continues(a, b, terms) && Continues(b, c, terms)
    requires if LegalChunkSize(chunk) then AllOfferChunks(a, b, base, command, chunk) else b == a
    requires if LegalChunkSize(chunk) then AllOfferChunks(b, c, base + |command|, data, chunk) else c == b
    ensures RequestChunks(a, c, base, command, data, chunk)
  {}

  /** Writes say nothing about whether the last read filled its buffer. */
  lemma {:induction false} OnlyWritesKeepFlag(before: seq<Call>, after: seq<Call>, terms: Terms)
    requires Continues(before, after, terms) && OnlyWrites(before, after)
    ensures LastReadFilled(after) == LastReadFilled(before)
  {
    SkipWrites(before, after);
  }

  lemma {:induction false} SkipWrites(before: seq<Call>, after: seq<Call>)
    requires |before| <= |after| && after[..|before|] == before
    requires OnlyWrites(before, after)
    ensures LastReadFilled(after) == LastReadFilled(before)
    decreases |after|
  {
    if |after| > |before| {
      var shorter := after[..|after| - 1];
      assert shorter[..|before|] == before;
      SkipWrites(before, shorter);
    } else {
      assert after == before;
    }
  }
}
