/** Reading whole containers, and the response half of one transaction. */
module Transaction {
  import opened Wrappers
  import opened Wire
  import opened UsbLink
  import opened Deadlines
  import opened BulkRead
  import opened BulkWrite
  import opened Container

  datatype Block = Block(info: ContainerInfo, payload: Bytes)

  datatype BlockResult = GotBlock(block: Block) | NoBlock(error: BlockError)

  datatype BlockError = ReadStopped(error: ReadError) | BadHeader | BadLength | PayloadTooLong

  /** Which deadline each call was made under: while fewer than the twelve bytes of the header
      had been delivered, counting from stream position `from`, the header's; after that the
      payload's. */
  ghost predicate HeaderFirst(before: seq<Call>, after: seq<Call>, from: nat, header: Pace, payload: Pace) {
    forall i | |before| <= i < |after| ::
      after[i].due.pace == if |Delivered(after[..i])| < from + 12 then header else payload
  }

  lemma HeaderAlone(before: seq<Call>, after: seq<Call>, from: nat, hard: Instant, header: Pace, payload: Pace)
    requires Continues(before, after, Terms(hard, {header})) && NeededBelow(before, after, from + 12)
    ensures HeaderFirst(before, after, from, header, payload)
  {
    hide Delivered;
  }

  lemma HeaderThenPayload(before: seq<Call>, mid: seq<Call>, after: seq<Call>, from: nat, hard: Instant, header: Pace, payload: Pace)
    requires Continues(before, mid, Terms(hard, {header})) && NeededBelow(before, mid, from + 12)
    requires Continues(mid, after, Terms(hard, {payload})) && |Delivered(mid)| >= from + 12
    ensures HeaderFirst(before, after, from, header, payload)
  {
    hide Delivered;
    forall i | |before| <= i < |after|
      ensures after[i].due.pace == if |Delivered(after[..i])| < from + 12 then header else payload
    {
      assert after[..|mid|] == mid;
      if i < |mid| {
        assert after[..i] == mid[..i] && after[i] == mid[i];
      } else {
        assert mid <= after[..i];
        DeliveredGrows(mid, after[..i]);
      }
    }
  }

  /** The twelve bytes of the stream at `from` are no header this reader takes: they do not parse,
      or declare fewer bytes than a header or more than header and the largest payload. */
  ghost predicate BlamesHeader(e: BlockError, stream: Bytes, from: nat) {
    && from + 12 <= |stream|
    && var p := ParseHeader(stream[from..from + 12]);
    match e
    case BadHeader => p.Fail?
    case BadLength => p.Done? && p.value.totalLen < 12
    case PayloadTooLong => p.Done? && p.value.totalLen > 134_217_740
    case ReadStopped(_) => false
  }

  /** `read_container_from_state_with_deadline`: the next container of the stream. */
  method ReadContainer(link: Link, state: BulkReadState, deadline: Deadline, payloadDeadline: Deadline)
      returns (r: BlockResult)
    requires link.Valid() && state.InStep(link)
    requires deadline.Valid() && deadline.link == link && payloadDeadline.Valid() && payloadDeadline.link == link
    requires deadline != payloadDeadline && deadline.hardExpiresAt == payloadDeadline.hardExpiresAt
    requires Fresh(link.calls, deadline.InForce())
    modifies link, state, state.buffer, deadline, payloadDeadline
    ensures link.Valid() && state.Valid() && state.Conserves(link) && state.buffer == old(state.buffer)
    ensures link.accepted == old(link.accepted) && link.now >= old(link.now) && old(state.consumed) <= state.consumed
    ensures HeaderFirst(old(link.calls), link.calls, |old(state.consumed)|, PaceOf(deadline), PaceOf(payloadDeadline))
    ensures r.NoBlock? && r.error.ReadStopped? ==>
              StoppedBy(r.error.error, old(link.calls), link.calls, link.now, deadline.hardExpiresAt,
                        if |Delivered(link.calls)| < |old(state.consumed)| + 12 then PaceOf(deadline) else PaceOf(payloadDeadline))
    ensures r.GotBlock? ==> NeededBelow(old(link.calls), link.calls, |state.consumed|)
    ensures Continues(old(link.calls), link.calls, Terms(deadline.hardExpiresAt, TermsOf(deadline).paces + TermsOf(payloadDeadline).paces))
    ensures OnlyReads(old(link.calls), link.calls) && !Touched(old(link.calls), link.calls)
    ensures r.GotBlock? ==>
              && state.InStep(link) && EndsInProgress(old(link.calls), link.calls)
              && WellFormed(r.block.info, r.block.payload)
              && |r.block.payload| <= 134_217_728
              && state.consumed == old(state.consumed) + ContainerBytes(r.block.info, r.block.payload)
    ensures r.NoBlock? && !r.error.ReadStopped? ==>
              |state.consumed| == |old(state.consumed)| + 12 && BlamesHeader(r.error, state.consumed, |old(state.consumed)|)
  {
    hide Continues, EndsInProgress, Touched, OnlyReads, AllClean, Timeline, LastReadFilled, Explains,
         ParseHeader, PutHeader, WellFormed, ContainerBytes, NeededBelow, Delivered, HeaderFirst, Fresh;
    ghost var calls, consumed := link.calls, state.consumed;
    ghost var terms := Terms(deadline.hardExpiresAt, TermsOf(deadline).paces + TermsOf(payloadDeadline).paces);
    var header := new Byte[12](_ => 0);
    var status := state.ReadExact(link, header, deadline);
    ContinuesWiden(calls, link.calls, TermsOf(deadline), terms);
    HeaderAlone(calls, link.calls, |consumed|, deadline.hardExpiresAt, PaceOf(deadline), PaceOf(payloadDeadline));
    if status.Broken? {
      assert StoppedBy(status.error, calls, link.calls, link.now, deadline.hardExpiresAt, PaceOf(deadline));
      return NoBlock(ReadStopped(status.error));
    }
    var parsed := ParseHeader(header[..]);
    assert state.consumed[|consumed|..|consumed| + 12] == header[..];
    if parsed.Fail? { return NoBlock(BadHeader); }
    var info := parsed.value;
    var payloadLen := info.PayloadLen();
    if payloadLen.None? { return NoBlock(BadLength); }
    if payloadLen.value > MAX_CONTAINER_PAYLOAD_BYTES { return NoBlock(PayloadTooLong); }
    HeaderRead(header[..]);
    ghost var mid := link.calls;
    r := ReadPayload(link, state, payloadDeadline, info, payloadLen.value, header[..], consumed);
    assert |state.consumed| >= |consumed| + 12;
    ContinuesWiden(mid, link.calls, TermsOf(payloadDeadline), terms);
    ContinuesTrans(calls, mid, link.calls, terms);
    HeaderThenPayload(calls, mid, link.calls, |consumed|, deadline.hardExpiresAt, PaceOf(deadline), PaceOf(payloadDeadline));
    ContinuesArePrefixes(calls, mid, link.calls, terms);
    DeliveredGrows(mid, link.calls);
    if r.NoBlock? { StoppedLater(r.error.error, calls, mid, link.calls, link.now, deadline.hardExpiresAt, PaceOf(payloadDeadline)); }
    if r.GotBlock? { NeededTrans(calls, mid, link.calls, |consumed| + 12, |state.consumed|, |state.consumed|); }
  }

  /** The payload after a header: its first call has a fresh allowance. */
  method ReadPayload(link: Link, state: BulkReadState, payloadDeadline: Deadline, info: ContainerInfo, payloadLen: nat,
                     ghost header: Bytes, ghost before: Bytes) returns (r: BlockResult)
    requires link.Valid() && state.InStep(link) && payloadDeadline.Valid() && payloadDeadline.link == link
    requires info.PayloadLen() == Some(payloadLen) && payloadLen <= MAX_CONTAINER_PAYLOAD_BYTES
    requires info.code.Canonical() && PutHeader(info, []) == header && state.consumed == before + header
    modifies link, state, state.buffer, payloadDeadline
    ensures link.Valid() && state.Valid() && state.Conserves(link) && state.buffer == old(state.buffer)
    ensures link.accepted == old(link.accepted) && link.now >= old(link.now)
    ensures Continues(old(link.calls), link.calls, TermsOf(payloadDeadline)) && old(state.consumed) <= state.consumed
    ensures OnlyReads(old(link.calls), link.calls) && !Touched(old(link.calls), link.calls)
    ensures r.NoBlock? ==>
              && r.error.ReadStopped?
              && StoppedBy(r.error.error, old(link.calls), link.calls, link.now, payloadDeadline.hardExpiresAt, PaceOf(payloadDeadline))
    ensures r.GotBlock? ==>
              && state.InStep(link) && EndsInProgress(old(link.calls), link.calls)
              && r.block.info == info && |r.block.payload| == payloadLen
              && WellFormed(r.block.info, r.block.payload)
              && state.consumed == before + ContainerBytes(r.block.info, r.block.payload)
              && NeededBelow(old(link.calls), link.calls, |state.consumed|)
  {
    hide Continues, EndsInProgress, Touched, OnlyReads, AllClean, Timeline, LastReadFilled, Explains,
         PutHeader, WellFormed, ContainerBytes, NeededBelow, Delivered, Fresh;
    ghost var calls := link.calls;
    if payloadLen != 0 { payloadDeadline.RecordProgress(); }
    var payload := new Byte[payloadLen](_ => 0);
    var status := state.ReadExact(link, payload, payloadDeadline);
    if status.Broken? {
      assert StoppedBy(status.error, calls, link.calls, link.now, payloadDeadline.hardExpiresAt, PaceOf(payloadDeadline));
      return NoBlock(ReadStopped(status.error));
    }
    ContainerRead(info, header, payload[..], before, state.consumed);
    r := GotBlock(Block(info, payload[..]));
  }

  lemma HeaderRead(header: Bytes)
    requires |header| == HEADER_SIZE && ParseHeader(header).Done?
    ensures var p := ParseHeader(header); p.rest == [] && p.value.code.Canonical() && PutHeader(p.value, []) == header
  {
    PutParseHeader(header);
  }

  lemma ContainerRead(info: ContainerInfo, header: Bytes, payload: Bytes, before: Bytes, after: Bytes)
    requires info.code.Canonical() && PutHeader(info, []) == header
    requires info.PayloadLen() == Some(|payload|)
    requires after == before + header + payload
    ensures WellFormed(info, payload) && after == before + ContainerBytes(info, payload)
  {}

  // ---------- the response half ----------

  datatype SendError =
    | SessionUnusable
    | IdsExhausted
    | ParamsTooLong
    | CommandWriteFailed(write: WriteError)
    | DataWriteFailed(write: WriteError)
    | BlockFailed(block: BlockError)
    | IdMismatch
    | BytesAfterResponse
    | DataCodeMismatch
    | MultipleData
    | UnexpectedBlock
    | ResponseError(code: U16)

  datatype SendResult = Sent(data: Bytes) | Refused(error: SendError)

  datatype TimeoutPolicy = TimeoutPolicy(
    commandIdle: Duration, dataIdle: Duration, response: Duration, transaction: Duration)

  /** What all calls of one transaction keep to. */
  function TransactionTerms(hardExpiresAt: Instant, policy: TimeoutPolicy): Terms {
    Terms(hardExpiresAt,
          {Pace(CommandWrite, policy.commandIdle), Pace(DataTransfer, policy.dataIdle), Pace(ResponsePhase, policy.response)})
  }

  datatype Operation = Standard | LargeTransfer | CameraProcessing | Polling {
    function Policy(): TimeoutPolicy {
      match this
      case Standard => TimeoutPolicy(30 * SECOND, 30 * SECOND, 30 * SECOND, 5 * 60 * SECOND)
      case LargeTransfer => TimeoutPolicy(30 * SECOND, 30 * SECOND, 10 * 60 * SECOND, 15 * 60 * SECOND)
      case CameraProcessing => TimeoutPolicy(30 * SECOND, 30 * SECOND, 5 * 60 * SECOND, 5 * 60 * SECOND)
      case Polling => TimeoutPolicy(30 * SECOND, 30 * SECOND, 10 * 60 * SECOND, 15 * 60 * SECOND)
    }
  }

  /** In nanoseconds: thirty seconds of idling, a response within thirty seconds, five minutes
      while the camera processes or ten around large transfers, all within five or fifteen. */
  lemma PolicyTable(operation: Operation)
    ensures var p := operation.Policy();
            && p.commandIdle == 30_000_000_000 && p.dataIdle == 30_000_000_000
            && p.response ==
                 (match operation
                  case Standard => 30_000_000_000
                  case CameraProcessing => 300_000_000_000
                  case _ => 600_000_000_000)
            && p.transaction == if operation.LargeTransfer? || operation.Polling? then 900_000_000_000 else 300_000_000_000
  {}

  function StreamOf(blocks: seq<Block>): Bytes {
    if blocks == [] then []
    else StreamOf(blocks[..|blocks| - 1]) + ContainerBytes(blocks[|blocks| - 1].info, blocks[|blocks| - 1].payload)
  }

  /** A data container of this transaction. */
  predicate IsData(b: Block, code: CommandCode, id: U32) {
    b.info.kind.DataBlock? && b.info.code == Command(code) && b.info.transactionId == id && WellFormed(b.info, b.payload)
  }

  /** A response container of this transaction. */
  predicate IsResponse(b: Block, id: U32) {
    b.info.kind.ResponseBlock? && !b.info.code.Command? && b.info.transactionId == id && WellFormed(b.info, b.payload)
  }

  /** The containers read are at most one data container and then the response, and they say
      what the result is. */
  predicate Concludes(blocks: seq<Block>, code: CommandCode, id: U32, r: SendResult) {
    && 1 <= |blocks| <= 2
    && (|blocks| == 2 ==> IsData(blocks[0], code, id))
    && var last := blocks[|blocks| - 1];
    && IsResponse(last, id)
    && match r
       case Sent(data) =>
         last.info.code == Response(ResponseCode.Success) && data == (if |blocks| == 2 then blocks[0].payload else [])
       case Refused(e) =>
         last.info.code != Response(ResponseCode.Success) && e == ResponseError(last.info.code.Code())
  }

  predicate IsWriteFailure(r: SendResult) {
    r.Refused? && (r.error.CommandWriteFailed? || r.error.DataWriteFailed?)
  }

  /** The allowance in force at this stream position, counted from where the response begins. */
  function PaceAt(offset: int, blocks: seq<Block>, policy: TimeoutPolicy): Pace {
    if InHeader(offset, blocks) then Pace(ResponsePhase, policy.response) else Pace(DataTransfer, policy.dataIdle)
  }

  /** Why the container after those read so far could not be had: the last calls or the clock
      say so, under the allowance in force where the stream broke off, or its header does. */
  ghost predicate BlockFails(e: BlockError, before: seq<Call>, after: seq<Call>, now: Instant, hard: Instant, stream: Bytes,
                             base: nat, blocks: seq<Block>, policy: TimeoutPolicy) {
    && |blocks| <= 1
    && match e
       case ReadStopped(error) => StoppedBy(error, before, after, now, hard, PaceAt(|Delivered(after)| - base, blocks, policy))
       case _ => BlamesHeader(e, stream, base + if blocks == [] then 0 else 12 + |blocks[0].payload|)
  }

  lemma BlockFailsLater(e: BlockError, a: seq<Call>, b: seq<Call>, c: seq<Call>, now: Instant, hard: Instant, stream: Bytes,
                        base: nat, blocks: seq<Block>, policy: TimeoutPolicy)
    requires |a| <= |b| <= |c| && c[..|b|] == b && EndsInProgress(a, b)
    requires BlockFails(e, b, c, now, hard, stream, base, blocks, policy)
    ensures BlockFails(e, a, c, now, hard, stream, base, blocks, policy)
  {
    hide StoppedBy, BlamesHeader, EndsInProgress, Delivered;
    if e.ReadStopped? { StoppedLater(e.error, a, b, c, now, hard, PaceAt(|Delivered(c)| - base, blocks, policy)); }
  }

  /** What is wrong with the last container read. */
  predicate Offends(blocks: seq<Block>, code: CommandCode, id: U32, e: SendError) {
    && 1 <= |blocks| <= 2
    && (|blocks| == 2 ==> IsData(blocks[0], code, id))
    && var last := blocks[|blocks| - 1].info;
    match e
    case IdMismatch => last.transactionId != id
    case BytesAfterResponse => last.transactionId == id && last.kind.ResponseBlock?
    case DataCodeMismatch => last.transactionId == id && last.kind.DataBlock? && last.code.Command? && last.code.command != code
    case MultipleData => last.transactionId == id && last.kind.DataBlock? && last.code == Command(code) && |blocks| == 2
    case UnexpectedBlock =>
      && last.transactionId == id
      && (last.kind.DataBlock? ==> !last.code.Command?) && (last.kind.ResponseBlock? ==> last.code.Command?)
    case _ => false
  }

  datatype Verdict = Continue | Final(r: SendResult)

  /** The checks on one container, in the order the code makes them. */
  function Judge(b: Block, code: CommandCode, id: U32, pending: bool, haveData: bool, data: Bytes): Verdict {
    var info := b.info;
    if info.transactionId != id then Final(Refused(IdMismatch))
    else if info.kind.ResponseBlock? && pending then Final(Refused(BytesAfterResponse))
    else
      match (info.kind, info.code)
      case (DataBlock, Command(c)) =>
        if c != code then Final(Refused(DataCodeMismatch))
        else if haveData then Final(Refused(MultipleData))
        else Continue
      case (ResponseBlock, Response(rc)) =>
        if rc == ResponseCode.Success then Final(Sent(if haveData then data else []))
        else Final(Refused(ResponseError(rc.Code())))
      case (ResponseBlock, Unknown(c)) => Final(Refused(ResponseError(c)))
      case _ => Final(Refused(UnexpectedBlock))
  }

  /** Refused before anything was tried. */
  predicate Rejected(r: SendResult) {
    r.Refused? && (r.error.SessionUnusable? || r.error.IdsExhausted? || r.error.ParamsTooLong?)
  }

  predicate IsConclusion(r: SendResult) {
    r.Sent? || r.error.ResponseError?
  }

  lemma JudgeIsSound(blocks: seq<Block>, b: Block, code: CommandCode, id: U32, pending: bool, data: Bytes)
    requires |blocks| <= 1 && (blocks != [] ==> IsData(blocks[0], code, id) && data == blocks[0].payload)
    requires WellFormed(b.info, b.payload)
    ensures var v := Judge(b, code, id, pending, blocks != [], data);
            match v
            case Continue => blocks == [] && IsData(b, code, id)
            case Final(r) =>
              && !Rejected(r) && !(r.Refused? && (r.error.BlockFailed? || (r.error.BytesAfterResponse? && !pending)))
              && if IsConclusion(r) then !pending && Concludes(blocks + [b], code, id, r)
              else Offends(blocks + [b], code, id, r.error)
  {}

  lemma StreamGrows(blocks: seq<Block>, b: Block)
    ensures StreamOf(blocks + [b]) == StreamOf(blocks) + ContainerBytes(b.info, b.payload)
  {}

  /** The stream position, counted from where the response begins, lies in the header of one of
      its containers. */
  predicate InHeader(offset: int, blocks: seq<Block>) {
    || offset < 12
    || (blocks != [] && var second := 12 + |blocks[0].payload|; second <= offset < second + 12)
  }

  /** Headers are waited for under the response allowance, payloads under the data allowance. */
  ghost predicate ResponsePaced(before: seq<Call>, after: seq<Call>, base: nat, blocks: seq<Block>, policy: TimeoutPolicy) {
    forall i | |before| <= i < |after| ::
      after[i].due.pace ==
        if InHeader(|Delivered(after[..i])| - base, blocks) then Pace(ResponsePhase, policy.response)
        else Pace(DataTransfer, policy.dataIdle)
  }

  lemma FirstPaced(before: seq<Call>, after: seq<Call>, base: nat, policy: TimeoutPolicy)
    requires HeaderFirst(before, after, base, Pace(ResponsePhase, policy.response), Pace(DataTransfer, policy.dataIdle))
    ensures ResponsePaced(before, after, base, [], policy)
  {
    hide Delivered;
  }

  lemma FirstPacedStays(before: seq<Call>, after: seq<Call>, base: nat, block: Block, policy: TimeoutPolicy)
    requires ResponsePaced(before, after, base, [], policy) && NeededBelow(before, after, base + 12 + |block.payload|)
    ensures ResponsePaced(before, after, base, [block], policy)
  {
    hide Delivered;
  }

  lemma SecondPaced(a: seq<Call>, b: seq<Call>, c: seq<Call>, base: nat, blocks: seq<Block>, policy: TimeoutPolicy)
    requires a <= b <= c && |blocks| == 1 && ResponsePaced(a, b, base, blocks, policy)
    requires var from := base + 12 + |blocks[0].payload|;
             && |Delivered(b)| >= from
             && HeaderFirst(b, c, from, Pace(ResponsePhase, policy.response), Pace(DataTransfer, policy.dataIdle))
    ensures ResponsePaced(a, c, base, blocks, policy)
  {
    hide Delivered;
    forall i | |a| <= i < |c|
      ensures c[i].due.pace ==
                if InHeader(|Delivered(c[..i])| - base, blocks) then Pace(ResponsePhase, policy.response)
                else Pace(DataTransfer, policy.dataIdle)
    {
      SecondPacedAt(a, b, c, base, blocks, policy, i);
    }
  }

  lemma SecondPacedAt(a: seq<Call>, b: seq<Call>, c: seq<Call>, base: nat, blocks: seq<Block>, policy: TimeoutPolicy, i: nat)
    requires a <= b <= c && |blocks| == 1 && ResponsePaced(a, b, base, blocks, policy)
    requires var from := base + 12 + |blocks[0].payload|;
             && |Delivered(b)| >= from
             && HeaderFirst(b, c, from, Pace(ResponsePhase, policy.response), Pace(DataTransfer, policy.dataIdle))
    requires |a| <= i < |c|
    ensures c[i].due.pace ==
              if InHeader(|Delivered(c[..i])| - base, blocks) then Pace(ResponsePhase, policy.response)
              else Pace(DataTransfer, policy.dataIdle)
  {
    hide Delivered;
    if i < |b| {
      assert c[..i] == b[..i] && c[i] == b[i];
    } else {
      DeliveredGrows(b, c[..i]);
    }
  }

  lemma SecondBlockSaysNothing(before: seq<Call>, after: seq<Call>, base: nat, blocks: seq<Block>, block: Block, policy: TimeoutPolicy)
    requires |blocks| == 1 && ResponsePaced(before, after, base, blocks, policy)
    ensures ResponsePaced(before, after, base, blocks + [block], policy)
  {
    hide Delivered;
    assert (blocks + [block])[0] == blocks[0];
  }

  lemma BlockLength(block: Block)
    ensures |ContainerBytes(block.info, block.payload)| == 12 + |block.payload|
  {
    HeaderIsPrefix(block.info, block.payload);
  }

  lemma StreamLength(blocks: seq<Block>)
    requires |blocks| <= 1
    ensures |StreamOf(blocks)| == if blocks == [] then 0 else 12 + |blocks[0].payload|
  {
    if blocks != [] {
      assert blocks[..0] == [];
      HeaderIsPrefix(blocks[0].info, blocks[0].payload);
    }
  }

  /** Reads the container after those read so far, under fresh deadlines. */
  method ReadNext(link: Link, state: BulkReadState, hardExpiresAt: Instant, policy: TimeoutPolicy, ghost start: seq<Call>,
                  ghost base: nat, ghost blocks: seq<Block>) returns (r: BlockResult)
    requires link.Valid() && state.InStep(link) && start <= link.calls
    requires |blocks| <= 1 && |state.consumed| == base + |StreamOf(blocks)|
    requires ResponsePaced(start, link.calls, base, blocks, policy) && (blocks == [] ==> link.calls == start)
    modifies link, state, state.buffer
    ensures link.Valid() && state.Valid() && state.Conserves(link) && state.buffer == old(state.buffer)
    ensures link.accepted == old(link.accepted) && link.now >= old(link.now)
    ensures Continues(old(link.calls), link.calls, TransactionTerms(hardExpiresAt, policy)) && old(state.consumed) <= state.consumed
    ensures OnlyReads(old(link.calls), link.calls) && !Touched(old(link.calls), link.calls)
    ensures ResponsePaced(start, link.calls, base, blocks, policy)
    ensures r.NoBlock? ==>
              BlockFails(r.error, old(link.calls), link.calls, link.now, hardExpiresAt, state.consumed, base, blocks, policy)
    ensures r.GotBlock? ==>
              && state.InStep(link) && EndsInProgress(old(link.calls), link.calls)
              && WellFormed(r.block.info, r.block.payload)
              && state.consumed == old(state.consumed) + ContainerBytes(r.block.info, r.block.payload)
              && ResponsePaced(start, link.calls, base, blocks + [r.block], policy)
  {
    hide Continues, EndsInProgress, Touched, OnlyReads, Timeline, LastReadFilled, StreamOf, ContainerBytes, WellFormed,
         Delivered, NeededBelow, HeaderFirst, ResponsePaced, Fresh, ParseHeader;
    ghost var mid, terms := link.calls, TransactionTerms(hardExpiresAt, policy);
    var responseDeadline := StartPhase(link, hardExpiresAt, ResponsePhase, policy.response);
    var dataDeadline := StartPhase(link, hardExpiresAt, DataTransfer, policy.dataIdle);
    r := ReadContainer(link, state, responseDeadline, dataDeadline);
    ContinuesWiden(mid, link.calls, Terms(hardExpiresAt, TermsOf(responseDeadline).paces + TermsOf(dataDeadline).paces), terms);
    ContinuesIsFront(mid, link.calls, terms);
    StreamLength(blocks);
    PacedSoFar(start, mid, link.calls, base, blocks, policy);
    DeliveredGrows(mid, link.calls);
    if r.GotBlock? {
      BlockLength(r.block);
      OneMorePaced(start, mid, link.calls, base, blocks, r.block, policy);
    }
  }

  lemma ContinuesIsFront(a: seq<Call>, b: seq<Call>, terms: Terms)
    requires Continues(a, b, terms)
    ensures a <= b
  {}

  /** The response loop: at most two containers are ever read. */
  method ReadResponse(link: Link, state: BulkReadState, code: CommandCode, id: U32, hardExpiresAt: Instant, policy: TimeoutPolicy)
      returns (r: SendResult, ghost blocks: seq<Block>)
    requires link.Valid() && state.InStep(link) && state.Pending() == []
    modifies link, state, state.buffer
    ensures link.Valid() && state.Valid() && state.Conserves(link) && state.buffer == old(state.buffer)
    ensures link.accepted == old(link.accepted) && link.now >= old(link.now)
    ensures Continues(old(link.calls), link.calls, TransactionTerms(hardExpiresAt, policy))
    ensures OnlyReads(old(link.calls), link.calls) && !Touched(old(link.calls), link.calls)
    ensures ResponsePaced(old(link.calls), link.calls, |old(link.received)|, blocks, policy)
    ensures !Rejected(r) && !IsWriteFailure(r)
    ensures IsConclusion(r) ==>
              && state.InStep(link) && state.Pending() == []
              && Concludes(blocks, code, id, r)
              && state.consumed == old(state.consumed) + StreamOf(blocks)
    ensures r.Refused? && r.error.BlockFailed? ==>
              && BlockFails(r.error.block, old(link.calls), link.calls, link.now, hardExpiresAt, state.consumed,
                            |old(link.received)|, blocks, policy)
              && old(state.consumed) + StreamOf(blocks) <= state.consumed
    ensures !IsConclusion(r) && !r.error.BlockFailed? ==>
              && Offends(blocks, code, id, r.error) && state.consumed == old(state.consumed) + StreamOf(blocks)
              && (r.error.BytesAfterResponse? ==> state.Pending() != [])
  {
    hide Continues, EndsInProgress, Touched, OnlyReads, Timeline, LastReadFilled, Concludes, Offends, Judge,
         StreamOf, ContainerBytes, WellFormed, Delivered, NeededBelow, HeaderFirst, ResponsePaced, Fresh;
    ghost var start, base := link.calls, |link.received|;
    NothingPaced(start, base, policy);
    blocks := [];
    var haveData, data := false, [];
    ghost var terms := TransactionTerms(hardExpiresAt, policy);
    NothingYet(link.calls, terms, state.consumed);
    while true
      invariant link.Valid() && state.InStep(link) && state.buffer == old(state.buffer)
      invariant link.accepted == old(link.accepted) && link.now >= old(link.now)
      invariant Continues(old(link.calls), link.calls, terms) && EndsInProgress(old(link.calls), link.calls)
      invariant start <= link.calls
      invariant OnlyReads(old(link.calls), link.calls) && !Touched(old(link.calls), link.calls)
      invariant |blocks| <= 1 && (haveData <==> blocks != [])
      invariant blocks != [] ==> IsData(blocks[0], code, id) && data == blocks[0].payload
      invariant state.consumed == old(state.consumed) + StreamOf(blocks)
      invariant ResponsePaced(start, link.calls, base, blocks, policy) && (blocks == [] ==> link.calls == start)
      decreases !haveData
    {
      ghost var mid := link.calls;
      var block := ReadNext(link, state, hardExpiresAt, policy, start, base, blocks);
      LinksTogether(old(link.calls), mid, link.calls, terms);
      ContinuesIsFront(old(link.calls), link.calls, terms);
      if block.NoBlock? {
        ContinuesIsFront(mid, link.calls, terms);
        BlockFailsLater(block.error, old(link.calls), mid, link.calls, link.now, hardExpiresAt, state.consumed, base, blocks, policy);
        return Refused(BlockFailed(block.error)), blocks;
      }
      var pending := state.HasPendingBytes();
      var verdict := Judge(block.block, code, id, pending, haveData, data);
      JudgeIsSound(blocks, block.block, code, id, pending, data);
      StreamGrows(blocks, block.block);
      JoinStream(old(state.consumed), StreamOf(blocks), block.block);
      blocks := blocks + [block.block];
      match verdict {
        case Continue => haveData, data := true, block.block.payload;
        case Final(final) => return final, blocks;
      }
    }
  }

  lemma JoinStream(a: Bytes, b: Bytes, block: Block)
    ensures (a + b) + ContainerBytes(block.info, block.payload) == a + (b + ContainerBytes(block.info, block.payload))
  {}

  lemma NothingPaced(calls: seq<Call>, base: nat, policy: TimeoutPolicy)
    ensures ResponsePaced(calls, calls, base, [], policy)
  {}

  /** After one more container was tried. */
  lemma PacedSoFar(a: seq<Call>, b: seq<Call>, c: seq<Call>, base: nat, blocks: seq<Block>, policy: TimeoutPolicy)
    requires a <= b <= c && |blocks| <= 1 && ResponsePaced(a, b, base, blocks, policy)
    requires blocks == [] ==> a == b
    requires var from := base + if blocks == [] then 0 else 12 + |blocks[0].payload|;
             && |Delivered(b)| >= from
             && HeaderFirst(b, c, from, Pace(ResponsePhase, policy.response), Pace(DataTransfer, policy.dataIdle))
    ensures ResponsePaced(a, c, base, blocks, policy)
  {
    hide Delivered, HeaderFirst, ResponsePaced;
    if blocks == [] { FirstPaced(a, c, base, policy); } else { SecondPaced(a, b, c, base, blocks, policy); }
  }

  lemma OneMorePaced(a: seq<Call>, b: seq<Call>, c: seq<Call>, base: nat, blocks: seq<Block>, block: Block, policy: TimeoutPolicy)
    requires |blocks| <= 1 && ResponsePaced(a, c, base, blocks, policy) && (blocks == [] ==> a == b)
    requires NeededBelow(b, c, base + (if blocks == [] then 0 else 12 + |blocks[0].payload|) + 12 + |block.payload|)
    ensures ResponsePaced(a, c, base, blocks + [block], policy)
  {
    hide Delivered, ResponsePaced, NeededBelow;
    if blocks == [] {
      assert blocks + [block] == [block];
      FirstPacedStays(a, c, base, block, policy);
    } else {
      SecondBlockSaysNothing(a, c, base, blocks, block, policy);
    }
  }

  lemma NothingYet(calls: seq<Call>, terms: Terms, consumed: Bytes)
    ensures Continues(calls, calls, terms) && EndsInProgress(calls, calls)
    ensures OnlyReads(calls, calls) && !Touched(calls, calls)
    ensures consumed + StreamOf([]) == consumed
  {}

  lemma LinksTogether(a: seq<Call>, b: seq<Call>, c: seq<Call>, terms: Terms)
    requires Continues(a, b, terms) && EndsInProgress(a, b) && Continues(b, c, terms)
    requires OnlyReads(a, b) && !Touched(a, b) && OnlyReads(b, c) && !Touched(b, c)
    ensures Continues(a, c, terms) && OnlyReads(a, c) && !Touched(a, c)
    ensures EndsInProgress(b, c) ==> EndsInProgress(a, c)
  {
    ContinuesTrans(a, b, c, terms);
    hide Continues;
  }

  // ---------- writer and reader together ----------

  /** A container written to a stream is the container read back from its front, and the next
      one starts where it ends. */
  lemma WrittenIsReadBack(kind: ContainerType, code: CommandCode, id: U32, payload: Bytes, rest: Bytes,
                          block: Block, tail: Bytes)
    requires NewInfo(kind, code, id, |payload|).Some?
    requires WellFormed(block.info, block.payload)
    requires Message(kind, code, id, payload) + rest == ContainerBytes(block.info, block.payload) + tail
    ensures block.info.kind == kind && block.info.code == Command(code) && block.info.transactionId == id
    ensures block.payload == payload && tail == rest
  {
    ContainersArePrefixFree(NewInfo(kind, code, id, |payload|).value, payload, rest, block.info, block.payload, tail);
  }

  /** However the transfers cut the stream: once a container was read where a written one begins,
      it is that container, and pending bytes plus what was not transferred yet are the rest. */
  lemma WrittenIsReadBackFromAnyCut(kind: ContainerType, code: CommandCode, id: U32, payload: Bytes, stream: Bytes,
                                    before: Bytes, rest: Bytes, received: Bytes, block: Block, pending: Bytes)
    requires NewInfo(kind, code, id, |payload|).Some?
    requires stream == before + Message(kind, code, id, payload) + rest
    requires received <= stream && received == before + ContainerBytes(block.info, block.payload) + pending
    requires WellFormed(block.info, block.payload)
    ensures block.info.kind == kind && block.info.code == Command(code) && block.info.transactionId == id
    ensures block.payload == payload && pending + stream[|received|..] == rest
  {
    hide Message, ContainerBytes, WellFormed;
    var message, read := Message(kind, code, id, payload), ContainerBytes(block.info, block.payload);
    CutStream(stream, before, message, rest, received, read, pending);
    WrittenIsReadBack(kind, code, id, payload, rest, block, pending + stream[|received|..]);
  }

  lemma CutStream(stream: Bytes, before: Bytes, message: Bytes, rest: Bytes, received: Bytes, read: Bytes, pending: Bytes)
    requires stream == before + message + rest && received <= stream && received == before + read + pending
    ensures message + rest == read + (pending + stream[|received|..])
  {
    assert message + rest == stream[|before|..];
    assert stream == received + stream[|received|..];
  }

  /** The reader's header checks never refuse what the writer wrote, up to the payload limit. */
  lemma WrittenHeaderIsAccepted(kind: ContainerType, code: CommandCode, id: U32, payload: Bytes, stream: Bytes)
    requires |payload| <= 134_217_728
    requires Message(kind, code, id, payload) <= stream
    ensures NewInfo(kind, code, id, |payload|).Some?
    ensures var p := ParseHeader(stream[..HEADER_SIZE]);
            p.Done? && p.value.kind == kind && p.value.code == Command(code) && p.value.transactionId == id
            && p.value.PayloadLen() == Some(|payload|)
  {
    var info := NewInfo(kind, code, id, |payload|).value;
    HeaderIsPrefix(info, []);
    assert stream[..HEADER_SIZE] == PutHeader(info, []);
    ParsePutHeader(info, []);
  }

  /** What reading a written container comes to: the container itself, with the rest of the
      stream still to come, or a transport failure; never a misread or a malformed header. */
  ghost predicate ReadBack(r: BlockResult, kind: ContainerType, code: CommandCode, id: U32, payload: Bytes,
                           pending: Bytes, undelivered: Bytes, rest: Bytes) {
    match r
    case NoBlock(e) => e.ReadStopped?
    case GotBlock(b) =>
      && b.info.kind == kind && b.info.code == Command(code) && b.info.transactionId == id && b.payload == payload
      && pending + undelivered == rest
  }

  /** Reads from a device that has a written container and then `rest` to deliver, however it
      cuts them. */
  method ReadWritten(link: Link, state: BulkReadState, deadline: Deadline, payloadDeadline: Deadline, ghost kind: ContainerType,
                     ghost code: CommandCode, ghost id: U32, ghost payload: Bytes, ghost rest: Bytes) returns (r: BlockResult)
    requires link.Valid() && state.InStep(link)
    requires deadline.Valid() && deadline.link == link && payloadDeadline.Valid() && payloadDeadline.link == link
    requires deadline != payloadDeadline && deadline.hardExpiresAt == payloadDeadline.hardExpiresAt
    requires |payload| <= 134_217_728 && Fresh(link.calls, deadline.InForce())
    modifies link, state, state.buffer, deadline, payloadDeadline
    ensures link.Valid() && state.Valid() && state.Conserves(link)
    ensures var stream := old(state.consumed) + Message(kind, code, id, payload) + rest;
            link.received <= stream ==>
              ReadBack(r, kind, code, id, payload, state.Pending(), stream[|link.received|..], rest)
  {
    hide Timeline, Continues, Touched, OnlyReads, AllClean, EndsInProgress, LastReadFilled, ParseHeader, WellFormed,
         ContainerBytes, Message;
    ghost var before := state.consumed;
    r := ReadContainer(link, state, deadline, payloadDeadline);
    ghost var message := Message(kind, code, id, payload);
    ghost var stream := before + message + rest;
    if link.received <= stream {
      WrittenHeaderIsAccepted(kind, code, id, payload, message + rest);
      match r {
        case GotBlock(b) =>
          WrittenIsReadBackFromAnyCut(kind, code, id, payload, stream, before, rest, link.received, b, state.Pending());
        case NoBlock(e) =>
          if !e.ReadStopped? { SameHeader(before, message, rest, link.received, state.consumed, state.Pending()); }
      }
    }
  }

  lemma SameHeader(before: Bytes, message: Bytes, rest: Bytes, received: Bytes, consumed: Bytes, pending: Bytes)
    requires received <= before + message + rest && received == consumed + pending
    requires before <= consumed && |consumed| == |before| + HEADER_SIZE
    ensures |message + rest| >= HEADER_SIZE && consumed[|before|..|before| + 12] == (message + rest)[..HEADER_SIZE]
  {
    assert before + message + rest == before + (message + rest);
    assert consumed <= before + (message + rest);
  }

  /** Writer and reader end to end: what one transport accepted, another delivers, and any legal
      chunk size, any schedule of partial writes and any cut of the reads in between give the
      payload back. */
  method Loopback(out: Link, chunkSize: nat, writeDeadline: Deadline, link: Link, state: BulkReadState, deadline: Deadline,
                  payloadDeadline: Deadline, kind: ContainerType, code: CommandCode, id: U32, payload: Bytes, ghost rest: Bytes)
      returns (status: WriteStatus, r: BlockResult)
    requires out != link && out.Valid() && writeDeadline.Valid() && writeDeadline.link == out
    requires link.Valid() && state.InStep(link)
    requires deadline.Valid() && deadline.link == link && payloadDeadline.Valid() && payloadDeadline.link == link
    requires deadline != payloadDeadline && deadline.hardExpiresAt == payloadDeadline.hardExpiresAt
    requires |payload| <= 134_217_728
    requires Fresh(link.calls, deadline.InForce()) && Fresh(out.calls, writeDeadline.InForce())
    modifies out, writeDeadline, link, state, state.buffer, deadline, payloadDeadline
    ensures old(out.accepted) <= out.accepted
    ensures state.Valid() && state.Conserves(link)
    ensures status.Written? ==>
              var stream := old(state.consumed) + out.accepted[|old(out.accepted)|..] + rest;
              link.received <= stream ==>
                ReadBack(r, kind, code, id, payload, state.Pending(), stream[|link.received|..], rest)
  {
    hide Timeline, Continues, Touched, LastReadFilled, Message, WriteExplains, AllOfferChunks, OnlyWrites, ReadBack;
    var dispatched;
    r := NoBlock(BadHeader);
    status, dispatched := WriteContainer(out, chunkSize, kind, code, payload, id, writeDeadline, false);
    if status.Unwritten? { return; }
    assert out.accepted[|old(out.accepted)|..] == Message(kind, code, id, payload);
    r := ReadWritten(link, state, deadline, payloadDeadline, kind, code, id, payload, rest);
  }
}
