# Verified model of the camera transport, descriptors, rule compiler and firmware scanners

A Dafny model of the parts of this repository in which a mistake would be hardest to see: the PTP
bulk transport that rebuilds containers from arbitrarily cut USB transfers, the property
descriptor decoder and the permits that decide which writes may reach a camera, the compiler
from rule predicates to disjunctive normal form, the LZSS decoder and image scanners of the
firmware tool, and the interrupt latch. `dafny verify dfyconfig.toml` checks all of it.

## How it is laid out

| file | models |
|---|---|
| `Wrappers.dfy` | a value that may be absent |
| `Wire.dfy`, `Utf16.dfy`, `Codec.dfy`, `Structs.dfy`, `Container.dfy` | the wire format: little-endian integers, counted lists, PTP strings (sections 2.1 and 2.2 of RFC 2781), datasets, container headers |
| `UsbLink.dfy`, `Deadlines.dfy` | the environment (endpoints and clock, driven by unbounded scripts) and the nested deadlines |
| `BulkRead.dfy`, `BulkWrite.dfy`, `Transaction.dfy`, `Session.dfy`, `ChunkPolicy.dfy` | buffered reads, chunked writes, one transaction, the session over many transactions, read-size promotion |
| `Descriptor.dfy`, `DescriptorReader.dfy`, `Arithmetic.dfy` | property descriptors: a value-level grammar with its lemmas, and the cursor-moving reader proved against it |
| `Preflight.dfy`, `Permits.dfy` | what preflight decides and establishes about each property, and the permit state machine |
| `Grammar.dfy`, `Dnf.dfy`, `Multisets.dfy`, `Alias.dfy` | predicates, their normal form, alias rewriting |
| `Lzss.dfy`, `SectionScan.dfy`, `Surface.dfy` | firmware decompression and the two image scans |
| `Interrupt.dfy` | the latch, the signal handler and critical camera writes |

Code that changes state step by step is modelled by classes and loops (`BulkReadState`,
`Deadline`, `PtpSession`, `Policy`, `MutationPermit`, `PtpGate`, `InterruptLatch`, the readers
and writers, the scanners); each is proved against a specification function or a record of
what happened, and the laws are lemmas about those. Code made of expressions (`dnf.rs`, the range
check, the code tables) is functions and lemmas.

`Link` keeps every bulk call that was made, every byte the device delivered and every byte it
accepted. Scripts decide how many bytes a call moves, when it times out or fails and how much time
passes, so a contract about `Link` speaks of every possible device. `Timeout` means that
nothing moved and that the whole timeout was used up. A record of calls, called `calls`, is what
the statements below about timeouts, chunks and poisoning are about.

## Where the code and its documentation differ

- The fuzz target for `DeviceInfo` (`fuzz/fuzz_targets/ptp_device_info.rs:8-13`) states that
  decoding and re-encoding gives back the same bytes. A PTP string has a second accepted spelling
  of the empty string, one unit long and holding only the terminator, which re-encodes to a single
  zero byte. `Structs.DeviceInfoByteIdentity` proves that the bytes come back exactly when no
  string used that spelling, `Codec.SpellingsAreExact` that the inputs of a value are exactly its
  spellings, and `Structs.DeviceInfoIdentityFails` that a device info has an input which does not
  come back exactly when one of its five strings is empty.
- A range form is not exactly "minimum plus a multiple of step" for signed 128-bit properties:
  the subtraction is checked in 128 bits, and a candidate too far above the minimum is refused.
  `Descriptor.RangeCandidateIsExact` gives the exact condition for every type,
  `NarrowRangeIsExact` the types where it never matters, and `WideRangeCanRefuse` a descriptor
  that decodes and refuses the encoding of a value on its grid.
- Alias rewriting does not always keep the meaning of a rule: an alias may overwrite a setting
  that a remaining literal reads. `Alias.RewriteIsExact` gives the exact condition on the
  conjunction and the alias, before the rewrite and for every state at once: every literal that
  stays and reads an assigned setting must hold of what the alias assigns, and no assignment may
  undo an earlier one. `Alias.OverlappingRewriteIsUnsound` is a rule that breaks.
- An interrupt is not always latched for the transaction it arrives in
  (`src/cli/common/interrupt.rs:17-21`). Session control returns without honouring what is pending
  (`src/lib/ptp/mod.rs:618-622`), so a signal during it stays pending, and the first signal of the
  next transaction or critical write then ends the process as a second one would.
  `Interrupt.SignalExitsExactly` says exactly when a signal does that in any run,
  `FirstInterruptIsExact` when the first one of a transaction or region does, and
  `CarriedInterruptExits` is such a run.
- `ObjectFormat::Other(c)` and `ContainerCode::Unknown(c)` come back as themselves only when `c`
  is not a listed code (`Structs.FormatRoundTrip`, `Container.CodeRoundTrip`).

## What the profile schema is needed for

Preflight keeps the last descriptor of a property, so that a live value can be written back
exactly when the last descriptor kept for its property is writable (`Preflight.RestoreIsExact`,
for every profile). The schema forbids requiring a property twice (`fml/camera.cue:118`), which
makes that always so (`UniqueCodesAreConsistent`, `LiveValuesCanBeRestored`).

## Model

| member | source | states |
|---|---|---|
| Grammar.OnlyRefsMatter | crates/codegen/src/ast/grammar.rs:251-263 | two states that agree on the refs of a predicate give it the same truth value |
| Grammar.CollectRefs | crates/codegen/src/ast/grammar.rs:238-249 | the recursive collection adds exactly the predicate's refs to the caller's set |
| Dnf.NegatedIsComplement | crates/codegen/src/ast/dnf.rs:65-91 | a negated literal holds exactly when the literal does not, through the polarity flip of presence; negation is an involution and keeps ref and scope |
| Dnf.DisjunctsMeaning | crates/codegen/src/ast/dnf.rs:316-357 | in every environment the disjuncts hold iff the predicate holds |
| Dnf.NegationMeaning | crates/codegen/src/ast/dnf.rs:359-392 | in every environment the negation holds iff the predicate does not |
| Dnf.NegationsMeaning | crates/codegen/src/ast/dnf.rs:359-392 | De Morgan, both ways, including the empty `all` and `any` |
| Dnf.FoldMeaning | crates/codegen/src/ast/dnf.rs:317-357 | folding clauses by distribution is conjunction with all of them |
| Dnf.DistributeHolds | crates/codegen/src/ast/dnf.rs:317-357 | the product of two disjunctions holds iff both hold |
| Dnf.FlatMapMeaning | crates/codegen/src/ast/dnf.rs:317-357 | concatenating the disjuncts of the parts is their disjunction |
| Dnf.DisjunctsRefs | crates/codegen/src/ast/dnf.rs:316-357 | the normal form mentions no ref the predicate does not |
| Dnf.NegationRefs | crates/codegen/src/ast/dnf.rs:359-392 | nor does the negation |
| Dnf.DisjunctsCount | crates/codegen/src/ast/dnf.rs:316-357 | the number of disjuncts is the product over `all` and the sum over `any`, exactly |
| Dnf.NegationCount | crates/codegen/src/ast/dnf.rs:359-392 | under negation the same count with product and sum exchanged |
| Dnf.AllInOrder | crates/codegen/src/ast/dnf.rs:316-346 | the disjuncts of `all` are the concatenations of one disjunct of each clause, each choice at its own place, the last clause varying fastest |
| Dnf.AnyInOrder | crates/codegen/src/ast/dnf.rs:347-347 | the disjuncts of `any` are those of its parts, part by part |
| Dnf.ToPredicateMeaning | crates/codegen/src/ast/dnf.rs:280-314 | turning a normal form back into a predicate keeps its meaning |
| Dnf.LeafRoundTrip | crates/codegen/src/ast/dnf.rs:111-152 | a literal turned into a predicate compiles to that literal alone |
| Dnf.NormalFormIsFixpoint | crates/codegen/src/ast/dnf.rs:280-314 | compiling that predicate gives the same normal form back, literal for literal and in order, or the single empty conjunction exactly if one of the conjunctions was empty |
| Dnf.CompilationIsIdempotent | crates/codegen/src/ast/dnf.rs:274-314 | compiling, going back and compiling again changes nothing unless a conjunction is empty, and then gives the single empty conjunction |
| Multisets.SwapRemoveMultiset | crates/codegen/src/schema/alias.rs:35-37 | `swap_remove` takes out one occurrence of the element at the index and nothing else |
| Multisets.Subset | crates/codegen/src/util/multiset.rs:46-61 | the removal loop decides multiset inclusion, both ways |
| Multisets.Equal | crates/codegen/src/util/multiset.rs:6-33 | the counting loops decide multiset equality, both ways |
| Multisets.Tally | crates/codegen/src/util/multiset.rs:14-17 | the table holds the number of occurrences of every element |
| Alias.TransformInPlace | crates/codegen/src/schema/alias.rs:30-45 | the in-place loops rewrite for the first matching disjunct only, or leave the conjunction alone |
| Alias.RemoveEachMultiset | crates/codegen/src/schema/alias.rs:34-38 | removing the literals of an included disjunct is multiset subtraction |
| Alias.TransformMultiset | crates/codegen/src/schema/alias.rs:30-45 | the result is exactly the conjunction minus the matched disjunct plus the expansion, or the conjunction itself when nothing matches |
| Alias.TransformationIsExact | crates/codegen/src/schema/alias.rs:9-45 | a transformation with a trigger and at least one assignment takes out the first disjunct of the compiled trigger that the conjunction contains, each literal as often as it occurs, and adds one literal for each assignment; every other transformation leaves the conjunction alone |
| Alias.ExpansionHolds | crates/codegen/src/ast/dnf.rs:94-109 | with distinct refs every literal of the expansion holds after the assignments |
| Alias.RewriteIsExact | crates/codegen/src/schema/alias.rs:30-45 | for every state satisfying the conjunction, the rewritten one holds after the assignments iff, checked beforehand, the staying literals that read assigned settings and the expansion all hold of the assignments alone |
| Alias.RewriteOfDistinctIsExact | crates/codegen/src/schema/alias.rs:30-45 | with distinct refs and a reflexive comparison, iff the staying literals do |
| Alias.RewriteIsSound | crates/codegen/src/schema/alias.rs:24-45 | with distinct refs and no remaining literal reading an assigned setting, a state satisfying the conjunction is mapped to one satisfying the rewritten conjunction |
| Alias.OverlappingRewriteIsUnsound | crates/codegen/src/schema/alias.rs:30-45 | without that condition it can fail, with a concrete rule |
| Alias.ChainIsSound | crates/codegen/src/schema/alias.rs:54-58 | if each rewrite along the alias list meets that condition, a state satisfying the conjunction leads to one satisfying the final one |
| Alias.IndependentChainKeepsMeaning | crates/codegen/src/schema/alias.rs:54-58 | distinct refs and no remaining literal reading an assigned setting are enough for that |
| Alias.TransformAllPointwise | crates/codegen/src/schema/alias.rs:24-28 | folding the aliases over a normal form rewrites each conjunction through the whole list; which rewriting each step makes is `Alias.TransformationIsExact` |
| Alias.NormalizedRuleIsSound | crates/codegen/src/schema/alias.rs:54-63 | a state that triggers a rule triggers the normalized rule once the matching transformations have run |
| Wire.LeRoundTrip | src/lib/ptp/codec.rs:338-345 | reading a little-endian number back gives the number |
| Wire.LeUnique | src/lib/ptp/codec.rs:347-360 | the bytes of a width are the encoding of what they read as |
| Wire.LittleEndian | src/lib/ptp/codec.rs:338-345 | the least significant byte comes first, spelled out for one, two and four bytes |
| Wire.ParsePutMany | src/lib/ptp/codec.rs:287-305 | a counted run of numbers reads back, and has exactly the announced length |
| Wire.PutParseMany | src/lib/ptp/codec.rs:134-137 | what was read as a run re-encodes to the same bytes |
| Wire.Reader.ReadMany | src/lib/ptp/codec.rs:134-137 | the element loop agrees with the grammar, success or failure, and stops at the right position |
| Utf16.DecodeEncode | src/lib/ptp/codec.rs:211-268 | every text survives UTF-16, surrogate pairs included |
| Utf16.EncodeDecode | src/lib/ptp/codec.rs:236-268 | decoding is injective: the units are the encoding of the text they decode to |
| Utf16.ParsePutString | src/lib/ptp/codec.rs:211-268 | a PTP string within 254 units reads back |
| Utf16.PutParseString | src/lib/ptp/codec.rs:236-268 | a read string re-encodes to the same bytes, unless it was the one-unit spelling of the empty string, which comes back two bytes shorter |
| Utf16.ParsePutExact | src/lib/ptp/codec.rs:153-197 | an exact string reads back |
| Utf16.PutParseExact | src/lib/ptp/codec.rs:176-197 | a read exact string re-encodes to the same bytes, always |
| Utf16.ReadString | src/lib/ptp/codec.rs:236-268 | the reader loop agrees with the string grammar |
| Utf16.ReadExact | src/lib/ptp/codec.rs:176-197 | the exact-string loop agrees with its grammar |
| Codec.ParsePutArray | src/lib/ptp/codec.rs:58-138 | an array within the element and byte limits reads back |
| Codec.PutParseArray | src/lib/ptp/codec.rs:74-138 | a read array is within both limits and re-encodes to the same bytes |
| Codec.BudgetCheckIsExact | src/lib/ptp/codec.rs:85-137 | the check of the remaining payload before allocating refuses exactly the arrays whose elements would run out of bytes |
| Codec.ReadArray | src/lib/ptp/codec.rs:80-138 | the reader with its checks agrees with the array grammar |
| Codec.ParsePutFields | src/lib/ptp/codec.rs:338-360 | a dataset of such fields reads back exactly if every field is within the reader's limits, and fails otherwise |
| Codec.DecodeExact | src/lib/ptp/codec.rs:347-360 | field by field reading plus the trailing-bytes check agrees with the grammar |
| Codec.DecodeEncodeFields | src/lib/ptp/codec.rs:338-360 | decoding an encoding gives the fields back exactly if they are within the reader's limits |
| Codec.EncodeDecodeFields | src/lib/ptp/codec.rs:338-360 | whatever decodes re-encodes, byte-identically iff no string used the one-unit empty spelling |
| Codec.SpellingsAreExact | src/lib/ptp/codec.rs:236-268 | the inputs that decode to a value are exactly those with any of its empty strings spelled in the one-unit form |
| Codec.SecondSpellingIsExact | src/lib/ptp/codec.rs:347-360 | a value has an input that does not come back byte for byte exactly if one of its strings is empty |
| Codec.EncodeAll | src/lib/ptp/codec.rs:338-345 | the writer succeeds exactly on printable fields and writes their encoding |
| Codec.ConsumePadding | src/lib/ptp/codec.rs:327-336 | skips exactly the padding, or fails when there are not that many bytes |
| Codec.Writer.WriteZeroPadding | src/lib/ptp/codec.rs:316-325 | the chunked loop writes exactly that many zero bytes |
| Codec.Writer.WriteString | src/lib/ptp/codec.rs:211-234 | refuses exactly the texts that do not fit, otherwise appends the encoding |
| Structs.FormatRoundTrip | src/lib/ptp/structs.rs:206-228 | every code survives the format conversion; a format does exactly when it is not `Other` of a listed code |
| Structs.DeviceInfoRoundTrip | src/lib/ptp/structs.rs:5-40 | within the string and array limits encoding succeeds and decodes to the same value; what encodes outside the reader's limits does not decode |
| Structs.DeviceInfoByteIdentity | fuzz/fuzz_targets/ptp_device_info.rs:8-20 | a decoded device info re-encodes, to the same bytes exactly if no string used the one-unit empty spelling |
| Structs.DeviceInfoIdentityFails | fuzz/fuzz_targets/ptp_device_info.rs:8-20 | some input of a device info fails byte identity exactly if one of its five strings is empty |
| Structs.ObjectInfoRoundTrip | src/lib/ptp/structs.rs:257-285 | encoding succeeds exactly within the limits and decodes to the same value exactly if its format is canonical |
| Structs.ObjectInfoByteIdentity | src/lib/ptp/structs.rs:257-285 | the same byte identity for object info |
| Container.CodeSurvives | src/lib/ptp/container.rs:182-206 | every 16-bit code is the code of what it converts to |
| Container.CodeRoundTrip | src/lib/ptp/container.rs:176-206 | a container code converts back to itself exactly if it is not `Unknown` of a listed code |
| Container.ParsePutHeader | src/lib/ptp/container.rs:6-45 | a header with a canonical code reads back |
| Container.PutParseHeader | src/lib/ptp/container.rs:6-45 | a read header re-encodes to the same twelve bytes |
| Container.HeaderOnTheWire | src/lib/ptp/container.rs:6-45 | the twelve bytes field by field: whole length, kind 1 to 4, code, transaction id |
| Container.RiskByCode | src/lib/ptp/mod.rs:1010-1026 | by wire code, which operations only read, which manage the session and which change the camera's state |
| Container.SuccessByCode | src/lib/ptp/container.rs:182-206 | 0x2001 and no other code is the response that means success |
| Container.ContainersArePrefixFree | src/lib/ptp/container.rs:15-45 | two well-formed containers at the front of one stream are the same container |
| UsbLink.ContinuesTrans | src/lib/ptp/mod.rs:266-292 | the deadline discipline of consecutive phases composes: bounded calls, one hard expiry, the allowance of each phase, an idle expiry that only progress moves |
| UsbLink.TimeoutRunIsShort | src/lib/ptp/mod.rs:272-292 | between two progress events there are at most as many timed-out calls as the phase's idle allowance has milliseconds |
| Deadlines.Deadline.IoTimeout | src/lib/ptp/mod.rs:272-291 | the timeout of a call is 1 ms to 10 s, ends by the idle expiry and is cut below 10 s only to end with it; otherwise it says which expiry is less than 1 ms away |
| Deadlines.Deadline.RecordProgress | src/lib/ptp/mod.rs:253-264 | progress restarts the idle allowance from now and never passes the hard expiry |
| Deadlines.StartPhase | src/lib/ptp/mod.rs:235-270 | a phase keeps the transaction's hard expiry and gets its own idle allowance |
| BulkRead.BulkReadState.constructor | src/lib/ptp/mod.rs:294-314 | a fresh buffer of the given size has nothing pending |
| BulkRead.BulkReadState.Resized | src/lib/ptp/mod.rs:316-324 | refused exactly with bytes pending, a size out of range or a failed allocation; otherwise the new buffer continues where the old one was |
| BulkRead.BulkReadState.Attempt | src/lib/ptp/mod.rs:338-347 | one bulk read: any transfer, an empty one included, restarts the idle allowance; a timeout or fault does not |
| BulkRead.BulkReadState.Fill | src/lib/ptp/mod.rs:334-363 | the inner loop ends under every device script; it keeps the next non-empty transfer, having seen an empty one only after a full-buffer read, or says which of five reasons stopped it |
| BulkRead.BulkReadState.Take | src/lib/ptp/mod.rs:365-371 | the copied bytes move from pending to output, none lost and none doubled |
| BulkRead.BulkReadState.ReadExact | src/lib/ptp/mod.rs:326-373 | a success hands out exactly the next bytes of the stream; handed out plus pending always equals what the device delivered; cursor <= len <= buffer length |
| BulkRead.ReadFromStream | src/lib/ptp/mod.rs:326-373 | for every way a device cuts its stream, a successful read is the stream's next N bytes, and pending plus untransferred bytes are the rest |
| BulkWrite.WriteStep | src/lib/ptp/mod.rs:1593-1616 | one bulk write: a timeout changes nothing and brings the hard expiry nearer, progress sets the dispatched flag, and each failure is told apart |
| BulkWrite.WriteTurn | src/lib/ptp/mod.rs:1592-1618 | one turn of the loop: progress, and nothing else, restarts the idle allowance |
| BulkWrite.WriteAllBulk | src/lib/ptp/mod.rs:1584-1620 | the loop ends under every script; the accepted bytes are the buffer, or a part of it on failure, and the dispatched flag says whether anything may have reached the device |
| BulkWrite.WriteContainer | src/lib/ptp/mod.rs:1502-1553 | the accepted bytes are header and payload, or a prefix of them on failure; every call offers the rest of one chunk and all chunks but the last are exactly the chunk size; illegal sizes are refused before any call |
| BulkWrite.RestIsChunk | src/lib/ptp/mod.rs:1528-1551 | a retry at a confirmed offset stays on the chunk grid of the whole container |
| BulkWrite.MessageOnTheWire | src/lib/ptp/mod.rs:1502-1527 | what a container puts on the wire, field by field: 12 + payload length, kind, operation code, transaction id, payload |
| Transaction.ReadContainer | src/lib/ptp/mod.rs:1649-1690 | a success consumed exactly one well-formed container of at most 128 MiB; every call made before the twelve bytes of the header had arrived ran under the header's deadline and every later one under the payload's; a transport failure is explained by the last calls or by that deadline really being over, and each header error by the twelve bytes read |
| Transaction.JudgeIsSound | src/lib/ptp/mod.rs:1402-1437 | the checks on one container accept exactly a first data container of this transaction or a final response with nothing after it, and otherwise name the offence |
| Transaction.ReadResponse | src/lib/ptp/mod.rs:1382-1439 | the response loop ends after at most two containers, and its result is what they say; bytes after a response are refused only if there are any; headers are waited for under the response allowance and payloads under the data allowance, and a deadline error names the one in force where the stream broke off |
| Transaction.PolicyTable | src/lib/ptp/mod.rs:144-173 | in nanoseconds, the allowances and the hard limit of each kind of operation |
| Transaction.WrittenIsReadBack | src/lib/ptp/mod.rs:1502-1553 | a container read where a written one begins is that container, kind, code, id and payload |
| Transaction.WrittenIsReadBackFromAnyCut | src/lib/ptp/mod.rs:1649-1690 | the same under every cut of the stream, with pending plus untransferred bytes equal to the rest |
| Transaction.WrittenHeaderIsAccepted | src/lib/ptp/mod.rs:1665-1671 | the reader's header checks refuse no written container up to the payload limit |
| Transaction.ReadWritten | src/lib/ptp/mod.rs:1649-1690 | reading from a device that has a written container to deliver, under every cut, gives that container with the rest still to come, or a transport failure, never a misread or malformed header |
| Transaction.Loopback | src/lib/ptp/mod.rs:1502-1553 | what one transport accepted and another delivers is the payload again, for every legal chunk size, schedule of partial writes and cut of the reads |
| Session.PtpSession.constructor | src/lib/ptp/mod.rs:425-451 | a session over an unused link starts at id zero, unpoisoned |
| Session.PtpSession.WriteRequest | src/lib/ptp/mod.rs:1335-1377 | command and data containers go out in order and in full chunks of the write size, the first under the command allowance and the second under the data allowance; a failure leaves a prefix of the container it names, and is explained by chunk size, length, the last call or that allowance being over |
| Session.PtpSession.Exchange | src/lib/ptp/mod.rs:1335-1451 | the id rises by one iff something may have reached the device; after that only a well-framed response leaves the session usable, and then nothing is pending; each result says what was accepted, what was read and why it failed |
| Session.PtpSession.Answer | src/lib/ptp/mod.rs:1379-1451 | the response to a request that went out: a conclusion consumed exactly the containers that say so, an offence is what the last container shows, and a container that could not be had is explained |
| Session.PtpSession.Send | src/lib/ptp/mod.rs:1303-1451 | the same for a whole call, with each of the three refusals before dispatch exact and without effect, and the id never passing 2^32-1 |
| Session.PtpSession.SendForOperation | src/lib/ptp/mod.rs:1129-1231 | every call of one transaction ends by one hard expiry fixed when it starts and waits under the allowance the policy gives to what it does: command writes, data writes and payload reads, header reads; a deadline error names that phase and comes only when the hard expiry, or the allowance since the last progress, is less than 1 ms away |
| Session.PtpSession.ObserveReadSuccess | src/lib/ptp/mod.rs:626-653 | effective size and buffer length stay equal through promotion and rollback; it succeeds exactly when the policy promotes and a buffer of that size can be had; it fits the 10 s budget; at most five ever succeed |
| Session.PtpSession.OpenSession | src/lib/ptp/mod.rs:655-682 | every OpenSession carries id 0; exactly a stale-session answer leads to a close, and exactly a successful close to one retry; on success the device accepted exactly the opening, or opening, closing and opening again |
| Session.OpeningOnTheWire | src/lib/ptp/mod.rs:1453-1478 | those commands byte by byte, and 0x201E as the answer that means a stale session |
| Session.NumberOneMore | src/lib/ptp/mod.rs:1349-1351 | numbering stays well formed: two commands share an id only if the first put nothing on the wire |
| Session.PtpSession.Transact | src/lib/ptp/mod.rs:532-624 | one transaction of any kind as a law between the states before and after: the read size rises exactly after a successful read that is the third to count, passes the budget, has a next size of at most 16 MiB and gets its buffer; every reply that counts is added to the sample |
| Session.Run | src/lib/ptp/mod.rs:1303-1451 | over any list of transactions of any kind, promotions with any allocation outcome and openings, every step obeys its law, and before and after each of them commands are well numbered, ids are at most 2^32-1, at most five promotions succeeded, the buffer has the size in force and an unpoisoned session has nothing pending |
| Session.RunHasFewTimeouts | src/lib/ptp/mod.rs:266-292 | in every transaction of every run, those of openings included, a run of timed-out calls is at most as long as the idle allowance of its phase has milliseconds |
| Session.PoisonIsFinal | src/lib/ptp/mod.rs:1317-1320 | from the step that poisons a session on, every request is refused and no call is made and no byte written |
| Session.PoisonHasCause | src/lib/ptp/mod.rs:1352-1357 | a session is poisoned only by a step that touched the wire and did not end in a well-framed response |
| Session.HistoryGrows | src/lib/ptp/mod.rs:1349-1351 | between openings the history grows by exactly one command for each transaction that was tried, and the id by the number of those that may have reached the device |
| Session.IdSharedOnlyIfUntouched | src/lib/ptp/mod.rs:1349-1351 | two commands with no opening between them share an id only if the first put nothing on the wire |
| ChunkPolicy.ForTransport | src/lib/ptp/chunk_policy.rs:29-72 | refused exactly for a zero packet size or fewer than 13 whole-packet bytes to start with; otherwise reading and writing start at as many whole packets as fit in 256 KiB, or 1 MiB above full speed, and in the camera's ceiling, which is cut to whole packets too |
| ChunkPolicy.DirectionIsExact | src/lib/ptp/chunk_policy.rs:29-72 | the sizes of one direction are as many whole packets as fit |
| ChunkPolicy.NextChunkIsExact | src/lib/ptp/chunk_policy.rs:131-145 | the next read size is the least of 1, 4, 8 and 16 MiB, in whole packets, above the current one, at most the ceiling, and the ceiling if there is none |
| ChunkPolicy.PromotionUsesOne | src/lib/ptp/chunk_policy.rs:131-145 | the next size is larger, aligned and within the ceiling, and uses up one of finitely many promotions |
| ChunkPolicy.TiersShrink | src/lib/ptp/chunk_policy.rs:131-141 | moving up passes tiers that cannot be passed again |
| ChunkPolicy.SaturationIsSafe | src/lib/ptp/chunk_policy.rs:94-114 | a sample that passes the budget with saturated sums passes it with the true sums |
| ChunkPolicy.UnsaturatedBudgetIsExact | src/lib/ptp/chunk_policy.rs:102-114 | short of saturation the budget test is exactly size * duration <= 10 s * bytes |
| ChunkPolicy.Policy.ObserveReadOnlySuccess | src/lib/ptp/chunk_policy.rs:74-122 | the sample of reads that count is kept exactly, and the third promotes exactly when it passes the budget of the next size; a promotion strictly grows the size and satisfies size * duration <= 10 s * bytes for the true sums; the write side never moves |
| ChunkPolicy.Policy.RollBack | src/lib/ptp/mod.rs:645-651 | a failed allocation restores the old size and keeps the policy valid |
| Descriptor.TypeCodes | src/lib/ptp/descriptor.rs:305-357 | datatype codes round-trip, and exactly 0001 to 000A, 4001 to 400A and FFFF are datatypes |
| Descriptor.ValuesByCode | src/lib/ptp/descriptor.rs:294-387 | by wire code, what each datatype holds: ten scalars with their literal ranges, odd codes signed and even ones not, arrays of at most 524,288 of the scalar whose code is lower by 0x4000, strings of at most 254 units |
| Descriptor.ScalarsAreRead | src/lib/ptp/descriptor.rs:359-387 | what the bytes of each scalar code are read as: their little-endian number for even codes, its two's complement for odd ones; too few bytes fail |
| Descriptor.TwosComplementRange | src/lib/ptp/descriptor.rs:505-549 | signed scalars are in their range and re-encode to the bits read |
| Descriptor.ParsePutValue | src/lib/ptp/descriptor.rs:359-387 | every value inhabiting a datatype reads back |
| Descriptor.ParsedInhabits | src/lib/ptp/descriptor.rs:359-503 | every value read inhabits its datatype and re-encodes to its bytes, the one-unit empty string excepted |
| Descriptor.ParsedValuesInhabit | src/lib/ptp/descriptor.rs:432-489 | the same for lists, whose length is bounded by the bytes read |
| Descriptor.GridIsDivisibility | src/lib/ptp/descriptor.rs:255-290 | the remainder test is the existence of a natural step count |
| Descriptor.RangeMeaning | src/lib/ptp/descriptor.rs:255-290 | a candidate is in range iff both kinds agree, it is minimum + k * step <= maximum for a natural k, and a signed offset fits 128 bits |
| Descriptor.NarrowRangeIsExact | src/lib/ptp/descriptor.rs:255-290 | for every scalar type but signed 128-bit it is exactly the grid |
| Descriptor.WideRangeCanRefuse | src/lib/ptp/descriptor.rs:268-271 | a signed 128-bit descriptor that decodes, and the bytes of a value on its grid that it refuses |
| Descriptor.DescRoundTrip | src/lib/ptp/descriptor.rs:100-136 | decoding the encoding of a descriptor within budget returns it iff default and current value both satisfy its form |
| Descriptor.DecodedIsWellFormed | src/lib/ptp/descriptor.rs:100-136 | every decoded descriptor holds values of its datatype, default and current inside the form, and no list longer than the input or 524288 |
| Descriptor.AcceptanceIsExact | src/lib/ptp/descriptor.rs:172-211 | a candidate is accepted iff the property is writable and the bytes spell a value of its type in its form |
| Descriptor.CandidateIsExact | src/lib/ptp/descriptor.rs:172-211 | the same with the form spelled out: any value without a form, a listed one under an enumeration, the grid under a range |
| Descriptor.RangeCandidateIsExact | src/lib/ptp/descriptor.rs:172-211 | under a range form, for every type, the encoding of a value is accepted iff it is a natural number of steps from the minimum, within the maximum and, if signed, at a distance that fits 128 bits |
| Descriptor.LiveValueCanBeWrittenBack | src/lib/ptp/descriptor.rs:100-211 | the current value of a decoded writable descriptor is always accepted |
| Descriptor.StaticLiveValueCanBeWrittenBack | src/lib/ptp/descriptor.rs:143-170 | so is that of a statically declared one, as the bytes it came in and re-encoded |
| DescriptorReader.ReadValue | src/lib/ptp/descriptor.rs:359-387 | the cursor-moving reader agrees with the grammar for every datatype, arrays included |
| DescriptorReader.ReadValues | src/lib/ptp/descriptor.rs:451-454 | the element loop agrees with the grammar |
| DescriptorReader.ReadList | src/lib/ptp/descriptor.rs:432-456 | so does the array reader with its budget checks |
| DescriptorReader.ReadEnumeration | src/lib/ptp/descriptor.rs:464-489 | so does the enumeration reader |
| DescriptorReader.ReadForm | src/lib/ptp/descriptor.rs:111-120 | so does the form reader |
| DescriptorReader.DecodeBytes | src/lib/ptp/descriptor.rs:100-136 | so does the whole decoder, with its trailing-bytes and declared-value checks |
| DescriptorReader.ValidateCandidate | src/lib/ptp/descriptor.rs:172-211 | the candidate check decides acceptance |
| Preflight.ByCodeMeaning | src/lib/preflight.rs:80-91 | a property has a descriptor iff one was collected, and the one kept is among those |
| Preflight.CollectDescriptors | src/lib/preflight.rs:813-839 | the loop fails exactly if some requirement is refused |
| Preflight.CollectedMeaning | src/lib/preflight.rs:813-839 | the collected descriptors are exactly those the requirements kept |
| Preflight.VerdictIsExact | src/lib/preflight.rs:870-1050 | what preflight makes of each answer to each requirement: it keeps exactly the served descriptor of the required code, type and writability, or the profile's own shape when a writable property of exact non-array type has no descriptor and its live bytes spell a value of that shape; it goes on without one exactly for a property only read whose live bytes spell a value of the required type; all else is refused |
| Preflight.FormIsExact | src/lib/preflight.rs:973-1013 | the form of a declared shape holds its numbers, signed for odd type codes and never negative for even ones |
| Preflight.KeptDescriptorIsUsable | src/lib/preflight.rs:913-984 | a kept descriptor meets its requirement and accepts its own live value, whether the camera served it or the profile declared it |
| Preflight.OnlyProvenPropertiesAreWritable | src/lib/preflight.rs:128-138 | an allowed write is to a property the profile requires writable, with a value in the form of a writable descriptor kept in this preflight |
| Preflight.LastKeptIsUsed | src/lib/preflight.rs:80-91 | the permit's descriptor of a property is the last one kept for it |
| Preflight.RestoreIsExact | src/lib/preflight.rs:564-627 | for every profile and all answers: once preflight passed, writing the live value of a writable requirement back is allowed iff the last descriptor kept for that property is writable |
| Preflight.LiveValuesCanBeRestored | src/lib/preflight.rs:564-627 | when requirements on one property agree about writability it is always allowed |
| Preflight.UniqueCodesAreConsistent | fml/camera.cue:115-119 | what the schema demands of a profile implies that agreement |
| Preflight.SelectionIsExact | src/lib/preflight.rs:629-669 | a profile is selected iff it is verified and the only one for the operation and the exact firmware |
| Preflight.CapabilityIsExact | src/lib/preflight.rs:671-684 | the capability profile found is the first one of the exact firmware, if any |
| Preflight.DecisionIsExact | src/lib/preflight.rs:529-562 | preflight decides for a profile and a capability profile iff binding, manufacturer, model, firmware, advertised operations and properties, mode, battery and serial all fit, that profile is verified and the only one for the operation and firmware, and that capability profile the first |
| Permits.PropertyWriteIsExact | src/lib/preflight.rs:93-138 | a property write is authorized iff operation and property are in the profile, the property has a writable descriptor and the bytes spell a value of its type in its form |
| Permits.MutationIsExact | src/lib/preflight.rs:93-138 | for every command by wire code: a permit from a passed preflight authorizes it iff the profile requires the operation, an upload has the profile check behind it, and a property write is to a property required writable whose last kept descriptor is writable and admits the value |
| Permits.ParseHexIsExact | src/lib/ptp/mod.rs:973-1008 | a code parses exactly if it is hex digits after an optional plus sign and fits 32 bits |
| Permits.LiveEnvelopeIsExact | src/lib/ptp/mod.rs:973-1008 | the envelope check passes exactly on a 15-bit field count, the profile code in hex as an exact string, and a body of the declared size |
| Permits.HexTextParses | crates/codegen/src/common/cameras/mod.rs:611-614 | the lower-case hex text of a code parses back to the code |
| Permits.HexTextIsExact | crates/codegen/src/common/cameras/mod.rs:611-614 | the text of a code is its one spelling in lower-case hex without leading zeros |
| Permits.FingerprintPinsPayload | src/lib/preflight.rs:249-275 | a passed fingerprint check means the payload has the verified length and is the field count, the verified code in hex and one word a field after the padding |
| Permits.FingerprintIsExact | crates/codegen/src/common/cameras/mod.rs:585-624 | field by field, exactly which read layouts and payloads pass the fingerprint check |
| Permits.SignatureIsExact | crates/codegen/src/common/cameras/mod.rs:546-583 | field by field, exactly which write layouts pass the profile check |
| Permits.MutationPermit.ValidateReadFingerprint | src/lib/preflight.rs:249-275 | the fingerprint flag is set exactly by a payload matching the capability profile's write-verified read layout and the live envelope |
| Permits.MutationPermit.ValidateProfile | src/lib/preflight.rs:227-247 | the profile flag is set exactly by a payload matching the write layout, allowed for the RAW profile property, after the fingerprint check passed on the same permit |
| Permits.PtpGate.ClearMutationPermit | src/lib/ptp/mod.rs:866-868 | the active permit ends for good |
| Permits.PtpGate.ActivateMutationPermit | src/lib/ptp/mod.rs:857-864 | a fresh id becomes active and the previous one ends; an exhausted counter changes nothing |
| Permits.PtpGate.RunPreflight | src/lib/preflight.rs:564-627 | a permit is issued exactly when the decision and every requirement passed and ids remain, bound to this device and holding what was decided and collected; otherwise none is active |
| Permits.PtpGate.CheckFingerprint | src/lib/ptp/mod.rs:910-927 | through the transport the fingerprint check needs the active permit |
| Permits.PtpGate.CheckProfile | src/lib/ptp/mod.rs:898-908 | so does the profile check |
| Permits.PtpGate.SendReadOnly | src/lib/ptp/mod.rs:486-495 | the generic sender writes exactly the read-only commands |
| Permits.PtpGate.SendMutating | src/lib/ptp/mod.rs:507-530 | a state-changing command is written iff its permit is active for this device and authorizes it, which `Permits.MutationIsExact` spells out; an ended permit is refused whatever it authorizes |
| Permits.Run | src/lib/ptp/mod.rs:507-530 | over any run that reuses any permit at will, each container was written by one step, and each state-changing one under a grant that covers it, from a passed preflight before that step with no preflight and no session end in between, uploads with a passed fingerprint check and then a passed profile check of the same permit in between |
| Permits.MutationsAreListed | src/lib/preflight.rs:93-127 | by wire code, each container a run writes is a read-only command, or one of six state-changing ones by a mutation step, and then the profile that an earlier preflight decided for requires exactly this operation, with no preflight and no session end since |
| Permits.UploadsAreProven | src/lib/preflight.rs:93-127 | before an upload that preflight also decided for a firmware whose RAW conversion is verified for writing, then a payload in its read layout was seen, then one in its write layout that was proven for the RAW property |
| Permits.PropertyWritesAreProven | src/lib/preflight.rs:93-138 | whatever a step wrote to a property, the profile of the preflight before it that nothing ended requires the operation and the property writable, and the last descriptor it kept for that property is writable and holds the value |
| Lzss.ParsePrintTokens | crates/fujicli-dev/src/firmware.rs:272-308 | printed tokens parse back |
| Lzss.PrintParseTokens | crates/fujicli-dev/src/firmware.rs:272-308 | a parsed stream is the print of its tokens |
| Lzss.CopyMatch | crates/fujicli-dev/src/firmware.rs:293-300 | the match loop, its zero-distance shortcut included, is the byte-by-byte overlapping copy |
| Lzss.ZeroCopy | crates/fujicli-dev/src/firmware.rs:293-294 | distance zero emits zeros |
| Lzss.Decompress | crates/fujicli-dev/src/firmware.rs:272-308 | succeeds iff the stream parses into tokens whose expansion fits the budget, and then equals that expansion |
| Lzss.ExpansionBound | crates/fujicli-dev/src/firmware.rs:272-308 | twice the output is at most fifteen times the input |
| Lzss.WindowSuffices | crates/fujicli-dev/src/firmware.rs:267-272 | looking back over the whole output equals a decoder that keeps only a zero-filled 2047-byte history |
| SectionScan.Scan | crates/fujicli-dev/src/firmware.rs:317-352 | the scan succeeds iff the image has a complete scan: sections in order, disjoint, in range, each spelled by the image as a header with its sizes and tokens that expand to it, with no header spelled on the four-byte grid outside them; it returns that one, or names the first header that no spelled section has |
| SectionScan.HeaderIsExact | crates/fujicli-dev/src/firmware.rs:237-265 | a header is found exactly where the image has the little-endian words uncompressed size, stored size, pages, 0x4000 and 4, with 20 < stored < uncompressed, the fewest pages that hold the stored bytes, and the section inside the image |
| SectionScan.ScansAgree | crates/fujicli-dev/src/firmware.rs:317-352 | the scan as the loop sees it and as the bytes spell it are the same |
| SectionScan.NoScanPastBadSection | crates/fujicli-dev/src/firmware.rs:325-340 | where a scan stops because a section cannot be unpacked, the image has no complete scan |
| SectionScan.ScanIsUnique | crates/fujicli-dev/src/firmware.rs:317-352 | that description has at most one solution |
| Surface.MaximalRunsAreDisjoint | crates/fujicli-dev/src/surface.rs:116-120 | maximal runs never overlap |
| Surface.SetSize | crates/fujicli-dev/src/surface.rs:140-142 | the set of codes is as large as the run exactly if no code repeats |
| Surface.Unique | crates/fujicli-dev/src/surface.rs:140-142 | decides that no code repeats |
| Surface.ScanCategory | crates/fujicli-dev/src/surface.rs:113-135 | the index-jumping loop adds exactly the codes of maximal runs that are long enough, terminated, repeat-free and hold a standard code |
| Surface.ListIsExact | crates/fujicli-dev/src/surface.rs:113-135 | a list on its own: at least eight different codes of the category, four for events, one of them standard, after a word of another kind and before a word 0000 or FFFF |
| Surface.CodesByByte | crates/fujicli-dev/src/surface.rs:55-74 | the standard and vendor codes of each category by their two bytes |
| Surface.ListsUpTo | crates/fujicli-dev/src/surface.rs:132-132 | jumping past the end of a run skips no list |
| Surface.PtpSurface.ScanWords | crates/fujicli-dev/src/surface.rs:113-135 | the same for all three categories at once |
| Surface.PtpSurface.Scan | crates/fujicli-dev/src/surface.rs:98-111 | a buffer is scanned at both parities, and nothing already found is lost |
| Surface.ChangesApply | crates/fujicli-dev/src/surface.rs:149-162 | a diff applied to one surface gives the other, both ways, and is empty exactly if they are equal |
| Interrupt.InterruptLatch.RecordInterrupt | src/lib/interrupt.rs:114-120 | adds one up to 255 and returns how many were pending |
| Interrupt.InterruptLatch.TakeInterrupts | src/lib/interrupt.rs:123-125 | recorded equals drained plus pending plus dropped |
| Interrupt.InterruptLatch.AfterTransaction | src/lib/interrupt.rs:146-162 | inside a critical region result and pending count are untouched; outside, a pending interrupt fails the result with the marker, keeping what it carried |
| Interrupt.InterruptLatch.Handle | src/cli/common/interrupt.rs:22-60 | the first interrupt never exits while something defers; an exit is with 3 exactly if a write was sent or is running, otherwise with 130 |
| Interrupt.Process.Honour | src/lib/features/simulation/transaction.rs:519-573 | a transaction or selector scope that ends inside another region leaves result and pending count alone; outside it drains and marks |
| Interrupt.Process.DrainAfterWrite | src/cli/common/interrupt.rs:73-98 | a critical write drains what is pending whether or not it succeeded, and fails if it had succeeded |
| Interrupt.Process.Step | src/cli/common/interrupt.rs:22-98 | the whole new state for each step of a process with both kinds of region nested in any order, signals between dropping a guard and draining included |
| Interrupt.Process.Run | src/lib/interrupt.rs:82-185 | any run takes enabled steps that obey that law; while the process lives, signals equal drained plus pending, at most one is pending and none was dropped |
| Interrupt.PendingWaitsForOwner | src/lib/features/simulation/transaction.rs:559-573 | an interrupt inside an outer region stays pending, and no transaction or selector scope inside it changes its result because of it, until the owner's own end |
| Interrupt.WritesAreNeverHidden | src/lib/interrupt.rs:82-92 | once a mutation other than a simulation access is about to be sent, every later marker and exit says so |
| Interrupt.PendingIsWaiting | src/lib/interrupt.rs:114-125 | over any run of a process that lives, an interrupt is pending iff a signal came with no draining step after it; never more than one |
| Interrupt.SignalExitsExactly | src/cli/common/interrupt.rs:22-60 | over any run, a signal while something defers ends the process iff an earlier signal has no draining step after it, and is otherwise only recorded |
| Interrupt.FirstInterruptIsExact | src/lib/ptp/mod.rs:618-623 | the first signal of a transaction or region that began with nothing deferring ends the process iff a session-control transaction before it ended, with no region open, while a signal waited, and nothing drained since |
| Interrupt.FirstInterruptNeverExits | src/cli/common/interrupt.rs:22-60 | so where no session-control transaction carried one over, that first signal is only recorded |
| Interrupt.CarriedInterruptExits | src/lib/ptp/mod.rs:618-622 | a run in which one is carried over, and the first signal of the next transaction or critical write exits |

## Left out

- libusb, descriptors of the USB device and endpoint selection: a bulk call is an outcome of a script.
- Allocation failure: only the failure to allocate a larger read buffer is modelled.
- Clock overflow: time is unbounded, so the early return at `src/lib/ptp/mod.rs:1362-1363`, which leaves a dispatched command unpoisoned, does not occur.
- `send_until` and `close_session_until` (`src/lib/ptp/mod.rs:560-587`, `src/lib/ptp/mod.rs:697-731`): the same engine with a given expiry, which `Session.PtpSession.Send` takes as a parameter.
- Session-control permits and the camera-processing flag of `session_is_safe_to_close`: single-flag checks.
- The feature-gated probe write (`src/lib/ptp/mod.rs:755-774`): it bypasses permits on purpose, so `Permits.Run` has no such step.
- Permits.PtpGate.RunPreflight: the battery text is already a number, a serial number is known by its digest, and a failed read of any fact is one outcome.
- Permits.Run: transactions are single steps that write one container each; how a container travels is `Session.dfy`.
- Structs.DeviceInfoRoundTrip: error positions and messages of the binary reader are one failure value.
- Interrupt.InterruptLatch.Handle: the handler body is one atomic step, and atomics are sequentially consistent; a transport step between the handler's own loads is not modelled.
- Interrupt.Process.Step: transactions do not overlap and regions begin and end outside them, as the guards are used.
- Surface.PtpSurface.Scan: codes are sets; the order in which a diff prints them is not modelled.
- SectionScan.Scan: the firmware container header, the bitwise NOT of the payload and the digests are not modelled.
- `multiset::hash` (`crates/codegen/src/util/multiset.rs:35-44`): only equality and inclusion are modelled.
- Grammar values: numbers are reals and records are ordered, so that 1 and 1.0 are one literal and reordered records are two, unlike the JSON values of the source; literals are compared with each other only when an alias is matched.
- Grammar comparisons: how two JSON values compare is an arbitrary `Meaning`, so the normal-form laws hold for every comparison; `Alias.ExpansionHolds` assumes only that a value equals itself.
- Token emission for rules and aliases, `schema/inverse.rs`, presence and repair passes, backup, simulation and RAF managers, command line, JSON output: not part of this model.
