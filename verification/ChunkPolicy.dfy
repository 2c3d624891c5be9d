/** The bulk transfer sizes of a session and how measured reads raise the read size. */
module ChunkPolicy {
  import opened Wrappers
  import opened Wire
  import opened Arithmetic
  import opened Container

  const MIB: nat := 1024 * 1024
  const FULL_SPEED_CHUNK_BYTES: nat := 256 * 1024
  const DEFAULT_CHUNK_BYTES: nat := 1024 * 1024
  const PROMOTION_SUCCESSES: nat := 3

  /** Largest usize, u8, u128 and Duration (in nanoseconds) on the 64-bit targets. */
  const USIZE_MAX: nat := 0xFFFF_FFFF_FFFF_FFFF
  const U8_MAX: nat := 255
  const U128_MAX: nat := 0xFFFF_FFFF_FFFF_FFFF_FFFF_FFFF_FFFF_FFFF
  const DURATION_MAX: nat := 0x1_0000_0000_0000_0000 * 1_000_000_000 - 1
  const BULK_TIMEOUT: nat := 10_000_000_000

  type Usize = x: int | 0 <= x <= USIZE_MAX
  type Duration = x: int | 0 <= x <= DURATION_MAX

  datatype Speed = UnknownSpeed | Low | Full | High | Super | SuperPlus

  datatype Direction = Direction(initial: nat, effective: nat, ceiling: nat)

  datatype Promotion = Promotion(oldBytes: nat, newBytes: nat, sampleBytes: nat, sampleDuration: nat)

  function Min(a: nat, b: nat): nat { if a < b then a else b }

  function SaturatingAdd(a: nat, b: nat, max: nat): nat { Min(a + b, max) }

  function AlignDown(bytes: nat, alignment: nat): (r: nat)
    requires alignment != 0
    ensures r <= bytes < r + alignment
    ensures Divides(alignment, r)
  {
    AlignedDown(bytes, alignment);
    bytes - bytes % alignment
  }

  lemma AlignedDown(bytes: nat, alignment: nat)
    requires alignment != 0
    ensures 0 <= bytes % alignment < alignment && bytes % alignment <= bytes
    ensures Divides(alignment, bytes - bytes % alignment)
  {
    var q := bytes / alignment;
    assert bytes == q * alignment + bytes % alignment && q >= 0;
    assert q * alignment >= 0;
    MultipleHasNoRemainder(q, alignment);
  }

  /** Promotion tiers, before alignment. */
  function Tier(i: nat): nat
    requires i < 4
  {
    match i
    case 0 => MIB
    case 1 => 4 * MIB
    case 2 => 8 * MIB
    case _ => 16 * MIB
  }

  /** First aligned tier above the current size from tier `i` on. */
  function FirstTierAbove(current: nat, alignment: nat, i: nat): (r: Option<nat>)
    requires alignment != 0 && i <= 4
    ensures r.Some? ==> r.value > current && Divides(alignment, r.value)
    decreases 4 - i
  {
    if i == 4 then None
    else if AlignDown(Tier(i), alignment) > current then Some(AlignDown(Tier(i), alignment))
    else FirstTierAbove(current, alignment, i + 1)
  }

  function NextReadChunk(current: nat, ceiling: nat, alignment: nat): nat
    requires alignment != 0
  {
    match FirstTierAbove(current, alignment, 0)
    case Some(tier) => Min(tier, ceiling)
    case None => ceiling
  }

  /** How many promotions can still succeed: aligned tiers above the current size, and the
      ceiling. */
  function TiersAbove(current: nat, alignment: nat, i: nat): (n: nat)
    requires alignment != 0 && i <= 4
    ensures n <= 4 - i
    decreases 4 - i
  {
    if i == 4 then 0
    else (if AlignDown(Tier(i), alignment) > current then 1 else 0) + TiersAbove(current, alignment, i + 1)
  }

  function PromotionsLeft(current: nat, ceiling: nat, alignment: nat): (n: nat)
    requires alignment != 0
    ensures n <= 5
  {
    TiersAbove(current, alignment, 0) + if current < ceiling then 1 else 0
  }

  lemma {:induction false} TiersShrink(a: nat, b: nat, alignment: nat, i: nat)
    requires alignment != 0 && i <= 4 && a <= b
    ensures TiersAbove(b, alignment, i) <= TiersAbove(a, alignment, i)
    ensures var t := FirstTierAbove(a, alignment, i);
            t.Some? && t.value <= b ==> TiersAbove(b, alignment, i) < TiersAbove(a, alignment, i)
    decreases 4 - i
  {
    if i < 4 { TiersShrink(a, b, alignment, i + 1); }
  }

  /** Each promotion uses up one of the promotions left, so at most five ever succeed. */
  lemma PromotionUsesOne(current: nat, ceiling: nat, alignment: nat)
    requires alignment != 0 && current < ceiling && Divides(alignment, ceiling)
    ensures var next := NextReadChunk(current, ceiling, alignment);
            && current < next <= ceiling && Divides(alignment, next)
            && PromotionsLeft(next, ceiling, alignment) < PromotionsLeft(current, ceiling, alignment)
  {
    TiersShrink(current, NextReadChunk(current, ceiling, alignment), alignment, 0);
  }

  predicate IsTier(t: nat) { t in {1_048_576, 4_194_304, 8_388_608, 16_777_216} }

  function AlignedTo(bytes: nat, alignment: nat): int
    requires alignment != 0
  {
    bytes - bytes % alignment
  }

  /** The next read size is the least of 1, 4, 8 and 16 MiB, rounded down to whole packets, that
      is above the current size, but never more than the ceiling; with no such tier the ceiling. */
  lemma NextChunkIsExact(current: nat, ceiling: nat, alignment: nat)
    requires alignment != 0
    ensures var next := NextReadChunk(current, ceiling, alignment);
            && ((forall t | IsTier(t) :: AlignedTo(t, alignment) <= current) ==> next == ceiling)
            && forall t | IsTier(t) && AlignedTo(t, alignment) > current
                  && (forall u | IsTier(u) && u < t :: AlignedTo(u, alignment) <= current) ::
                 next == if AlignedTo(t, alignment) <= ceiling then AlignedTo(t, alignment) else ceiling
  {
    assert IsTier(Tier(0)) && IsTier(Tier(1)) && IsTier(Tier(2)) && IsTier(Tier(3));
    assert forall t | IsTier(t) :: t == Tier(0) || t == Tier(1) || t == Tier(2) || t == Tier(3);
    FirstTierIsExact(current, alignment);
    hide FirstTierAbove, AlignDown, AlignedTo;
  }

  lemma FirstTierIsExact(current: nat, alignment: nat)
    requires alignment != 0
    ensures FirstTierAbove(current, alignment, 0) ==
              if AlignedTo(Tier(0), alignment) > current then Some(AlignedTo(Tier(0), alignment))
              else if AlignedTo(Tier(1), alignment) > current then Some(AlignedTo(Tier(1), alignment))
              else if AlignedTo(Tier(2), alignment) > current then Some(AlignedTo(Tier(2), alignment))
              else if AlignedTo(Tier(3), alignment) > current then Some(AlignedTo(Tier(3), alignment))
              else None
  {
    hide Tier;
    forall i | 0 <= i < 4 ensures AlignDown(Tier(i), alignment) == AlignedTo(Tier(i), alignment) {}
    hide AlignDown, AlignedTo;
    assert FirstTierAbove(current, alignment, 4) == None;
    assert FirstTierAbove(current, alignment, 3) ==
      if AlignDown(Tier(3), alignment) > current then Some(AlignDown(Tier(3), alignment)) else None;
    assert FirstTierAbove(current, alignment, 2) ==
      if AlignDown(Tier(2), alignment) > current then Some(AlignDown(Tier(2), alignment)) else FirstTierAbove(current, alignment, 3);
    assert FirstTierAbove(current, alignment, 1) ==
      if AlignDown(Tier(1), alignment) > current then Some(AlignDown(Tier(1), alignment)) else FirstTierAbove(current, alignment, 2);
  }

  /** One new chunk at the sampled rate arrives within the bulk timeout of ten seconds. */
  predicate FitsTimeout(newBytes: nat, duration: nat, bytes: nat) {
    newBytes * duration <= 10_000_000_000 * bytes
  }

  /** The same test on the counters, with 128-bit saturating products. */
  predicate PassesBudget(newBytes: nat, sampleDuration: nat, sampleBytes: nat) {
    var projected := Min(sampleDuration * newBytes, U128_MAX);
    var budget := Min(BULK_TIMEOUT * sampleBytes, U128_MAX);
    projected <= budget
  }

  /** Full reads observed since the last promotion was decided, and their exact totals. */
  datatype Sample = Sample(successes: nat, bytes: nat, duration: nat)

  const NoSample := Sample(0, 0, 0)

  /** A read that says something about the rate: it filled at least one chunk, took time, and
      the chunk could still grow. */
  predicate Counts(effective: nat, ceiling: nat, bytes: nat, duration: nat) {
    effective <= bytes && duration > 0 && effective < ceiling
  }

  /** The third read that counts ends the sample, whatever is decided then. */
  function Observed(s: Sample, effective: nat, ceiling: nat, bytes: nat, duration: nat): Sample {
    if !Counts(effective, ceiling, bytes, duration) then s
    else if s.successes < 2 then Sample(s.successes + 1, s.bytes + bytes, s.duration + duration)
    else NoSample
  }

  /** The third read that counts promotes when the sample passes the budget of the next size. */
  predicate Promotes(s: Sample, effective: nat, ceiling: nat, alignment: nat, bytes: nat, duration: nat)
    requires alignment != 0
  {
    && Counts(effective, ceiling, bytes, duration) && s.successes == 2
    && PassesBudget(NextReadChunk(effective, ceiling, alignment), Min(s.duration + duration, DURATION_MAX), Min(s.bytes + bytes, USIZE_MAX))
  }

  // ---------- the policy of one transport ----------

  function ForDirection(cameraCeiling: nat, conservative: nat, maxPacketSize: nat): (d: Direction)
    requires maxPacketSize != 0
    ensures d.initial == d.effective <= d.ceiling <= cameraCeiling
    ensures Divides(maxPacketSize, d.effective) && Divides(maxPacketSize, d.ceiling)
    ensures d.effective <= conservative
  {
    var ceiling := AlignDown(cameraCeiling, maxPacketSize);
    var effective := AlignDown(Min(conservative, ceiling), maxPacketSize);
    Direction(effective, effective, ceiling)
  }

  function ConservativeBytes(speed: Speed): nat {
    if speed.UnknownSpeed? || speed.Low? || speed.Full? then FULL_SPEED_CHUNK_BYTES else DEFAULT_CHUNK_BYTES
  }

  class Policy {
    var read: Direction
    var write: Direction
    const readMaxPacketSize: nat
    var readSampleBytes: Usize
    var readSampleDuration: Duration
    var readSuccesses: nat

    /** The exact totals of the current sample, which the counters above may only saturate. */
    ghost var trueBytes: nat
    ghost var trueDuration: nat

    ghost predicate Valid()
      reads this
    {
      && readMaxPacketSize != 0
      && HEADER_SIZE < read.initial <= read.effective <= read.ceiling <= USIZE_MAX
      && Divides(readMaxPacketSize, read.initial)
      && Divides(readMaxPacketSize, read.effective)
      && Divides(readMaxPacketSize, read.ceiling)
      && HEADER_SIZE < write.initial == write.effective <= write.ceiling
      && readSuccesses < PROMOTION_SUCCESSES
      && readSampleBytes == Min(trueBytes, USIZE_MAX)
      && readSampleDuration == Min(trueDuration, DURATION_MAX)
    }

    /** With this many promotions behind, at most five can ever succeed. */
    ghost predicate AtMostFive(promotions: nat)
      requires readMaxPacketSize != 0
      reads this
    {
      promotions + PromotionsLeft(read.effective, read.ceiling, readMaxPacketSize) <= 5
    }

    ghost function CurrentSample(): Sample
      reads this
    {
      Sample(readSuccesses, trueBytes, trueDuration)
    }

    /** Requires both directions to hold more than a container header. */
    constructor (read: Direction, write: Direction, readMaxPacketSize: nat)
      requires readMaxPacketSize != 0
      requires HEADER_SIZE < read.initial == read.effective <= read.ceiling <= USIZE_MAX
      requires Divides(readMaxPacketSize, read.effective) && Divides(readMaxPacketSize, read.ceiling)
      requires HEADER_SIZE < write.initial == write.effective <= write.ceiling
      ensures Valid()
      ensures this.read == read && this.write == write && this.readMaxPacketSize == readMaxPacketSize
      ensures CurrentSample() == NoSample
    {
      this.read := read;
      this.write := write;
      this.readMaxPacketSize := readMaxPacketSize;
      readSampleBytes, readSampleDuration, readSuccesses := 0, 0, 0;
      trueBytes, trueDuration := 0, 0;
    }

    method ResetReadSample()
      requires HEADER_SIZE < read.initial <= read.effective <= read.ceiling <= USIZE_MAX
      modifies `readSampleBytes, `readSampleDuration, `readSuccesses, `trueBytes, `trueDuration
      ensures readSampleBytes == 0 && readSampleDuration == 0 && readSuccesses == 0
      ensures trueBytes == 0 && trueDuration == 0
    {
      readSuccesses := 0;
      readSampleBytes := 0;
      readSampleDuration := 0;
      trueBytes, trueDuration := 0, 0;
    }

    /** A promotion strictly grows the read size towards the ceiling, and reading one new chunk
        at the measured rate fits the bulk timeout, whatever the counters saturated at. */
    method ObserveReadOnlySuccess(bytes: Usize, duration: Duration) returns (r: Option<Promotion>)
      requires Valid()
      modifies this
      ensures Valid()
      ensures write == old(write) && read.initial == old(read.initial) && read.ceiling == old(read.ceiling)
      ensures r.Some? <==>
                Promotes(old(CurrentSample()), old(read.effective), read.ceiling, readMaxPacketSize, bytes, duration)
      ensures CurrentSample() == Observed(old(CurrentSample()), old(read.effective), read.ceiling, bytes, duration)
      ensures r.None? ==> read == old(read)
      ensures r.Some? ==>
                && r.value.oldBytes == old(read.effective)
                && r.value.newBytes == read.effective
                && read.effective == NextReadChunk(old(read.effective), read.ceiling, readMaxPacketSize)
                && read.effective > old(read.effective)
                && PromotionsLeft(read.effective, read.ceiling, readMaxPacketSize)
                     < PromotionsLeft(old(read.effective), read.ceiling, readMaxPacketSize)
                && FitsTimeout(read.effective, old(trueDuration) + duration, old(trueBytes) + bytes)
    {
      if bytes < read.effective || duration == 0 || read.effective >= read.ceiling {
        return None;
      }
      readSuccesses := SaturatingAdd(readSuccesses, 1, U8_MAX);
      readSampleBytes := SaturatingAdd(readSampleBytes, bytes, USIZE_MAX);
      readSampleDuration := SaturatingAdd(readSampleDuration, duration, DURATION_MAX);
      trueBytes, trueDuration := trueBytes + bytes, trueDuration + duration;
      if readSuccesses < PROMOTION_SUCCESSES {
        return None;
      }
      var oldBytes := read.effective;
      var newBytes := NextReadChunk(oldBytes, read.ceiling, readMaxPacketSize);
      PromotionUsesOne(oldBytes, read.ceiling, readMaxPacketSize);
      if !PassesBudget(newBytes, readSampleDuration, readSampleBytes) {
        ResetReadSample();
        return None;
      }
      SaturationIsSafe(newBytes, trueBytes, trueDuration);
      r := Some(Promotion(oldBytes, newBytes, readSampleBytes, readSampleDuration));
      read := read.(effective := newBytes);
      ResetReadSample();
    }

    /** The read buffer could not be allocated: the previous size stays in force. */
    method RollBack(p: Promotion)
      requires Valid() && p.newBytes == read.effective
      requires read.initial <= p.oldBytes < p.newBytes && Divides(readMaxPacketSize, p.oldBytes)
      modifies `read
      ensures Valid()
      ensures read == old(read).(effective := p.oldBytes)
    {
      read := read.(effective := p.oldBytes);
    }
  }

  /** Whatever the counters saturated at, the budget test passing means the exact totals pass:
      saturated bytes only make the budget smaller, a saturated duration or a saturated product
      always fails the test. */
  lemma SaturationIsSafe(newBytes: nat, trueBytes: nat, trueDuration: nat)
    requires newBytes > HEADER_SIZE
    requires PassesBudget(newBytes, Min(trueDuration, DURATION_MAX), Min(trueBytes, USIZE_MAX))
    ensures FitsTimeout(newBytes, trueDuration, trueBytes)
  {}

  /** Short of saturation the test is exact: the budget product cannot reach its limit. */
  lemma UnsaturatedBudgetIsExact(newBytes: nat, duration: nat, bytes: nat)
    requires duration * newBytes <= U128_MAX && bytes <= USIZE_MAX
    ensures PassesBudget(newBytes, duration, bytes) <==> FitsTimeout(newBytes, duration, bytes)
  {
    assert BULK_TIMEOUT * bytes <= BULK_TIMEOUT * USIZE_MAX <= U128_MAX;
  }

  /** Whole packets, as many as fit. */
  predicate WholePackets(bytes: nat, packet: nat, upTo: nat)
    requires packet != 0
  {
    Divides(packet, bytes) && bytes <= upTo < bytes + packet
  }

  /** The first size of a transport, before it is cut to whole packets: 256 KiB up to full speed
      and where the speed is unknown, 1 MiB above, and never more than the camera takes. */
  function FirstBytes(cameraCeiling: nat, speed: Speed): nat {
    Min(cameraCeiling, if speed in {UnknownSpeed, Low, Full} then 262_144 else 1_048_576)
  }

  lemma DirectionIsExact(cameraCeiling: nat, speed: Speed, packet: nat)
    requires packet != 0
    ensures var d := ForDirection(cameraCeiling, ConservativeBytes(speed), packet);
            && WholePackets(d.ceiling, packet, cameraCeiling) && d.initial == d.effective
            && WholePackets(d.effective, packet, FirstBytes(cameraCeiling, speed))
  {
    var ceiling := AlignDown(cameraCeiling, packet);
    var conservative := ConservativeBytes(speed);
    if ceiling < conservative {
      AlreadyAligned(ceiling, packet);
    }
  }

  lemma AlreadyAligned(bytes: nat, packet: nat)
    requires packet != 0 && Divides(packet, bytes)
    ensures AlignDown(bytes, packet) == bytes
  {}

  lemma WholeIsAligned(cameraCeiling: nat, speed: Speed, packet: nat)
    requires packet != 0
    ensures var d := ForDirection(cameraCeiling, ConservativeBytes(speed), packet);
            && WholePackets(d.ceiling, packet, cameraCeiling)
            && WholePackets(d.effective, packet, FirstBytes(cameraCeiling, speed))
            && d.effective == AlignedTo(FirstBytes(cameraCeiling, speed), packet)
  {
    DirectionIsExact(cameraCeiling, speed, packet);
    AlignedDown(FirstBytes(cameraCeiling, speed), packet);
    WholePacketsAreUnique(ForDirection(cameraCeiling, ConservativeBytes(speed), packet).effective,
                          AlignedTo(FirstBytes(cameraCeiling, speed), packet), packet, FirstBytes(cameraCeiling, speed));
  }

  lemma WholePacketsAreUnique(a: nat, b: nat, packet: nat, upTo: nat)
    requires packet != 0 && WholePackets(a, packet, upTo) && WholePackets(b, packet, upTo)
    ensures a == b
  {
    var p, q := a / packet, b / packet;
    if p < q { MultiplesAreSpaced(p, q, packet); }
    if q < p { MultiplesAreSpaced(q, p, packet); }
  }

  /** `ChunkPolicy::for_transport`: refuses a zero packet size or a ceiling too small for a
      header. */
  method ForTransport(cameraCeiling: Usize, speed: Speed, inPacket: nat, outPacket: nat)
      returns (policy: Policy?)
    ensures policy == null <==>
              || inPacket == 0 || outPacket == 0
              || AlignedTo(FirstBytes(cameraCeiling, speed), inPacket) <= 12
              || AlignedTo(FirstBytes(cameraCeiling, speed), outPacket) <= 12
    ensures policy != null ==>
              && fresh(policy) && policy.Valid()
              && policy.readMaxPacketSize == inPacket
              && policy.read.initial == policy.read.effective && policy.write.initial == policy.write.effective
              && WholePackets(policy.read.effective, inPacket, FirstBytes(cameraCeiling, speed))
              && WholePackets(policy.write.effective, outPacket, FirstBytes(cameraCeiling, speed))
              && WholePackets(policy.read.ceiling, inPacket, cameraCeiling)
              && WholePackets(policy.write.ceiling, outPacket, cameraCeiling)
              && policy.CurrentSample() == NoSample
  {
    if inPacket == 0 || outPacket == 0 { return null; }
    var conservative := ConservativeBytes(speed);
    var read := ForDirection(cameraCeiling, conservative, inPacket);
    var write := ForDirection(cameraCeiling, conservative, outPacket);
    WholeIsAligned(cameraCeiling, speed, inPacket);
    WholeIsAligned(cameraCeiling, speed, outPacket);
    if read.effective <= HEADER_SIZE || write.effective <= HEADER_SIZE { return null; }
    policy := new Policy(read, write, inPacket);
  }
}
