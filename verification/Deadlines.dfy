/** Nested deadlines: an idle expiry that progress moves forward, never past the hard expiry
    that every phase of one transaction shares. */
module Deadlines {
  import opened Wrappers
  import opened Wire
  import opened UsbLink

  datatype Kind = Idle | Hard

  datatype Timeout = Allowed(d: Duration) | Exceeded(phase: Phase, kind: Kind)

  function AllowanceOf(progressTimeout: Option<Duration>, hardExpiresAt: Instant): Duration {
    match progressTimeout
    case Some(p) => p
    case None => hardExpiresAt
  }

  class Deadline {
    const link: Link
    var expiresAt: Instant
    const hardExpiresAt: Instant
    const progressTimeout: Option<Duration>
    const phase: Phase

    ghost predicate Valid()
      reads this, link
    {
      && expiresAt <= hardExpiresAt && expiresAt <= link.now + InForce().pace.allowance
      && (progressTimeout.None? ==> expiresAt == hardExpiresAt)
    }

    /** What calls made now are due to; without an idle allowance only the hard expiry counts. */
    function InForce(): Due
      reads this
    {
      Due(expiresAt, hardExpiresAt, Pace(phase, AllowanceOf(progressTimeout, hardExpiresAt)))
    }

    constructor (link: Link, expiresAt: Instant, hardExpiresAt: Instant,
                 progressTimeout: Option<Duration>, phase: Phase)
      requires expiresAt <= hardExpiresAt && expiresAt <= link.now + AllowanceOf(progressTimeout, hardExpiresAt)
      requires progressTimeout.None? ==> expiresAt == hardExpiresAt
      ensures Valid() && fresh(this)
      ensures this.link == link && this.expiresAt == expiresAt && this.hardExpiresAt == hardExpiresAt
      ensures this.progressTimeout == progressTimeout && this.phase == phase
    {
      this.link, this.expiresAt, this.hardExpiresAt := link, expiresAt, hardExpiresAt;
      this.progressTimeout, this.phase := progressTimeout, phase;
    }

    /** Progress restarts the idle allowance from now, capped by the hard expiry. */
    method RecordProgress()
      requires Valid() && link.Valid()
      modifies `expiresAt, link`now, link`step
      ensures Valid() && link.Valid() && link.now >= old(link.now)
      ensures match progressTimeout
              case None => expiresAt == old(expiresAt)
              case Some(p) => expiresAt == Earlier(link.now + p, hardExpiresAt)
      ensures Fresh(link.calls, InForce())
    {
      if progressTimeout.None? { return; }
      var now := link.Now();
      expiresAt := Earlier(now + progressTimeout.value, hardExpiresAt);
    }

    /** The timeout for the next bulk call, or which expiry is less than a millisecond away. */
    method IoTimeout() returns (r: Timeout)
      requires Valid() && link.Valid()
      modifies link`now, link`step
      ensures Valid() && link.Valid() && link.now >= old(link.now)
      ensures match r
              case Allowed(d) =>
                && 1_000_000 <= d <= 10_000_000_000 && link.now + d <= expiresAt
                && (d < 10_000_000_000 ==> link.now + d == expiresAt)
              case Exceeded(ph, Hard) => ph == phase && hardExpiresAt < link.now + 1_000_000
              case Exceeded(ph, Idle) =>
                ph == phase && expiresAt < link.now + 1_000_000 <= hardExpiresAt
    {
      var now := link.Now();
      var hardRemaining := SaturatingSince(hardExpiresAt, now);
      if hardRemaining < MIN_PTP_BULK_TIMEOUT { return Exceeded(phase, Hard); }
      var remaining := SaturatingSince(expiresAt, now);
      if remaining < MIN_PTP_BULK_TIMEOUT { return Exceeded(phase, Idle); }
      return Allowed(if remaining < PTP_BULK_TIMEOUT then remaining else PTP_BULK_TIMEOUT);
    }
  }

  function PaceOf(deadline: Deadline): Pace {
    Pace(deadline.phase, AllowanceOf(deadline.progressTimeout, deadline.hardExpiresAt))
  }

  /** The terms of calls made under this deadline alone. */
  function TermsOf(deadline: Deadline): Terms { Terms(deadline.hardExpiresAt, {PaceOf(deadline)}) }

  function SaturatingSince(t: Instant, now: Instant): Duration {
    if t <= now then 0 else t - now
  }

  /** A phase of the transaction: a fresh idle allowance under the same hard expiry. */
  method StartPhase(link: Link, hardExpiresAt: Instant, phase: Phase, idleTimeout: Duration)
      returns (d: Deadline)
    requires link.Valid()
    modifies link`now, link`step
    ensures link.Valid() && link.now >= old(link.now)
    ensures fresh(d) && d.Valid() && d.link == link && d.hardExpiresAt == hardExpiresAt
    ensures d.progressTimeout == Some(idleTimeout) && d.phase == phase
    ensures d.expiresAt == Earlier(link.now + idleTimeout, hardExpiresAt)
    ensures Fresh(link.calls, d.InForce())
  {
    var now := link.Now();
    d := new Deadline(link, Earlier(now + idleTimeout, hardExpiresAt), hardExpiresAt, Some(idleTimeout), phase);
  }
}
