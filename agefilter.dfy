/** The age test of the timeline walker: a tweet is old when its timestamp is
    strictly before `time.Now().Add(-time.Duration(MaxAge) * time.Hour)`.

    Go's `time.Time` is modelled as an exact integer count of nanoseconds since
    Go's zero Time (January 1, year 1, 00:00:00 UTC), so the zero Time is 0 and
    `Before` is `<`. A `time.Duration` is an int64 count of nanoseconds, and the
    conversion, negation and multiplication that build the duration wrap around
    as Go's int64 arithmetic does. */
module AgeFilter {
  import opened GoTypes

  /** `time.Hour` in nanoseconds. */
  const Hour: int := 3_600_000_000_000

  /** The largest MaxAge (in hours) whose duration in nanoseconds fits in int64. */
  const MaxAgeNoWrap: int := 2_562_047

  /** `-time.Duration(maxAge) * time.Hour`: the negation binds first, and both
      the negation and the product wrap around in int64. */
  function AgeOffset(maxAge: int64): (d: int64)
    ensures -MaxAgeNoWrap <= maxAge <= MaxAgeNoWrap ==> d == -maxAge * Hour
  {
    Wrap64(Wrap64(-(maxAge as int)) * Hour)
  }

  /** `now.Add(AgeOffset(maxAge))`: the instant before which a tweet is old. */
  function Cutoff(now: int, maxAge: int64): (c: int)
    ensures -MaxAgeNoWrap <= maxAge <= MaxAgeNoWrap ==> c == now - maxAge * Hour
  {
    now + AgeOffset(maxAge)
  }

  /** `ts.Before(time.Now().Add(-time.Duration(maxAge) * time.Hour))`. */
  predicate Expired(ts: int, now: int, maxAge: int64)
  {
    ts < Cutoff(now, maxAge)
  }

  /** The timestamp the walker compares: the parsed `CreatedAt`, or Go's zero
      Time when `time.Parse` failed (the error is only logged). */
  function TimestampOrZero(parsed: Option<int>): int
  {
    match parsed
    case Some(t) => t
    case None => 0
  }

  /** For every MaxAge whose duration does not wrap, a tweet is old exactly when
      it is strictly more than MaxAge hours older than `now`; a tweet exactly
      MaxAge hours old is kept. */
  lemma ExpiredIff(ts: int, now: int, maxAge: int64)
    requires -MaxAgeNoWrap <= maxAge <= MaxAgeNoWrap
    ensures Expired(ts, now, maxAge) <==> ts < now - maxAge * Hour
    ensures !Expired(now - maxAge * Hour, now, maxAge)
  {
    assert AgeOffset(maxAge) == -maxAge * Hour;
  }

  /** A larger MaxAge never makes more tweets old, as long as neither wraps. */
  lemma ExpiredAntitone(ts: int, now: int, a: int64, b: int64)
    requires -MaxAgeNoWrap <= a <= b <= MaxAgeNoWrap
    ensures Expired(ts, now, b) ==> Expired(ts, now, a)
  {
    ExpiredIff(ts, now, a);
    ExpiredIff(ts, now, b);
  }

  /** One hour more than MaxAgeNoWrap wraps the duration round to about +292
      years, so the cutoff lies in the future and every tweet created up to
      292 years after `now` counts as old. */
  lemma HugeMaxAgeWraps(ts: int, now: int)
    requires ts <= now + 9_000_000_000_000_000_000
    ensures AgeOffset(MaxAgeNoWrap + 1) == 9_223_371_273_709_551_616
    ensures Expired(ts, now, MaxAgeNoWrap + 1)
  {
    var neg := Wrap64(-(MaxAgeNoWrap + 1));
    assert neg == -2_562_048;
    assert neg * Hour == -9_223_372_800_000_000_000;
    assert Wrap64(neg * Hour) == 9_223_371_273_709_551_616;
  }

  /** A tweet whose `CreatedAt` does not parse is compared as the zero Time and
      so is old whenever the cutoff lies after year 1. */
  lemma UnparsableTimestampExpired(now: int, maxAge: int64)
    requires Cutoff(now, maxAge) > 0
    ensures Expired(TimestampOrZero(None), now, maxAge)
  {
  }

  /** For every MaxAge, the offset is the exact product `-MaxAge` hours
      wrapped into int64 once: wrapping the negation first changes nothing. */
  lemma AgeOffsetIsWrappedProduct(maxAge: int64)
    ensures AgeOffset(maxAge) == Wrap64(-(maxAge as int) * Hour)
  {
    var neg := Wrap64(-(maxAge as int));
    var k := (-(maxAge as int) - neg) / TwoTo64;
    assert -(maxAge as int) == neg + k * TwoTo64;
    assert -(maxAge as int) * Hour == neg * Hour + (k * Hour) * TwoTo64;
    var a := Wrap64(neg * Hour);
    var b := Wrap64(-(maxAge as int) * Hour);
    var ka := (neg * Hour - a) / TwoTo64;
    var kb := (-(maxAge as int) * Hour - b) / TwoTo64;
    assert neg * Hour - a == ka * TwoTo64;
    assert -(maxAge as int) * Hour - b == kb * TwoTo64;
    assert a - b == (kb - ka - k * Hour) * TwoTo64;
    Wrap64Unique(a, b, kb - ka - k * Hour);
  }
}
