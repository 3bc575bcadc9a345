/** The freshness gate: `WOLChecker._check_cache_freshness`. */
module Freshness {
  import opened Wrappers
  import opened Reservations

  const MicrosPerHour: int := 3_600_000_000

  /** Fresh iff `now - last_updated` is at most `max_age_hours`: the source's
      `age > timedelta(hours=max_age_hours)` is strict, so an age equal to the
      limit is fresh. A missing or unparsable `last_updated` is not fresh; one
      that cannot be compared with the clock raises TypeError. */
  function CheckCacheFreshness(lastUpdated: Stamp, maxAgeHours: int, now: int): (r: Outcome<bool>)
    ensures r == Returned(true) <==> lastUpdated.At? && now - lastUpdated.micros <= maxAgeHours * MicrosPerHour
    ensures r == Raised <==> lastUpdated.Incomparable?
  {
    match lastUpdated
    case Absent => Returned(false)
    case Malformed => Returned(false)
    case Incomparable => Raised
    case At(updated) =>
      var age := now - updated;
      if age > maxAgeHours * MicrosPerHour then Returned(false) else Returned(true)
  }

  /** A snapshot found fresh at some instant was fresh at every earlier one,
      and stays fresh under a larger age limit. */
  lemma FreshnessMonotone(lastUpdated: Stamp, maxAgeHours: int, now: int, earlier: int, larger: int)
    requires CheckCacheFreshness(lastUpdated, maxAgeHours, now) == Returned(true)
    requires earlier <= now && maxAgeHours <= larger
    ensures CheckCacheFreshness(lastUpdated, maxAgeHours, earlier) == Returned(true)
    ensures CheckCacheFreshness(lastUpdated, larger, now) == Returned(true)
  {
    assert maxAgeHours * MicrosPerHour <= larger * MicrosPerHour;
  }

  /** With a one-hour limit: updated 61 minutes ago is stale, 59 minutes ago
      and exactly 60 minutes ago are fresh. */
  lemma OneHourLimit(now: int)
    ensures CheckCacheFreshness(At(now - 61 * MicrosPerMinute), 1, now) == Returned(false)
    ensures CheckCacheFreshness(At(now - 59 * MicrosPerMinute), 1, now) == Returned(true)
    ensures CheckCacheFreshness(At(now - 60 * MicrosPerMinute), 1, now) == Returned(true)
  {
  }
}
