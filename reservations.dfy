/** Reservations as the cached snapshot stores them, and the two wake windows
    of scripts/check_and_wol.py that both the matcher and the flag updater test. */
module Reservations {
  import opened Wrappers

  /** Timestamps are microseconds, the resolution of Python's datetime. */
  const MicrosPerMinute: int := 60_000_000

  /** What reading and parsing one timestamp field of the snapshot yields. */
  datatype Stamp =
    | Absent          // the key is missing: KeyError
    | Malformed       // datetime.fromisoformat rejects the text: ValueError
    | At(micros: int) // a naive local timestamp
    | Incomparable    // TypeError: the value is not a string, or it carries a
                      // UTC offset and cannot be subtracted from the naive clock

  /** One entry of the snapshot's "reserves" list. `extra` holds every other
      key of the JSON object with its value's JSON text. A missing flag key is None. */
  datatype Reservation = Reservation(
    programName: Option<string>,
    startTime: Stamp,
    sentFirst: Option<bool>,
    sentSecond: Option<bool>,
    extra: map<string, string>)

  /** The `wol_timing` section of the configuration, in minutes before start. */
  datatype Timing = Timing(firstMinutes: int, secondMinutes: int)

  /** `reserve.get(flag, False)` is truthy: only a stored `true` counts as sent. */
  predicate IsSent(flag: Option<bool>) {
    flag == Some(true)
  }

  /** first_minutes - 5 <= (start - now) / 60 s <= first_minutes + 2, both ends inclusive. */
  predicate InFirstWindow(t: Timing, start: int, now: int) {
    (t.firstMinutes - 5) * MicrosPerMinute <= start - now <= (t.firstMinutes + 2) * MicrosPerMinute
  }

  /** second_minutes - 2 <= (start - now) / 60 s <= second_minutes + 2, both ends inclusive. */
  predicate InSecondWindow(t: Timing, start: int, now: int) {
    (t.secondMinutes - 2) * MicrosPerMinute <= start - now <= (t.secondMinutes + 2) * MicrosPerMinute
  }

  /** The first window is open for `r` at `now` and its flag is not yet set. */
  predicate FirstDue(r: Reservation, now: int, t: Timing) {
    r.startTime.At? && InFirstWindow(t, r.startTime.micros, now) && !IsSent(r.sentFirst)
  }

  /** The second window is open for `r` at `now` and its flag is not yet set. */
  predicate SecondDue(r: Reservation, now: int, t: Timing) {
    r.startTime.At? && InSecondWindow(t, r.startTime.micros, now) && !IsSent(r.sentSecond)
  }

  predicate Due(r: Reservation, now: int, t: Timing) {
    FirstDue(r, now, t) || SecondDue(r, now, t)
  }

  /** A record whose start time is missing or unparsable: logged and skipped. */
  predicate Skipped(r: Reservation) {
    r.startTime.Absent? || r.startTime.Malformed?
  }
}
