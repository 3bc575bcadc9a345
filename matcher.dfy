/** The timing-window matcher: `WOLChecker._find_reserve_to_send`. */
module Matcher {
  import Wrappers
  import opened Reservations

  /** Which window a match was found in (the source reports it in its log line). */
  datatype Window = First | Second

  /** The result of one scan: the matched record's position and window, no
      match (`None` in the source), or a TypeError that escapes the scan. */
  datatype Scan = Found(index: nat, window: Window) | NotFound | Raised

  /** A record at which the scan stops: it is due, or it raises. */
  predicate Stops(r: Reservation, now: int, t: Timing) {
    r.startTime.Incomparable? || Due(r, now, t)
  }

  /** No record before position `i` stops the scan. */
  predicate NoStopBefore(rs: seq<Reservation>, i: nat, now: int, t: Timing)
    requires i <= |rs|
  {
    forall j :: 0 <= j < i ==> !Stops(rs[j], now, t)
  }

  /** Moves a found position `n` places to the right. */
  function ShiftBy(s: Scan, n: nat): Scan {
    if s.Found? then Found(s.index + n, s.window) else s
  }

  /** Moves every found position at or after `k` one place to the right,
      as inserting one record at position `k` does. */
  function ShiftFrom(s: Scan, k: nat): Scan {
    if s.Found? && s.index >= k then Found(s.index + 1, s.window) else s
  }

  /** Reference definition of the scan: records in list order; within one
      record the first window before the second; skipped records are passed over. */
  function FirstToSend(rs: seq<Reservation>, now: int, t: Timing): Scan
    decreases |rs|
  {
    if rs == [] then NotFound
    else if rs[0].startTime.Incomparable? then Raised
    else if FirstDue(rs[0], now, t) then Found(0, First)
    else if SecondDue(rs[0], now, t) then Found(0, Second)
    else ShiftBy(FirstToSend(rs[1..], now, t), 1)
  }

  /** The scan as the source runs it: a loop with an early return. */
  method FindReserveToSend(reserves: seq<Reservation>, now: int, t: Timing) returns (s: Scan)
    ensures s == FirstToSend(reserves, now, t)
  {
    var i := 0;
    while i < |reserves|
      invariant 0 <= i <= |reserves|
      invariant FirstToSend(reserves, now, t) == ShiftBy(FirstToSend(reserves[i..], now, t), i)
    {
      assert reserves[i..][0] == reserves[i];
      assert reserves[i..][1..] == reserves[i + 1..];
      var r := reserves[i];
      match r.startTime {
        case Incomparable =>
          return Raised;
        case At(start) =>
          if InFirstWindow(t, start, now) {
            if !IsSent(r.sentFirst) {
              return Found(i, First);
            }
          }
          if InSecondWindow(t, start, now) {
            if !IsSent(r.sentSecond) {
              return Found(i, Second);
            }
          }
        case _ =>
      }
      i := i + 1;
    }
    return NotFound;
  }

  /** A match is due in the window it names, the first window wins within a
      record, and every earlier record neither is due nor raises. */
  lemma {:induction false} FoundIsFirstDue(rs: seq<Reservation>, now: int, t: Timing)
    requires FirstToSend(rs, now, t).Found?
    ensures var m := FirstToSend(rs, now, t);
      && m.index < |rs|
      && (m.window == First ==> FirstDue(rs[m.index], now, t))
      && (m.window == Second ==> SecondDue(rs[m.index], now, t) && !FirstDue(rs[m.index], now, t))
      && NoStopBefore(rs, m.index, now, t)
  {
    if !FirstDue(rs[0], now, t) && !SecondDue(rs[0], now, t) {
      FoundIsFirstDue(rs[1..], now, t);
    }
  }

  /** Conversely, the first record at which the scan stops, when it is due,
      is the one returned: first in list order, not the closest to `now`. */
  lemma {:induction false} FirstDueIsFound(rs: seq<Reservation>, now: int, t: Timing, i: nat)
    requires i < |rs| && Due(rs[i], now, t)
    requires NoStopBefore(rs, i, now, t)
    ensures FirstToSend(rs, now, t) == Found(i, if FirstDue(rs[i], now, t) then First else Second)
  {
    if i > 0 {
      assert !Stops(rs[0], now, t);
      FirstDueIsFound(rs[1..], now, t, i - 1);
    }
  }

  /** The scan finds nothing exactly when no record is due and none raises. */
  lemma {:induction false} NotFoundIff(rs: seq<Reservation>, now: int, t: Timing)
    ensures FirstToSend(rs, now, t) == NotFound <==> forall j :: 0 <= j < |rs| ==> !Stops(rs[j], now, t)
  {
    if rs != [] {
      NotFoundIff(rs[1..], now, t);
      assert forall j :: 1 <= j < |rs| ==> rs[j] == rs[1..][j - 1];
    }
  }

  /** The scan raises exactly when the first record at which it stops raises. */
  lemma {:induction false} RaisedIff(rs: seq<Reservation>, now: int, t: Timing)
    ensures FirstToSend(rs, now, t) == Raised <==>
      exists i :: 0 <= i < |rs| && rs[i].startTime.Incomparable? && NoStopBefore(rs, i, now, t)
  {
    if rs != [] {
      RaisedIff(rs[1..], now, t);
      if rs[0].startTime.Incomparable? {
        assert NoStopBefore(rs, 0, now, t);
      } else if !Due(rs[0], now, t) {
        if FirstToSend(rs[1..], now, t) == Raised {
          var i :| 0 <= i < |rs[1..]| && rs[1..][i].startTime.Incomparable? && NoStopBefore(rs[1..], i, now, t);
          assert rs[i + 1].startTime.Incomparable? && NoStopBefore(rs, i + 1, now, t);
        }
        if exists i :: 0 <= i < |rs| && rs[i].startTime.Incomparable? && NoStopBefore(rs, i, now, t) {
          var i :| 0 <= i < |rs| && rs[i].startTime.Incomparable? && NoStopBefore(rs, i, now, t);
          assert i > 0;
          assert rs[1..][i - 1].startTime.Incomparable? && NoStopBefore(rs[1..], i - 1, now, t);
        }
      }
    }
  }

  /** A record with a missing or unparsable start time never blocks the
      records after it: inserting one anywhere only shifts the positions. */
  lemma {:induction false} SkippedNeverBlocks(rs: seq<Reservation>, k: nat, bad: Reservation, now: int, t: Timing)
    requires k <= |rs| && Skipped(bad)
    ensures FirstToSend(rs[..k] + [bad] + rs[k..], now, t) == ShiftFrom(FirstToSend(rs, now, t), k)
  {
    var ins := rs[..k] + [bad] + rs[k..];
    if k == 0 {
      assert ins[0] == bad && ins[1..] == rs;
    } else {
      assert ins[0] == rs[0];
      assert ins[1..] == rs[1..][..k - 1] + [bad] + rs[1..][k - 1..];
      SkippedNeverBlocks(rs[1..], k - 1, bad, now, t);
    }
  }

  /** Two due records A then B: A is returned whatever their start times. */
  lemma FirstMatchWins(a: Reservation, b: Reservation, now: int, t: Timing)
    requires Due(a, now, t) && Due(b, now, t)
    ensures FirstToSend([a, b], now, t).Found? && FirstToSend([a, b], now, t).index == 0
  {
  }

  /** Window ends are inclusive: with first_minutes = 30, 25.0 minutes before
      start matches, 24.9 does not, 32.0 matches, 32.1 does not, and 27 with the
      flag set does not. */
  lemma FirstWindowBoundaries(now: int)
    ensures var t := Timing(30, 5);
      && InFirstWindow(t, now + 25 * MicrosPerMinute, now)
      && !InFirstWindow(t, now + 24 * MicrosPerMinute + 54_000_000, now)
      && InFirstWindow(t, now + 32 * MicrosPerMinute, now)
      && !InFirstWindow(t, now + 32 * MicrosPerMinute + 6_000_000, now)
      && !FirstDue(Reservation(Wrappers.None, At(now + 27 * MicrosPerMinute), Wrappers.Some(true), Wrappers.None, map[]), now, t)
  {
  }
}
