/** The decision flow of `WOLChecker.check_and_send` and `_send_wol`, and the
    exit status of `main`, in scripts/check_and_wol.py. */
module Orchestrator {
  import opened Wrappers
  import opened Reservations
  import Matcher
  import FlagUpdater
  import Freshness
  import MagicPacket

  /** The configuration keys the flow reads. */
  datatype Config = Config(macAddress: string, timing: Timing, maxAgeHours: int)

  /** The three readings of the clock a run takes: in the freshness gate, in
      the matcher and in the flag updater. */
  datatype Clock = Clock(freshnessNow: int, matchNow: int, markNow: int)

  /** The JSON object loaded from the cache file; its "reserves" list is
      updated in place by the flag updater. */
  datatype CacheData = CacheData(lastUpdated: Stamp, reserves: Option<array<Reservation>>)

  /** The same object as a value. */
  datatype Snapshot = Snapshot(lastUpdated: Stamp, reserves: Option<seq<Reservation>>)

  /** How the `send_wol.py` subprocess ended: it ran to the end with its
      socket calls succeeding or not, it exceeded the 5-second timeout, or it
      could not be started. */
  datatype SendOutcome = Finished(socketOk: bool) | TimedOut | SpawnFailed

  /** What the flow decides before any packet is sent: finish with a result,
      or send for the matched reservation. */
  datatype Decision = Finish(success: bool) | Send(index: nat, window: Matcher.Window)

  function Footprint(cache: Option<CacheData>): set<object> {
    if cache.Some? && cache.value.reserves.Some? then {cache.value.reserves.value} else {}
  }

  function View(cache: Option<CacheData>): Option<Snapshot>
    reads Footprint(cache)
  {
    match cache
    case None => None
    case Some(c) =>
      Some(Snapshot(c.lastUpdated, if c.reserves.Some? then Some(c.reserves.value[..]) else None))
  }

  /** An empty JSON object is falsy, and `if not cache_data` treats it like a
      missing cache. */
  predicate IsEmpty(s: Snapshot) {
    s.lastUpdated.Absent? && s.reserves.None?
  }

  /** The snapshot is loaded, non-empty and passes the freshness gate. */
  predicate Trusted(config: Config, cache: Option<Snapshot>, clock: Clock) {
    && cache.Some? && !IsEmpty(cache.value)
    && Freshness.CheckCacheFreshness(cache.value.lastUpdated, config.maxAgeHours, clock.freshnessNow) == Returned(true)
  }

  /** The decision, with the matched reservation's log line reading its
      program name with a default (see `DecideAsWritten`). A send is decided
      only when the machine is down, the snapshot is trusted, and the
      reservation is the first in list order at which the scan stops, due in
      the window named; the run succeeds without sending exactly when the
      machine is up or a trusted snapshot has nothing due and nothing that raises. */
  function Decide(config: Config, alive: bool, cache: Option<Snapshot>, clock: Clock): (d: Decision)
    ensures alive ==> d == Finish(true)
    ensures d.Send? ==>
      && !alive && Trusted(config, cache, clock) && cache.value.reserves.Some?
      && var rs := cache.value.reserves.value;
      && d.index < |rs|
      && Matcher.NoStopBefore(rs, d.index, clock.matchNow, config.timing)
      && (d.window == Matcher.First ==> FirstDue(rs[d.index], clock.matchNow, config.timing))
      && (d.window == Matcher.Second ==>
            SecondDue(rs[d.index], clock.matchNow, config.timing) && !FirstDue(rs[d.index], clock.matchNow, config.timing))
    ensures d == Finish(true) <==> (alive ||
      (Trusted(config, cache, clock) && cache.value.reserves.Some? &&
       forall j :: 0 <= j < |cache.value.reserves.value| ==>
         !Matcher.Stops(cache.value.reserves.value[j], clock.matchNow, config.timing)))
  {
    if alive then Finish(true)
    else if cache.None? || IsEmpty(cache.value) then Finish(false)
    else
      match Freshness.CheckCacheFreshness(cache.value.lastUpdated, config.maxAgeHours, clock.freshnessNow)
      case Raised => Finish(false)
      case Returned(isFresh) =>
        if !isFresh then Finish(false)
        else if cache.value.reserves.None? then Finish(false)
        else
          var rs := cache.value.reserves.value;
          Matcher.NotFoundIff(rs, clock.matchNow, config.timing);
          match Matcher.FirstToSend(rs, clock.matchNow, config.timing)
          case Raised => Finish(false)
          case NotFound => Finish(true)
          case Found(i, w) =>
            Matcher.FoundIsFirstDue(rs, clock.matchNow, config.timing);
            Send(i, w)
  }

  /** The decision as written: the log line after a match reads
      `reserve_to_send['program_name']`, which raises KeyError for a
      reservation without a program name; the handler around the whole flow
      turns that into a failed run, and no packet is sent. */
  function DecideAsWritten(config: Config, alive: bool, cache: Option<Snapshot>, clock: Clock): (d: Decision)
    ensures d.Send? ==> d == Decide(config, alive, cache, clock)
    ensures d != Decide(config, alive, cache, clock) ==> d == Finish(false)
    ensures var corrected := Decide(config, alive, cache, clock);
      d != corrected <==> corrected.Send? && cache.value.reserves.value[corrected.index].programName.None?
  {
    var d := Decide(config, alive, cache, clock);
    if d.Send? && cache.value.reserves.value[d.index].programName.None? then Finish(false) else d
  }

  /** `_send_wol` succeeds exactly when the subprocess ran to the end and
      exited with status 0: the address parsed and the socket calls succeeded. */
  function SendSucceeded(config: Config, send: SendOutcome): (ok: bool)
    ensures ok <==> send.Finished? && MagicPacket.ParseMac(config.macAddress).Ok? && send.socketOk
  {
    match send
    case Finished(socketOk) =>
      MagicPacket.ScriptExitCode(MagicPacket.ScriptArgs(Some(config.macAddress), None, None), socketOk) == 0
    case TimedOut => false
    case SpawnFailed => false
  }

  /** `_send_wol`: run the sender, and only after a zero exit status mark the
      flags and save. A failed or timed-out send returns false and leaves the
      reservations as they were. */
  method SendWolAndMark(config: Config, reserves: array<Reservation>, markNow: int, send: SendOutcome)
    returns (success: bool, saved: bool)
    modifies reserves
    ensures success == SendSucceeded(config, send)
    ensures success ==> (reserves[..] == FlagUpdater.MarkAll(old(reserves[..]), markNow, config.timing)
      && saved == FlagUpdater.Completes(old(reserves[..])))
    ensures !success ==> reserves[..] == old(reserves[..]) && !saved
  {
    if !SendSucceeded(config, send) {
      return false, false;
    }
    var updatedCount;
    updatedCount, saved := FlagUpdater.MarkWolSent(reserves, markNow, config.timing);
    success := true;
  }

  /** `check_and_send`. Returns the run's result, whether a send was attempted
      (at most one per run, however many flags get set) and whether the
      snapshot was saved. `alive` is the liveness probe's answer. */
  method CheckAndSend(config: Config, alive: bool, cache: Option<CacheData>, clock: Clock, send: SendOutcome)
    returns (success: bool, attempted: bool, saved: bool)
    modifies Footprint(cache)
    ensures var d := Decide(config, alive, old(View(cache)), clock);
      && (d.Finish? ==> success == d.success && !attempted && !saved && View(cache) == old(View(cache)))
      && (d.Send? ==> attempted && success == SendSucceeded(config, send))
      && (d.Send? && success ==>
            View(cache) == Some(Snapshot(cache.value.lastUpdated,
              Some(FlagUpdater.MarkAll(old(View(cache)).value.reserves.value, clock.markNow, config.timing))))
            && saved == FlagUpdater.Completes(old(View(cache)).value.reserves.value))
      && (d.Send? && !success ==> View(cache) == old(View(cache)) && !saved)
  {
    attempted, saved := false, false;
    if alive {
      return true, false, false;
    }
    if cache.None? {
      return false, false, false;
    }
    var data := cache.value;
    if data.lastUpdated.Absent? && data.reserves.None? {
      return false, false, false;
    }
    var freshness := Freshness.CheckCacheFreshness(data.lastUpdated, config.maxAgeHours, clock.freshnessNow);
    if freshness.Raised? || !freshness.value {
      return false, false, false;
    }
    if data.reserves.None? {
      return false, false, false;
    }
    var reserves := data.reserves.value;
    var found := Matcher.FindReserveToSend(reserves[..], clock.matchNow, config.timing);
    match found {
      case Raised =>
        return false, false, false;
      case NotFound =>
        return true, false, false;
      case Found(i, w) =>
        attempted := true;
        success, saved := SendWolAndMark(config, reserves, clock.markNow, send);
    }
  }

  /** How `main` ends: `check_and_send` returned, reading the configuration
      failed (`_load_config` calls `sys.exit(1)`, which `except Exception`
      does not catch), or another exception escaped the checker. */
  datatype RunEnd = Checked(success: bool) | ConfigUnreadable | Crashed

  /** The process exit status: 0 only for a successful check, 2 only for an
      exception caught in `main`, 1 otherwise. */
  function ExitCode(end: RunEnd): (code: int)
    ensures code == 0 || code == 1 || code == 2
    ensures code == 0 <==> end == Checked(true)
    ensures code == 2 <==> end.Crashed?
  {
    match end
    case Checked(success) => if success then 0 else 1
    case ConfigUnreadable => 1
    case Crashed => 2
  }

  /** With the configured address not parsable, the sender always fails, so
      no flag is ever marked and the run reports failure. */
  lemma InvalidMacNeverMarks(config: Config, send: SendOutcome)
    requires MagicPacket.ParseMac(config.macAddress).Err?
    ensures !SendSucceeded(config, send)
  {
  }

  /** After a run that sent and saved, a later run whose matcher reads the
      clock at the updater's instant finds nothing to send for the same
      reservations, provided the snapshot is still trusted. */
  lemma {:induction false} SecondRunSendsNothing(config: Config, lastUpdated: Stamp, rs: seq<Reservation>, clock: Clock, next: Clock)
    requires FlagUpdater.Completes(rs)
    requires next.matchNow == clock.markNow
    requires Trusted(config, Some(Snapshot(lastUpdated, Some(rs))), next)
    ensures Decide(config, false, Some(Snapshot(lastUpdated, Some(FlagUpdater.MarkAll(rs, clock.markNow, config.timing)))), next) == Finish(true)
  {
    FlagUpdater.NothingDueAfterMark(rs, clock.markNow, config.timing);
  }

  /** Batch marking: two reservations due at the same instant lead to one send,
      for the first of them, and every due window of both gets its flag. */
  lemma BatchMarking(config: Config, lastUpdated: Stamp, a: Reservation, b: Reservation, clock: Clock)
    requires Trusted(config, Some(Snapshot(lastUpdated, Some([a, b]))), clock)
    requires clock.markNow == clock.matchNow
    requires Due(a, clock.matchNow, config.timing) && Due(b, clock.matchNow, config.timing)
    ensures Decide(config, false, Some(Snapshot(lastUpdated, Some([a, b]))), clock)
      == Send(0, if FirstDue(a, clock.matchNow, config.timing) then Matcher.First else Matcher.Second)
    ensures var marked := FlagUpdater.MarkAll([a, b], clock.markNow, config.timing);
      && |marked| == 2
      && (FirstDue(a, clock.markNow, config.timing) ==> IsSent(marked[0].sentFirst))
      && (SecondDue(a, clock.markNow, config.timing) ==> IsSent(marked[0].sentSecond))
      && (FirstDue(b, clock.markNow, config.timing) ==> IsSent(marked[1].sentFirst))
      && (SecondDue(b, clock.markNow, config.timing) ==> IsSent(marked[1].sentSecond))
  {
    Matcher.FirstDueIsFound([a, b], clock.matchNow, config.timing, 0);
    FlagUpdater.MarkAllCoversDue([a, b], clock.markNow, config.timing, 0);
    FlagUpdater.MarkAllCoversDue([a, b], clock.markNow, config.timing, 1);
  }

  /** The corrected flow always sends for a due reservation that nothing before
      it blocks, whether or not it has a program name. */
  lemma DueReservationIsSent(config: Config, lastUpdated: Stamp, rs: seq<Reservation>, clock: Clock, i: nat)
    requires Trusted(config, Some(Snapshot(lastUpdated, Some(rs))), clock)
    requires i < |rs| && Due(rs[i], clock.matchNow, config.timing)
    requires Matcher.NoStopBefore(rs, i, clock.matchNow, config.timing)
    ensures Decide(config, false, Some(Snapshot(lastUpdated, Some(rs))), clock).Send?
    ensures Decide(config, false, Some(Snapshot(lastUpdated, Some(rs))), clock).index == i
  {
    Matcher.FirstDueIsFound(rs, clock.matchNow, config.timing, i);
  }

  /** As written, a fresh snapshot holding one reservation without a program
      name, 27 minutes before its start with first_minutes = 30, makes the run
      fail and send nothing, where the corrected flow sends. */
  lemma UnnamedReservationNeverWakes(now: int)
    ensures var config := Config("AA:BB:CC:DD:EE:FF", Timing(30, 5), 1);
      var r := Reservation(None, At(now + 27 * MicrosPerMinute), None, None, map[]);
      var cache := Some(Snapshot(At(now), Some([r])));
      var clock := Clock(now, now, now);
      && DecideAsWritten(config, false, cache, clock) == Finish(false)
      && Decide(config, false, cache, clock) == Send(0, Matcher.First)
  {
    var config := Config("AA:BB:CC:DD:EE:FF", Timing(30, 5), 1);
    var r := Reservation(None, At(now + 27 * MicrosPerMinute), None, None, map[]);
    var clock := Clock(now, now, now);
    DueReservationIsSent(config, At(now), [r], clock, 0);
  }
}
