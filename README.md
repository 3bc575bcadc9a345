# Wake-on-LAN reservation checker — a Dafny model

This project models the decision core of a cron-driven Wake-on-LAN helper.
A cached snapshot of recording reservations is checked on every run. When a
reservation's start is within one of two windows set by the required
configuration keys `wol_timing.first_minutes` and `wol_timing.second_minutes`,
and the send flag for that window is not yet set, one magic packet wakes the
recording machine. After a successful send, the send flags of every
reservation whose window is open are set and the snapshot is saved. The
exception is a record whose start time raises TypeError: the pass stops at
that record, the records after it stay unflagged, and the save is skipped.

Modules, one per part of the program:

- `Wrappers` — `Option`, `Result` and `Outcome` (a value, or an exception that escapes).
- `Reservations` — the reservation record, the timestamp outcomes of
  `datetime.fromisoformat` (`Absent` = KeyError, `Malformed` = ValueError,
  `At`, `Incomparable` = TypeError), and the two inclusive windows.
- `Matcher` — `_find_reserve_to_send`. The method `FindReserveToSend` is a loop
  with an early return. It is proved equal to the recursive reference
  definition `FirstToSend`, and the lemmas state what that definition means.
- `FlagUpdater` — `_mark_wol_sent`. `MarkWolSent` is a method that updates an
  `array<Reservation>` in place, as the source mutates the dictionaries of the
  `reserves` list. It is proved equal to the pure pass `MarkAll`, and its count
  equals the number of flags that changed.
- `Freshness` — `_check_cache_freshness`.
- `MagicPacket` — `_parse_mac_address`, the packet built by `send_wol`, and the
  exit status of `send_wol.py`. A formatter is its partner: formatting and then
  parsing any 6-byte address gives that address back.
- `Orchestrator` — `check_and_send` with `_send_wol`, and the exit status of
  `main`. The cache's `reserves` list is an array shared with the flag updater.

Timestamps are integer microseconds, the resolution of Python's `datetime`. The
source divides the seconds until start by 60 as a float. The model instead
compares the microseconds exactly with the window bounds scaled to
microseconds. A run reads the clock three times, at scripts/check_and_wol.py
lines 154, 187 and 289. The three readings are the fields of `Orchestrator.Clock`.

Two behaviours of the code worth stating outright:

- The docstring at scripts/check_and_wol.py:9 speaks of sending 25 to 30 and
  0 to 5 minutes before start, and the one at lines 177-178 of 30 to 25 and
  5 to 0 minutes. The code has no such fixed windows. The first window
  (line 206) is first_minutes - 5 to first_minutes + 2, seven minutes wide.
  The second window (line 217) is second_minutes - 2 to second_minutes + 2,
  four minutes wide, so no value of second_minutes makes it cover 0 to 5
  minutes. Both comparisons are inclusive at both ends. With first_minutes
  30, a reservation exactly 32.0 minutes away matches the first window.
  `Matcher.FirstWindowBoundaries` proves this.
- An unreadable configuration exits with status 1. `_load_config` calls
  `sys.exit(1)`, and the `except Exception` in `main` does not catch
  `SystemExit` (`Orchestrator.ExitCode`, `ConfigUnreadable`). Status 2 is
  reached only by other exceptions that escape the checker, such as a missing
  configuration key in the constructor.

## Model

| member | source | states |
|---|---|---|
| Matcher.FindReserveToSend | scripts/check_and_wol.py:194-232 | the scan loop returns exactly the reference result `FirstToSend`: records in list order, the first window before the second, records with a missing or unparsable start time passed over, a TypeError ending the scan |
| Matcher.FoundIsFirstDue | scripts/check_and_wol.py:194-225 | a returned record is in range, its matched window is open and its flag unset; a second-window match means the first window was closed or already flagged; no earlier record was due or raised |
| Matcher.FirstDueIsFound | scripts/check_and_wol.py:194-225 | a due record with nothing before it that is due or raises is the one returned, in the first window when that one is due |
| Matcher.NotFoundIff | scripts/check_and_wol.py:227-232 | the scan returns None exactly when no record is due and none raises TypeError |
| Matcher.RaisedIff | scripts/check_and_wol.py:196-197 | the scan raises exactly when some record with an incomparable start time comes before any due record |
| Matcher.SkippedNeverBlocks | scripts/check_and_wol.py:227-229 | inserting a record with a missing or unparsable start time anywhere changes the result only by shifting positions after it |
| Matcher.FirstMatchWins | scripts/check_and_wol.py:194-212 | of two due records, the first in list order is returned, not the one starting sooner |
| Matcher.FirstWindowBoundaries | scripts/check_and_wol.py:206-207 | with first_minutes 30: 25.0 minutes matches, 24.9 does not, 32.0 matches, 32.1 does not, and 27 minutes with the first flag set is not due |
| FlagUpdater.MarkRecord | scripts/check_and_wol.py:298-314 | one loop body: only record i changes, it becomes its marked form, and the count is the number of its flags that changed |
| FlagUpdater.MarkWolSent | scripts/check_and_wol.py:281-328 | the list becomes `MarkAll` of the old list; the save happens exactly when no record raises TypeError; then `updated_count` equals the number of flags that changed |
| FlagUpdater.MarkAllKeepsOtherFields | scripts/check_and_wol.py:296-318 | the pass keeps the list length and every record's name, start time and other keys |
| FlagUpdater.MarkAllAt | scripts/check_and_wol.py:296-318 | each record the pass reaches gets its due flags set; records from the first TypeError on are untouched |
| FlagUpdater.MarkAllMonotone | scripts/check_and_wol.py:303-314 | a flag is either kept or set to true, never cleared |
| FlagUpdater.MarkAllCoversDue | scripts/check_and_wol.py:303-314 | in a pass that completes, every due window of every record is flagged, not only the matched one, and a record with nothing due is unchanged |
| FlagUpdater.MarkAllIdempotent | scripts/check_and_wol.py:296-318 | a second pass with the same clock leaves the list unchanged |
| FlagUpdater.NothingDueAfterMark | scripts/check_and_wol.py:296-318 | after a completed pass, the matcher at the same instant finds nothing |
| FlagUpdater.MatchedFlagIsSet | scripts/check_and_wol.py:281-318 | on any list, even one the pass does not complete, the record the matcher chose gets the flag of its matched window whenever that window is still open at the updater's clock reading |
| FlagUpdater.FlagChangesAreDueWindows | scripts/check_and_wol.py:294-321 | the number of changed flags equals the number of due windows in the records the pass reaches |
| Freshness.CheckCacheFreshness | scripts/check_and_wol.py:141-170 | fresh exactly when the timestamp parsed and its age is at most max_age_hours; a missing or unparsable timestamp gives not fresh; a TypeError escapes |
| Freshness.FreshnessMonotone | scripts/check_and_wol.py:160 | a fresh snapshot stays fresh at an earlier instant or under a larger limit |
| Freshness.OneHourLimit | scripts/check_and_wol.py:160 | with a one-hour limit, an age of exactly 60 minutes is fresh and 61 minutes is stale |
| MagicPacket.FromHex | scripts/send_wol.py:78 | decoding n pairs of hex digits gives n bytes, byte i being 16 times digit 2i plus digit 2i+1 |
| MagicPacket.ParseMac | scripts/send_wol.py:57-78 | succeeds exactly when, after removing every ':' and '-', 12 hex digits of either case remain; it then gives 6 bytes with byte i from digits 2i and 2i+1; otherwise the error carries the input |
| MagicPacket.StripFormat | scripts/send_wol.py:71 | removing the separators from an address written with ':', '-' or none leaves exactly its hex digits |
| MagicPacket.FromHexString | scripts/send_wol.py:78 | decoding the hex spelling of any byte sequence gives the sequence back, byte by byte |
| MagicPacket.ParseFormatRoundTrip | scripts/send_wol.py:57-78 | parsing any 6-byte address, written with ':', '-' or no separator, in either case, gives that address back |
| MagicPacket.ParseHexString | scripts/send_wol.py:57-78 | parsing the bare 12-digit spelling of any 6-byte address gives the address back |
| MagicPacket.SeparatedSpelling | scripts/send_wol.py:71-78 | "AA:BB:CC:DD:EE:FF" and "AA-BB-CC-DD-EE-FF" parse to the sample bytes |
| MagicPacket.BareSpelling | scripts/send_wol.py:62 | "aabbccddeeff" parses to the sample bytes |
| MagicPacket.EquivalentSpellings | scripts/send_wol.py:71-78 | the colon, hyphen and bare lower-case spellings parse to the same bytes |
| MagicPacket.FiveOctetsRejected | scripts/send_wol.py:74-75 | a five-octet address is rejected |
| MagicPacket.Repeat | scripts/send_wol.py:38 | 16 copies of the address are 96 bytes, byte i being address byte i mod 6 |
| MagicPacket.BuildPacket | scripts/send_wol.py:36-39 | the packet is 102 bytes: six 0xFF bytes, then byte i is address byte (i - 6) mod 6 |
| MagicPacket.PacketLayout | scripts/send_wol.py:36-39 | byte 6 + 6k + j of the packet is address byte j for every k < 16 and j < 6 |
| MagicPacket.MagicPacketIff | scripts/send_wol.py:36-39 | a byte string has the magic-packet shape exactly when it is the packet built from its bytes 6 to 11 |
| MagicPacket.PacketCarriesMac | scripts/send_wol.py:36-39 | a built packet has the magic-packet shape and carries the address at bytes 6 to 11 |
| MagicPacket.SendWol | scripts/send_wol.py:16-54 | an invalid address raises before any socket exists; otherwise one magic packet carrying the parsed address goes to the given address and port, and the result is the socket outcome |
| MagicPacket.PayloadIgnoresDestination | scripts/send_wol.py:36-48 | the packet does not depend on the broadcast address, the port or the socket outcome |
| MagicPacket.ScriptExitCode | scripts/send_wol.py:81-92 | the script exits 0 or 1, and 0 exactly when an address is given, the port argument is an integer, the address parses and the socket calls succeed |
| Orchestrator.Decide | scripts/check_and_wol.py:64-115 | a live machine ends the run successfully; a send is decided only for a trusted snapshot and for the first record where the scan stops, due in the named window, a second-window send only when the first window is not due; success without a send means the machine is alive, or the snapshot is trusted and has nothing due and nothing that raises |
| Orchestrator.DecideAsWritten | scripts/check_and_wol.py:98-99 | as written, the decision differs from the corrected one exactly when the corrected one sends for a reservation without a program name, and then the run fails without a send |
| Orchestrator.SendSucceeded | scripts/check_and_wol.py:252-279 | the send succeeds exactly when the sender ran to the end, the address parsed and the socket calls succeeded; a timeout or spawn failure is a failure |
| Orchestrator.SendWolAndMark | scripts/check_and_wol.py:234-279 | the flags are marked only after a successful send, and a failed send leaves the reservations as they were |
| Orchestrator.CheckAndSend | scripts/check_and_wol.py:57-115 | the run follows the corrected `Decide` (line 99 reading the name with a default): a finish returns its result and touches nothing; a send attempts exactly one packet and returns its result; after a successful send the snapshot holds `MarkAll` of the old list |
| Orchestrator.ExitCode | scripts/check_and_wol.py:331-367 | the exit status is 0 exactly for a successful check, 2 exactly for an exception caught in `main`, and 1 otherwise |
| Orchestrator.InvalidMacNeverMarks | scripts/check_and_wol.py:260-269 | with an unparsable configured address, the send always fails, so flags are never marked |
| Orchestrator.SecondRunSendsNothing | scripts/check_and_wol.py:296-318 | after a run that sent and saved, a run at the updater's instant on the same snapshot sends nothing and succeeds |
| Orchestrator.BatchMarking | scripts/check_and_wol.py:296-318 | two reservations due at one instant cause one send, for the first of them in its first due window, and every due window of both gets its flag |
| Orchestrator.DueReservationIsSent | scripts/check_and_wol.py:94-101 | in the corrected flow, a due reservation with nothing before it that stops the scan is always sent for, with or without a program name |
| Orchestrator.UnnamedReservationNeverWakes | scripts/check_and_wol.py:99 | a fresh snapshot whose only reservation has no program name and is 27 minutes away: as written the run fails without a send, while the corrected flow sends |

## Left out

- Logging: all logger calls are dropped. The failure of the one at scripts/check_and_wol.py:99 is modelled only by `Orchestrator.DecideAsWritten` (see Findings).
- Orchestrator.CheckAndSend: follows the corrected line 99, so for a matched reservation without a program name it attempts the send, where the code raises KeyError and returns False. `Orchestrator.DecideAsWritten` states the as-written outcome.
- The liveness probe (ping or TCP connect) is the boolean `alive` parameter.
- Reading the configuration and cache files. `_load_cache` returning None is `cache == None`. An empty JSON object is `IsEmpty`. A cache that is some other JSON value (a list, a number) is not modelled.
- Missing configuration keys inside `check_and_send` are not modelled. `Config` always holds the mac address, the two timing values and `max_age_hours` as integers. A float configuration value is not modelled either.
- A reservation entry that is not a JSON object raises TypeError like an `Incomparable` start time. The model has no separate case for it.
- Writing the snapshot back: a pass that reaches the end of the list is saved, and a failed write is not modelled. The swallowed TypeError that skips the save is modelled (`saved`).
- The subprocess that runs send_wol.py, its 5-second timeout and its stderr text are the `SendOutcome` parameter.
- Socket creation, the socket options and `sendto` are the `socketOk` parameter of `MagicPacket.SendWol`.
- `datetime.now()` and ISO-8601 parsing: the three clock readings are `Clock`, and the parse outcome is `Stamp`.
- Float division of seconds by 60: the model compares microseconds exactly. A float rounding at a window edge can differ from the exact comparison only by one rounding step.
- JSON truthiness of a flag stored as a non-boolean (such as 1 or "yes") is not modelled. A flag is `Option<bool>`, and only `true` counts as sent.
- The unlocked read-modify-write race between the refresh process and this process: that is concurrency.
- scripts/update_cache.py (HTTP fetch and response normalisation) is not part of this model.
- Freshness.CheckCacheFreshness: does not model the OverflowError that `timedelta(hours=max_age_hours)` raises when the limit exceeds about 2.4e10 hours. That run returns False, where the model says fresh.
- A config.json that is valid JSON but not an object, or a `logging.dir` that is not a string, raises AttributeError or TypeError in `main` at scripts/check_and_wol.py:344-346. It escapes with exit status 1, and `Orchestrator.RunEnd` has no case for it.
- A PermissionError while `main` reads the configuration for the log directory escapes `main` unhandled. `Orchestrator.RunEnd` does not model it.
- BuildPacket: requires a 6-byte address, and so does `Repeat`. The source multiplies any byte string, but it is only ever given the parser's 6-byte result.

## Findings

| source | as written | input that shows it | evidently intended | confidence | as-written member | corrected member |
|---|---|---|---|---|---|---|
| scripts/check_and_wol.py:99 | the match log line reads `reserve_to_send['program_name']` without a default, so a matched reservation without a program name raises KeyError, `check_and_send` returns False and no packet is sent | a fresh snapshot with one reservation `{"start_time": <now + 27 min>}` and first_minutes 30, while the machine is down | read the name with a default, as the matcher itself does at line 198, and send the packet | not executed | Orchestrator.UnnamedReservationNeverWakes | Orchestrator.DueReservationIsSent |
