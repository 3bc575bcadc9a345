/** The send-flag updater: `WOLChecker._mark_wol_sent`. */
module FlagUpdater {
  import opened Wrappers
  import opened Reservations
  import Matcher

  /** One record after the updater has visited it: each flag whose window is
      open and which is not yet set becomes `true`; nothing else changes. */
  function Marked(r: Reservation, now: int, t: Timing): Reservation {
    r.(sentFirst := if FirstDue(r, now, t) then Some(true) else r.sentFirst,
       sentSecond := if SecondDue(r, now, t) then Some(true) else r.sentSecond)
  }

  /** The list after one pass. A record that raises TypeError ends the pass:
      it and every record after it are left as they were. */
  function MarkAll(rs: seq<Reservation>, now: int, t: Timing): seq<Reservation>
    decreases |rs|
  {
    if rs == [] then []
    else if rs[0].startTime.Incomparable? then rs
    else [Marked(rs[0], now, t)] + MarkAll(rs[1..], now, t)
  }

  /** The pass reaches the end of the list, so the snapshot gets saved. */
  predicate Completes(rs: seq<Reservation>) {
    forall i :: 0 <= i < |rs| ==> !rs[i].startTime.Incomparable?
  }

  /** No record at or before position `i` raises. */
  predicate ReachedBy(rs: seq<Reservation>, i: nat)
    requires i < |rs|
  {
    forall j :: 0 <= j <= i ==> !rs[j].startTime.Incomparable?
  }

  /** How many of the two flags differ between two versions of one record. */
  function FlagDiff(a: Reservation, b: Reservation): nat {
    (if a.sentFirst != b.sentFirst then 1 else 0) + (if a.sentSecond != b.sentSecond then 1 else 0)
  }

  /** How many flags differ between two versions of a list. */
  function FlagChanges(a: seq<Reservation>, b: seq<Reservation>): nat
    requires |a| == |b|
    decreases |a|
  {
    if a == [] then 0
    else FlagChanges(a[..|a| - 1], b[..|b| - 1]) + FlagDiff(a[|a| - 1], b[|b| - 1])
  }

  /** How many windows are due in the records the pass reaches. */
  function DueWindows(rs: seq<Reservation>, now: int, t: Timing): nat
    decreases |rs|
  {
    if rs == [] || rs[0].startTime.Incomparable? then 0
    else
      var here := (if FirstDue(rs[0], now, t) then 1 else 0) + (if SecondDue(rs[0], now, t) then 1 else 0);
      here + DueWindows(rs[1..], now, t)
  }

  /** The body of the loop for one record whose start time parsed: each
      window test and flag write in the source's order. Returns how many
      flags it set. */
  method MarkRecord(reserves: array<Reservation>, i: nat, start: int, now: int, t: Timing) returns (count: nat)
    requires i < reserves.Length && reserves[i].startTime == At(start)
    modifies reserves
    ensures reserves[..] == old(reserves[..])[i := Marked(old(reserves[i]), now, t)]
    ensures count == FlagDiff(old(reserves[i]), reserves[i])
  {
    count := 0;
    if InFirstWindow(t, start, now) {
      if !IsSent(reserves[i].sentFirst) {
        reserves[i] := reserves[i].(sentFirst := Some(true));
        count := count + 1;
      }
    }
    if InSecondWindow(t, start, now) {
      if !IsSent(reserves[i].sentSecond) {
        reserves[i] := reserves[i].(sentSecond := Some(true));
        count := count + 1;
      }
    }
  }

  /** The pass as the source runs it, updating the records in place. Returns
      `updated_count` and whether the snapshot is saved afterwards (a TypeError
      escapes the loop, is swallowed by the outer handler and skips the save). */
  method MarkWolSent(reserves: array<Reservation>, now: int, t: Timing) returns (updatedCount: nat, saved: bool)
    modifies reserves
    ensures reserves[..] == MarkAll(old(reserves[..]), now, t)
    ensures saved <==> Completes(old(reserves[..]))
    ensures saved ==> updatedCount == FlagChanges(old(reserves[..]), reserves[..])
  {
    ghost var before := reserves[..];
    updatedCount := 0;
    var i := 0;
    while i < reserves.Length
      invariant 0 <= i <= reserves.Length
      invariant forall j :: 0 <= j < i ==> !before[j].startTime.Incomparable?
      invariant reserves[i..] == before[i..]
      invariant MarkAll(before, now, t) == reserves[..i] + MarkAll(before[i..], now, t)
      invariant updatedCount == FlagChanges(before[..i], reserves[..i])
    {
      ghost var current := reserves[..];
      assert reserves[i] == before[i] by {
        assert reserves[i..][0] == before[i..][0];
      }
      var count := 0;
      match reserves[i].startTime {
        case Incomparable =>
          MarkAllAbort(before, current[..i], i, now, t);
          assert current == current[..i] + current[i..];
          saved := false;
          return;
        case At(start) =>
          count := MarkRecord(reserves, i, start, now, t);
        case _ =>
          assert Marked(before[i], now, t) == before[i];
          assert current == current[i := before[i]];
      }
      LoopStep(before, current, i, count, now, t);
      updatedCount := updatedCount + count;
      i := i + 1;
    }
    assert reserves[..] == reserves[..i] && before[i..] == [] && before[..i] == before;
    saved := true;
  }

  /** The loop invariant of `MarkWolSent` survives marking the record at `i`. */
  lemma LoopStep(before: seq<Reservation>, current: seq<Reservation>, i: nat, count: nat, now: int, t: Timing)
    requires |current| == |before| && i < |before| && !before[i].startTime.Incomparable?
    requires current[i..] == before[i..]
    requires MarkAll(before, now, t) == current[..i] + MarkAll(before[i..], now, t)
    requires count == FlagDiff(before[i], Marked(before[i], now, t))
    ensures var next := current[i := Marked(before[i], now, t)];
      && next[i + 1..] == before[i + 1..]
      && MarkAll(before, now, t) == next[..i + 1] + MarkAll(before[i + 1..], now, t)
      && FlagChanges(before[..i + 1], next[..i + 1]) == FlagChanges(before[..i], current[..i]) + count
  {
    var r := Marked(before[i], now, t);
    var next := current[i := r];
    assert next[..i] == current[..i];
    assert next[..i + 1] == current[..i] + [r];
    assert before[..i + 1] == before[..i] + [before[i]];
    assert next[i + 1..] == before[i + 1..] by {
      assert next[i + 1..] == current[i..][1..];
    }
    MarkAllStep(before, current[..i], i, r, now, t);
    FlagChangesSnoc(before[..i], current[..i], before[i], r);
  }

  /** The step of the loop that meets a record raising TypeError: the rest of
      the list stays as it was. */
  lemma MarkAllAbort(before: seq<Reservation>, done: seq<Reservation>, i: nat, now: int, t: Timing)
    requires i < |before| && before[i].startTime.Incomparable?
    requires MarkAll(before, now, t) == done + MarkAll(before[i..], now, t)
    ensures MarkAll(before, now, t) == done + before[i..]
  {
    assert before[i..][0] == before[i];
  }

  /** One step of the loop: marking the record at `i` extends the marked prefix. */
  lemma MarkAllStep(before: seq<Reservation>, done: seq<Reservation>, i: nat, r: Reservation, now: int, t: Timing)
    requires i < |before| && !before[i].startTime.Incomparable? && r == Marked(before[i], now, t)
    requires MarkAll(before, now, t) == done + MarkAll(before[i..], now, t)
    ensures MarkAll(before, now, t) == (done + [r]) + MarkAll(before[i + 1..], now, t)
  {
    assert before[i..][0] == before[i] && before[i..][1..] == before[i + 1..];
  }

  /** The pass keeps the list's length and order, and touches nothing but the
      two flags: program name, start time and every other key are preserved. */
  lemma {:induction false} MarkAllKeepsOtherFields(rs: seq<Reservation>, now: int, t: Timing)
    ensures |MarkAll(rs, now, t)| == |rs|
    ensures forall i :: 0 <= i < |rs| ==>
      var m := MarkAll(rs, now, t)[i];
      m.programName == rs[i].programName && m.startTime == rs[i].startTime && m.extra == rs[i].extra
  {
    if rs != [] && !rs[0].startTime.Incomparable? {
      MarkAllKeepsOtherFields(rs[1..], now, t);
      assert forall i :: 1 <= i < |rs| ==> MarkAll(rs, now, t)[i] == MarkAll(rs[1..], now, t)[i - 1];
    }
  }

  /** Record by record: a record the pass reaches is marked, any other record
      is left as it was. Skipped records are therefore never changed. */
  lemma {:induction false} MarkAllAt(rs: seq<Reservation>, now: int, t: Timing, i: nat)
    requires i < |rs|
    ensures |MarkAll(rs, now, t)| == |rs|
    ensures MarkAll(rs, now, t)[i] == if ReachedBy(rs, i) then Marked(rs[i], now, t) else rs[i]
  {
    MarkAllKeepsOtherFields(rs, now, t);
    if !rs[0].startTime.Incomparable? && i > 0 {
      MarkAllAt(rs[1..], now, t, i - 1);
      assert ReachedBy(rs, i) <==> ReachedBy(rs[1..], i - 1) by {
        assert forall j :: 1 <= j <= i ==> rs[j] == rs[1..][j - 1];
      }
    }
  }

  /** Flags only ever go from unset to `true`: a flag the pass changes is now
      `true`, and a flag that was `true` stays `true`. */
  lemma MarkAllMonotone(rs: seq<Reservation>, now: int, t: Timing, i: nat)
    requires i < |rs|
    ensures |MarkAll(rs, now, t)| == |rs|
    ensures var m := MarkAll(rs, now, t)[i];
      && (m.sentFirst == rs[i].sentFirst || m.sentFirst == Some(true))
      && (m.sentSecond == rs[i].sentSecond || m.sentSecond == Some(true))
      && (IsSent(rs[i].sentFirst) ==> IsSent(m.sentFirst))
      && (IsSent(rs[i].sentSecond) ==> IsSent(m.sentSecond))
  {
    MarkAllAt(rs, now, t, i);
  }

  /** Batch marking: when the pass completes, every reservation with an open
      window gets that window's flag, not only the one the matcher returned. */
  lemma MarkAllCoversDue(rs: seq<Reservation>, now: int, t: Timing, i: nat)
    requires Completes(rs) && i < |rs|
    ensures |MarkAll(rs, now, t)| == |rs|
    ensures FirstDue(rs[i], now, t) ==> IsSent(MarkAll(rs, now, t)[i].sentFirst)
    ensures SecondDue(rs[i], now, t) ==> IsSent(MarkAll(rs, now, t)[i].sentSecond)
    ensures !Due(rs[i], now, t) ==> MarkAll(rs, now, t)[i] == rs[i]
  {
    MarkAllAt(rs, now, t, i);
  }

  /** A second pass at the same instant changes nothing. */
  lemma {:induction false} MarkAllIdempotent(rs: seq<Reservation>, now: int, t: Timing)
    ensures MarkAll(MarkAll(rs, now, t), now, t) == MarkAll(rs, now, t)
  {
    if rs != [] && !rs[0].startTime.Incomparable? {
      MarkAllIdempotent(rs[1..], now, t);
      var m := MarkAll(rs, now, t);
      assert m[0] == Marked(rs[0], now, t) && m[1..] == MarkAll(rs[1..], now, t);
    }
  }

  /** After a completed pass the matcher finds nothing at the same instant:
      every window that could have triggered a send is flagged. */
  lemma {:induction false} NothingDueAfterMark(rs: seq<Reservation>, now: int, t: Timing)
    requires Completes(rs)
    ensures Matcher.FirstToSend(MarkAll(rs, now, t), now, t) == Matcher.NotFound
  {
    var m := MarkAll(rs, now, t);
    MarkAllKeepsOtherFields(rs, now, t);
    forall j | 0 <= j < |m| ensures !Matcher.Stops(m[j], now, t) {
      MarkAllAt(rs, now, t, j);
    }
    Matcher.NotFoundIff(m, now, t);
  }

  /** The record the matcher returned gets the flag of its window, provided the
      window is still open at the updater's own clock reading `markNow`. */
  lemma MatchedFlagIsSet(rs: seq<Reservation>, matchNow: int, markNow: int, t: Timing)
    requires Matcher.FirstToSend(rs, matchNow, t).Found?
    ensures var m := Matcher.FirstToSend(rs, matchNow, t);
      m.index < |rs| && rs[m.index].startTime.At? && |MarkAll(rs, markNow, t)| == |rs|
    ensures var m := Matcher.FirstToSend(rs, matchNow, t);
      var start := rs[m.index].startTime.micros;
      && (m.window == Matcher.First && InFirstWindow(t, start, markNow) ==> IsSent(MarkAll(rs, markNow, t)[m.index].sentFirst))
      && (m.window == Matcher.Second && InSecondWindow(t, start, markNow) ==> IsSent(MarkAll(rs, markNow, t)[m.index].sentSecond))
  {
    Matcher.FoundIsFirstDue(rs, matchNow, t);
    var m := Matcher.FirstToSend(rs, matchNow, t);
    MarkAllAt(rs, markNow, t, m.index);
    assert ReachedBy(rs, m.index);
  }

  /** Appending one record to both versions adds that record's flag changes. */
  lemma FlagChangesSnoc(a: seq<Reservation>, b: seq<Reservation>, x: Reservation, y: Reservation)
    requires |a| == |b|
    ensures FlagChanges(a + [x], b + [y]) == FlagChanges(a, b) + FlagDiff(x, y)
  {
    assert (a + [x])[..|a|] == a && (b + [y])[..|b|] == b;
  }

  /** Prepending one record to both versions adds that record's flag changes. */
  lemma {:induction false} FlagChangesCons(x: Reservation, y: Reservation, a: seq<Reservation>, b: seq<Reservation>)
    requires |a| == |b|
    ensures FlagChanges([x] + a, [y] + b) == FlagDiff(x, y) + FlagChanges(a, b)
    decreases |a|
  {
    if a != [] {
      var n := |a| - 1;
      assert ([x] + a)[..n + 1] == [x] + a[..n] && ([y] + b)[..n + 1] == [y] + b[..n];
      FlagChangesCons(x, y, a[..n], b[..n]);
    } else {
      assert [x] + a == [] + [x] && [y] + b == [] + [y];
      FlagChangesSnoc([], [], x, y);
    }
  }

  /** `updated_count` of a pass equals the number of due windows it reaches:
      each due window's flag changes once, and no other flag changes. */
  lemma {:induction false} FlagChangesAreDueWindows(rs: seq<Reservation>, now: int, t: Timing)
    ensures |MarkAll(rs, now, t)| == |rs|
    ensures FlagChanges(rs, MarkAll(rs, now, t)) == DueWindows(rs, now, t)
  {
    MarkAllKeepsOtherFields(rs, now, t);
    if rs == [] {
    } else if rs[0].startTime.Incomparable? {
      SameListNoChanges(rs);
    } else {
      FlagChangesAreDueWindows(rs[1..], now, t);
      assert rs == [rs[0]] + rs[1..];
      FlagChangesCons(rs[0], Marked(rs[0], now, t), rs[1..], MarkAll(rs[1..], now, t));
    }
  }

  /** A list compared with itself has no flag changes. */
  lemma {:induction false} SameListNoChanges(rs: seq<Reservation>)
    ensures FlagChanges(rs, rs) == 0
    decreases |rs|
  {
    if rs != [] {
      SameListNoChanges(rs[..|rs| - 1]);
    }
  }
}
