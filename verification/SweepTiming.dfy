/**
  * What the absence window means for one sweeper: when exactly a session visited at given
  * times, with given verdicts and any database call failing, is ended. A visit happens some
  * time after its tick, and each of its transactions has a `now()` of its own.
  */
module SweepTiming {
  import opened Options
  import opened LiveSessionRows
  import opened SweepTask

  /** The tick that found the session, and what became of the visit. */
  datatype Sample = Sample(at: int, visit: Visit)

  /** Rows that are not live are not listed. */
  function Tick(row: Row, s: Sample): Row {
    if row.status.Live? then Visited(row, s.visit) else row
  }

  function After(row: Row, samples: seq<Sample>): Row {
    if samples == [] then row else Tick(After(row, samples[..|samples| - 1]), samples[|samples| - 1])
  }

  /** A session on air. */
  predicate OnAir(row: Row) {
    row.status.Live? && row.mainPath.Some? && row.startedAt.Some?
  }

  /** The publisher was there and the refresh of the clock succeeded. */
  predicate Refreshed(s: Sample) {
    s.visit.verdict.Active? && s.visit.markAt.Some?
  }

  /** The publisher was not there and the visit got as far as the ending UPDATE. */
  predicate Absent(s: Sample) {
    s.visit.verdict.Inactive? && s.visit.seedAt.Some? && s.visit.endAt.Some?
  }

  /** Where absence is measured from before any sample: the stored clock, or the start. */
  function InitialClock(row: Row): int
    requires OnAir(row)
  {
    if row.lastSeen.Some? then row.lastSeen.value else row.startedAt.value
  }

  /** Sample `k` is the newest that refreshed the clock. */
  predicate Newest(samples: seq<Sample>, k: int) {
    0 <= k < |samples| && Refreshed(samples[k]) && forall i :: k < i < |samples| ==> !Refreshed(samples[i])
  }

  /** `seen` is the time of the newest refresh, or of the initial clock if there is none. */
  ghost predicate LastSeen(row: Row, samples: seq<Sample>, seen: int)
    requires OnAir(row)
  {
    || (seen == InitialClock(row) && forall i :: 0 <= i < |samples| ==> !Refreshed(samples[i]))
    || exists k :: Newest(samples, k) && seen == samples[k].visit.markAt.value
  }

  /** The session survives `samples` and keeps a clock that agrees with `seen`. */
  lemma {:induction false} ClockIsLastSeen(row: Row, samples: seq<Sample>, seen: int)
    requires OnAir(row) && After(row, samples).status.Live? && LastSeen(row, samples, seen)
    ensures OnAir(After(row, samples)) && InitialClock(After(row, samples)) == seen
  {
    if samples != [] {
      var front, s := samples[..|samples| - 1], samples[|samples| - 1];
      if !Refreshed(s) {
        if exists k :: Newest(samples, k) && seen == samples[k].visit.markAt.value {
          var k :| Newest(samples, k) && seen == samples[k].visit.markAt.value;
          assert Newest(front, k) && front[k] == samples[k];
        }
        ClockIsLastSeen(row, front, seen);
      } else {
        var seen' := SomeLastSeen(row, front);
        ClockIsLastSeen(row, front, seen');
        if exists k :: Newest(samples, k) && seen == samples[k].visit.markAt.value {
          var k :| Newest(samples, k) && seen == samples[k].visit.markAt.value;
          assert k == |samples| - 1;
        }
      }
    }
  }

  lemma {:induction false} SomeLastSeen(row: Row, samples: seq<Sample>) returns (seen: int)
    requires OnAir(row)
    ensures LastSeen(row, samples, seen)
  {
    if samples == [] {
      seen := InitialClock(row);
    } else if Refreshed(samples[|samples| - 1]) {
      seen := samples[|samples| - 1].visit.markAt.value;
      assert Newest(samples, |samples| - 1);
    } else {
      var front := samples[..|samples| - 1];
      seen := SomeLastSeen(row, front);
      if exists k :: Newest(front, k) && seen == front[k].visit.markAt.value {
        var k :| Newest(front, k) && seen == front[k].visit.markAt.value;
        assert Newest(samples, k) && samples[k] == front[k];
      }
    }
  }

  /** Past the window: absence is confirmed and the UPDATE begins more than a window after `seen`. */
  predicate TooLate(seen: int, s: Sample) {
    Absent(s) && seen + GRACE < s.visit.endAt.value
  }

  /**
    * The next visit ends a live session exactly when it confirms absence and its ending UPDATE
    * begins more than the window after the newest refresh began. Nothing else has a say.
    */
  lemma EndsExactlyWhen(row: Row, samples: seq<Sample>, next: Sample, seen: int)
    requires OnAir(row) && After(row, samples).status.Live? && LastSeen(row, samples, seen)
    ensures After(row, samples + [next]).status.Ended? <==> TooLate(seen, next)
    ensures After(row, samples + [next]).status.Live? <==> !TooLate(seen, next)
    ensures TooLate(seen, next) ==> After(row, samples + [next]).endedAt == next.visit.endAt
  {
    ClockIsLastSeen(row, samples, seen);
    assert (samples + [next])[..|samples + [next]| - 1] == samples;
  }

  /** Nothing ends a session before the first visit past the window, and nothing undoes that one. */
  lemma {:induction false} FirstTooLateEnds(row: Row, samples: seq<Sample>, n: int)
    requires OnAir(row) && -1 <= n < |samples|
    requires forall i :: 0 <= i < |samples| ==> !Refreshed(samples[i])
    requires n >= 0 ==> TooLate(InitialClock(row), samples[n])
    requires forall i :: 0 <= i < (if n >= 0 then n else |samples|) ==> !TooLate(InitialClock(row), samples[i])
    ensures n < 0 ==> After(row, samples).status.Live?
    ensures n >= 0 ==> After(row, samples).status.Ended? && After(row, samples).endedAt == samples[n].visit.endAt
  {
    if samples != [] {
      var front, last := samples[..|samples| - 1], samples[|samples| - 1];
      assert front + [last] == samples;
      if 0 <= n < |front| {
        FirstTooLateEnds(row, front, n);
      } else {
        FirstTooLateEnds(row, front, -1);
        EndsExactlyWhen(row, front, last, InitialClock(row));
      }
    }
  }

  // ---------------------------------------------------------------- at a fixed cadence

  /** Ticks `interval` apart. */
  predicate Spaced(samples: seq<Sample>, interval: int) {
    forall i :: 0 <= i < |samples| ==> samples[i].at == samples[0].at + i * interval
  }

  predicate Within(t: Option<int>, from: int, latency: int) {
    t.Some? ==> from <= t.value <= from + latency
  }

  /** The refresh and the ending UPDATE of every visit begin within `latency` of its tick. */
  predicate Prompt(samples: seq<Sample>, latency: int) {
    forall i :: 0 <= i < |samples| ==>
      Within(samples[i].visit.markAt, samples[i].at, latency) && Within(samples[i].visit.endAt, samples[i].at, latency)
  }

  /** `k` is the newest sample before the last that refreshed the clock, with the session still live. */
  predicate LastOf(row: Row, samples: seq<Sample>, k: int) {
    |samples| > 0 && Newest(samples[..|samples| - 1], k) && After(row, samples[..|samples| - 1]).status.Live?
  }

  /** The last sample ends the session exactly when it is past the window of refresh `k`. */
  lemma LastEndsExactlyWhen(row: Row, samples: seq<Sample>, k: int)
    requires OnAir(row) && LastOf(row, samples, k)
    ensures After(row, samples).status.Ended? <==> TooLate(samples[k].visit.markAt.value, samples[|samples| - 1])
  {
    var front, last := samples[..|samples| - 1], samples[|samples| - 1];
    assert front + [last] == samples && front[k] == samples[k];
    assert LastSeen(row, front, samples[k].visit.markAt.value);
    EndsExactlyWhen(row, front, last, samples[k].visit.markAt.value);
  }

  lemma SpacedDifference(samples: seq<Sample>, interval: int, k: nat, n: nat)
    requires Spaced(samples, interval) && k <= n < |samples|
    ensures samples[n].at - samples[k].at == (n - k) * interval
  {
    assert n * interval - k * interval == (n - k) * interval;
  }

  /**
    * At the real cadence, with calls that begin less than an interval after their tick, a
    * session is never ended before the fifteenth tick from its newest refresh, and always by
    * the sixteenth if that confirms absence. Which of the two depends on the calls' times.
    */
  lemma EndsAtFifteenthOrSixteenthTick(row: Row, samples: seq<Sample>, k: int, latency: int)
    requires OnAir(row) && LastOf(row, samples, k)
    requires Spaced(samples, SWEEP_INTERVAL) && Prompt(samples, latency) && latency < SWEEP_INTERVAL
    ensures After(row, samples).status.Ended? ==> Absent(samples[|samples| - 1]) && |samples| - 1 - k >= 15
    ensures Absent(samples[|samples| - 1]) && |samples| - 1 - k >= 16 ==> After(row, samples).status.Ended?
  {
    var n := |samples| - 1;
    LastEndsExactlyWhen(row, samples, k);
    SpacedDifference(samples, SWEEP_INTERVAL, k, n);
    assert samples[..n][k] == samples[k];
    if Absent(samples[n]) {
      FifteenOrSixteen(n - k, samples[k].at, samples[k].visit.markAt.value, samples[n].visit.endAt.value, latency);
    }
  }

  lemma FifteenOrSixteen(ticks: int, at: int, mark: int, end: int, latency: int)
    requires at <= mark <= at + latency && latency < SWEEP_INTERVAL
    requires at + ticks * SWEEP_INTERVAL <= end <= at + ticks * SWEEP_INTERVAL + latency
    ensures mark + GRACE < end ==> ticks >= 15
    ensures ticks >= 16 ==> mark + GRACE < end
  {
    assert GRACE == 15 * SWEEP_INTERVAL;
  }

  const MILLISECOND := 1_000

  function Seen(at: int, markAt: int): Sample {
    Sample(at, Visit(Active, Some(markAt), None, None, None))
  }

  function Gap(at: int, endAt: int): Sample {
    Sample(at, Visit(Inactive, None, Some(endAt), Some(endAt), Some(endAt)))
  }

  function Unknown(at: int): Sample {
    Sample(at, Visit(Inconclusive, None, None, None, None))
  }

  const FRESH: Row := Row(Live, Some(0), None, None, Some("p"))

  /** Both happen: a refresh 20 ms after its tick and an UPDATE 25 ms after its own, or 15 ms. */
  lemma FifteenthTickCanEnd(delay: int) returns (samples: seq<Sample>)
    requires 0 <= delay <= 50
    ensures OnAir(FRESH) && Spaced(samples, SWEEP_INTERVAL) && Prompt(samples, 50 * MILLISECOND) && |samples| == 16
    ensures LastOf(FRESH, samples, 0) && Absent(samples[15])
    ensures samples[0].visit.markAt == Some(20 * MILLISECOND)
    ensures samples[15].visit.endAt == Some(15 * SWEEP_INTERVAL + delay * MILLISECOND)
    ensures After(FRESH, samples).status.Ended? <==> delay > 20
  {
    samples := seq(16, i => if i == 0 then Seen(0, 20 * MILLISECOND)
                            else Gap(i * SWEEP_INTERVAL, i * SWEEP_INTERVAL + delay * MILLISECOND));
    assert samples[0] == Seen(0, 20 * MILLISECOND);
    assert forall i :: 0 <= i < 15 ==> samples[..15][i] == samples[i];
    FirstSeenStaysLive(samples[..15]);
    LastEndsExactlyWhen(FRESH, samples, 0);
  }

  /** After an opening refresh, a session survives samples inside the window and inconclusive ones. */
  lemma {:induction false} FirstSeenStaysLive(samples: seq<Sample>)
    requires |samples| > 0 && Refreshed(samples[0])
    requires forall i :: 0 < i < |samples| ==>
      !Refreshed(samples[i]) && !TooLate(samples[0].visit.markAt.value, samples[i])
    ensures Newest(samples, 0) && After(FRESH, samples).status.Live?
  {
    var front, n := samples[..|samples| - 1], |samples| - 1;
    if n == 0 {
      assert front == [];
    } else {
      FirstSeenStaysLive(front);
      assert front + [samples[n]] == samples && front[0] == samples[0];
      LastEndsExactlyWhen(FRESH, samples, 0);
      EndsExactlyWhen(FRESH, front, samples[n], samples[0].visit.markAt.value);
    }
  }

  /** Every probe is conclusive and every refresh after an active one succeeds. */
  predicate Conclusive(samples: seq<Sample>) {
    forall i :: 0 <= i < |samples| ==> samples[i].visit.verdict.Inactive? || Refreshed(samples[i])
  }

  /** In every conclusive history at least four samples separate the newest refresh from the end. */
  ghost predicate FourBetween(interval: int, latency: int) {
    forall row: Row, samples: seq<Sample>, k: int ::
      EndedAtCadence(row, samples, k, interval, latency) ==> |samples| - 1 - (k + 1) >= 4
  }

  /** A conclusive history at the cadence, ended by its last sample. */
  predicate EndedAtCadence(row: Row, samples: seq<Sample>, k: int, interval: int, latency: int) {
    && OnAir(row) && LastOf(row, samples, k)
    && Spaced(samples, interval) && Prompt(samples, latency) && Conclusive(samples)
    && After(row, samples).status.Ended?
  }

  /**
    * What the interval buys: four samples, all inactive, between the newest refresh and the
    * tick that ends the session, exactly when four intervals and the latency fit in the window.
    * The code asserts this without the latency, which is enough only if calls take no time.
    */
  lemma FourBetweenIff(interval: int, latency: int)
    requires 0 < interval && 0 <= latency
    ensures FourBetween(interval, latency) <==> 4 * interval + latency <= GRACE
  {
    if 4 * interval + latency <= GRACE {
      forall row: Row, samples: seq<Sample>, k: int | EndedAtCadence(row, samples, k, interval, latency)
        ensures |samples| - 1 - (k + 1) >= 4
      {
        FourInactiveSamplesBetween(row, samples, k, interval, latency);
      }
    } else {
      var samples := ShortHistory(interval, latency);
    }
  }

  lemma FourInactiveSamplesBetween(row: Row, samples: seq<Sample>, k: int, interval: int, latency: int)
    requires 0 < interval && 0 <= latency && 4 * interval + latency <= GRACE
    requires EndedAtCadence(row, samples, k, interval, latency)
    ensures |samples| - 1 - (k + 1) >= 4
    ensures forall i :: k < i < |samples| ==> samples[i].visit.verdict.Inactive?
  {
    var front, n := samples[..|samples| - 1], |samples| - 1;
    LastEndsExactlyWhen(row, samples, k);
    SpacedDifference(samples, interval, k, n);
    assert front[k] == samples[k];
    if n - k <= 4 {
      Scale(n - k, 4, interval);
    }
    forall i | k < i < |samples|
      ensures samples[i].visit.verdict.Inactive?
    {
      if i < n {
        assert front[i] == samples[i];
      }
    }
  }

  lemma Scale(a: int, b: int, n: int)
    requires a <= b && n >= 0
    ensures a * n <= b * n
  {}

  /** One refresh, then absence at every tick, each UPDATE as late after its tick as it may be. */
  function History(n: nat, interval: int, latency: int): seq<Sample> {
    seq(n + 1, i => if i == 0 then Seen(0, 0) else Gap(i * interval, i * interval + latency))
  }

  lemma HistoryKeepsTime(n: nat, interval: int, latency: int)
    requires 0 <= latency
    ensures var samples := History(n, interval, latency);
      Spaced(samples, interval) && Prompt(samples, latency) && Conclusive(samples)
  {
    var samples := History(n, interval, latency);
    forall i | 0 <= i < |samples|
      ensures samples[i] == if i == 0 then Seen(0, 0) else Gap(i * interval, i * interval + latency)
    {}
    assert samples[0].at == 0;
  }

  /** Tick `n` is the first whose UPDATE can begin past the window. */
  lemma HistoryEnds(n: nat, interval: int, latency: int)
    requires 1 <= n && 0 < interval && 0 <= latency && n * interval + latency > GRACE
    requires n == 1 || (n - 1) * interval + latency <= GRACE
    ensures var samples := History(n, interval, latency);
      LastOf(FRESH, samples, 0) && After(FRESH, samples).status.Ended?
  {
    var samples := History(n, interval, latency);
    assert samples[0] == Seen(0, 0) && samples[n] == Gap(n * interval, n * interval + latency);
    forall i | 0 < i < n
      ensures !Refreshed(samples[..n][i]) && !TooLate(0, samples[..n][i])
    {
      Scale(i, n - 1, interval);
      assert samples[i] == Gap(i * interval, i * interval + latency);
    }
    assert samples[..n][0] == samples[0];
    FirstSeenStaysLive(samples[..n]);
    LastEndsExactlyWhen(FRESH, samples, 0);
  }

  /** When four intervals and the latency do not fit, some history ends within four ticks. */
  lemma ShortHistory(interval: int, latency: int) returns (samples: seq<Sample>)
    requires 0 < interval && 0 <= latency && 4 * interval + latency > GRACE
    ensures 2 <= |samples| <= 5 && EndedAtCadence(FRESH, samples, 0, interval, latency)
  {
    var n := if interval + latency > GRACE then 1 else if 2 * interval + latency > GRACE then 2
             else if 3 * interval + latency > GRACE then 3 else 4;
    HistoryEnds(n, interval, latency);
    HistoryKeepsTime(n, interval, latency);
    samples := History(n, interval, latency);
  }

  /**
    * Without conclusive probes the guarantee is gone: a media server unreachable for fifteen
    * minutes leaves the clock running, and one Inactive sample then ends the session.
    */
  lemma OneInactiveSampleCanEnd() returns (samples: seq<Sample>)
    ensures OnAir(FRESH) && Spaced(samples, SWEEP_INTERVAL) && Prompt(samples, 0) && |samples| == 17
    ensures Refreshed(samples[0]) && Absent(samples[16])
    ensures forall i :: 0 < i < 16 ==> samples[i].visit.verdict.Inconclusive?
    ensures After(FRESH, samples).status.Ended?
  {
    samples := seq(17, i => if i == 0 then Seen(0, 0)
                            else if i == 16 then Gap(16 * SWEEP_INTERVAL, 16 * SWEEP_INTERVAL)
                            else Unknown(i * SWEEP_INTERVAL));
    assert samples[0] == Seen(0, 0);
    assert forall i :: 0 <= i < 16 ==> samples[..16][i] == samples[i];
    FirstSeenStaysLive(samples[..16]);
    LastEndsExactlyWhen(FRESH, samples, 0);
  }

  // ---------------------------------------------------------------- reclaiming

  predicate NextAbsent(samples: seq<Sample>, i: nat, j: nat)
    requires i < j < |samples|
  {
    Absent(samples[i]) && Absent(samples[j]) && forall m :: i < m < j ==> !Absent(samples[m])
  }

  /** Of two visits that confirm absence with none between, the later tick is within `gap`. */
  predicate AbsentWithin(samples: seq<Sample>, gap: int) {
    forall i, j :: 0 <= i < j < |samples| && NextAbsent(samples, i, j) ==> samples[j].at <= samples[i].at + gap
  }

  /** Ended later than `close`, by at most `gap`. */
  predicate EndedIn(row: Row, close: int, gap: int) {
    row.status.Ended? && row.endedAt.Some? && close < row.endedAt.value <= close + gap
  }

  /** The first visit that confirms absence comes of a tick at `time` or before. */
  predicate FirstAbsentBy(samples: seq<Sample>, time: int) {
    forall i :: 0 <= i < |samples| && Absent(samples[i]) && (forall m :: 0 <= m < i ==> !Absent(samples[m])) ==>
      samples[i].at <= time
  }

  /** The newest visit that confirmed absence, if any. */
  lemma {:induction false} NewestAbsent(samples: seq<Sample>) returns (j: int)
    ensures -1 <= j < |samples| && (j >= 0 ==> Absent(samples[j]))
    ensures forall i :: j < i < |samples| ==> !Absent(samples[i])
  {
    if samples == [] {
      j := -1;
    } else if Absent(samples[|samples| - 1]) {
      j := |samples| - 1;
    } else {
      j := NewestAbsent(samples[..|samples| - 1]);
    }
  }

  lemma {:induction false} FirstTooLate(seen: int, samples: seq<Sample>) returns (n: nat)
    requires |samples| > 0 && TooLate(seen, samples[|samples| - 1])
    ensures n < |samples| && TooLate(seen, samples[n])
    ensures forall i :: 0 <= i < n ==> !TooLate(seen, samples[i])
  {
    n := |samples| - 1;
    if i :| 0 <= i < |samples| - 1 && TooLate(seen, samples[i]) {
      n := FirstTooLate(seen, samples[..i + 1]);
      assert forall m :: 0 <= m <= i ==> samples[..i + 1][m] == samples[m];
    }
  }

  /**
    * Reclaiming: once the publisher is gone for good, and as soon as some visit confirms absence
    * past the window, the session has been ended, no later than the gap between confirmed
    * visits plus the latency after the window closed. Probes and calls may fail in between.
    */
  lemma AbandonedSessionIsReclaimed(row: Row, samples: seq<Sample>, gap: int, latency: int)
    requires OnAir(row) && |samples| > 0 && AbsentWithin(samples, gap) && Prompt(samples, latency)
    requires forall i :: 0 <= i < |samples| ==> !Refreshed(samples[i])
    requires FirstAbsentBy(samples, InitialClock(row) + GRACE + gap)
    requires TooLate(InitialClock(row), samples[|samples| - 1])
    ensures EndedIn(After(row, samples), InitialClock(row) + GRACE, gap + latency)
  {
    var n := FirstTooLate(InitialClock(row), samples);
    FirstTooLateEnds(row, samples, n);
    var j := NewestAbsent(samples[..n]);
    assert forall m :: 0 <= m < n ==> samples[..n][m] == samples[m];
    assert j >= 0 ==> NextAbsent(samples, j, n) && samples[n].at <= samples[j].at + gap;
  }
}
