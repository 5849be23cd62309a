/**
  * When a teacher ends a class: which end time is recorded, and what it does to the time
  * attended. The handler closes open attendance at the recorded end, not at the present.
  */
module ClassEnd {
  import opened Options
  import opened LiveSessionRows
  import opened SweepProtocol
  import opened SweepTask

  /** Ending a class that has ended, by whichever hand, leaves its row as it is. */
  lemma EndingAgainChangesNothing(lag: nat, start: int, events: seq<Event>, s: State, ts: int)
    requires Play(lag, start, events) == Some(s) && s.row.status.Ended?
    ensures EndClass(s.row, ts) == Some(s.row)
  {
    RunInv(lag, start, events, s);
  }

  /** A session nobody puts back to scheduled has no end on record before it ends. */
  lemma {:induction false} NoEndBeforeTheEnd(lag: nat, start: int, events: seq<Event>, s: State)
    requires Play(lag, start, events) == Some(s) && NeverRescheduled(events)
    ensures s.row.status.Live? || s.row.status.Scheduled? ==> s.row.endedAt == None
  {
    if events != [] {
      var front := events[..|events| - 1];
      NoEndBeforeTheEnd(lag, start, front, Play(lag, start, front).value);
    }
  }

  /** What an attendee is credited with in total when the teacher ends the class at `ts`. */
  function Credited(row: Row, ts: int, a: Attendance): int
    requires row.status.Live?
  {
    Closed(a, EndClass(row, ts).value.endedAt.value).totalSeconds
  }

  /**
    * An attendee who joined since any earlier end is credited up to the moment the teacher
    * ends the class exactly when there was no earlier end; otherwise with nothing at all.
    */
  lemma LastSegmentCountsIff(row: Row, ts: int, a: Attendance)
    requires row.status.Live? && a.open && SegmentSeconds(a.lastJoined, ts) > 0
    requires row.endedAt.Some? ==> row.endedAt.value <= a.lastJoined
    ensures Credited(row, ts, a) == a.totalSeconds + SegmentSeconds(a.lastJoined, ts) <==> row.endedAt.None?
    ensures Credited(row, ts, a) == a.totalSeconds <==> row.endedAt.Some?
  {}

  /** Hence in every run without rescheduling nobody's last segment is lost. */
  lemma LastSegmentCounts(lag: nat, start: int, events: seq<Event>, s: State, ts: int, a: Attendance)
    requires Play(lag, start, events) == Some(s) && NeverRescheduled(events) && s.row.status.Live? && a.open
    ensures RoundsTo(ts - a.lastJoined, Credited(s.row, ts, a) - a.totalSeconds)
  {
    NoEndBeforeTheEnd(lag, start, events, s);
    SecondsAreRounded(a.lastJoined, ts);
  }

  const MINUTE := 60 * MICROS_PER_SECOND

  /**
    * A class ended after a minute, rescheduled and held again keeps its first end: somebody
    * who attends its third minute is credited with nothing.
    */
  lemma SecondClassKeepsFirstEnd() returns (events: seq<Event>, s: State)
    ensures Play(0, 0, events) == Some(s) && s.row.status.Live? && s.now == 3 * MINUTE
    ensures EndClass(s.row, s.now).value.endedAt == Some(MINUTE)
    ensures Credited(s.row, s.now, Attendance(0, 2 * MINUTE, true)) == 0
    ensures SegmentSeconds(2 * MINUTE, s.now) == 60
  {
    events, s := PlayOn(0, 0, [], Created(0), TeacherGoLive(0, "p"));
    events, s := PlayOn(0, 0, events, s, Elapse(MINUTE));
    events, s := PlayOn(0, 0, events, s, TeacherEnd(MINUTE));
    events, s := PlayOn(0, 0, events, s, AdminPatch(Scheduled));
    events, s := PlayOn(0, 0, events, s, Elapse(MINUTE));
    events, s := PlayOn(0, 0, events, s, TeacherGoLive(2 * MINUTE, "p"));
    events, s := PlayOn(0, 0, events, s, Elapse(MINUTE));
  }
}
