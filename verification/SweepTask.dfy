/**
  * One tick of the sweep: every live row is probed and its clock refreshed, or seeded and held
  * against the absence window. The database is the mutable store the tick writes through.
  */
module SweepTask {
  import opened Options
  import opened LiveSessionRows

  /** Time attended so far, the beginning of the open segment, and whether one is open. */
  datatype Attendance = Attendance(totalSeconds: int, lastJoined: int, open: bool)

  /** Postgres rounds when it casts an interval's epoch to an integer; negative spans count 0. */
  function SegmentSeconds(from: int, to: int): int {
    if to <= from then 0 else (to - from + MICROS_PER_SECOND / 2) / MICROS_PER_SECOND
  }

  /** A whole number of seconds is a span of microseconds to within half a second, halves up. */
  predicate RoundsTo(micros: int, seconds: int) {
    if micros <= 0 then seconds == 0 else -500_000 < seconds * 1_000_000 - micros <= 500_000
  }

  lemma SecondsAreRounded(from: int, to: int)
    ensures RoundsTo(to - from, SegmentSeconds(from, to))
  {}

  /** An open row is closed with the time since it joined added; a closed one stays as it is. */
  predicate CreditedUpTo(before: Attendance, after: Attendance, now: int) {
    && !after.open && after.lastJoined == before.lastJoined
    && if before.open then RoundsTo(now - before.lastJoined, after.totalSeconds - before.totalSeconds)
       else after == before
  }

  lemma ClosedIsCredited(a: Attendance, now: int)
    ensures CreditedUpTo(a, Closed(a, now), now)
  {
    SecondsAreRounded(a.lastJoined, now);
  }

  function Closed(a: Attendance, now: int): Attendance {
    if a.open then
      a.(totalSeconds := a.totalSeconds + SegmentSeconds(a.lastJoined, now), open := false)
    else
      a
  }

  /** The teacher's handler and a sweep may both finalize: the second changes nothing. */
  lemma ClosedOnce(a: Attendance, first: int, second: int)
    ensures Closed(Closed(a, first), second) == Closed(a, first)
    ensures !Closed(a, first).open && Closed(a, first).totalSeconds >= a.totalSeconds
  {}

  /**
    * What the outside world answers while one session is visited: the probe's verdict, and
    * for each database call its `now()`, or None when the call fails.
    */
  datatype Visit = Visit(
    verdict: Verdict,
    markAt: Option<int>,
    seedAt: Option<int>,
    endAt: Option<int>,
    finalizeAt: Option<int>
  )

  /** A row without a path was never on air: nothing can be publishing, so nothing is probed. */
  function VerdictOn(path: Option<string>, v: Visit): Verdict {
    if path.None? then Inactive else v.verdict
  }

  /**
    * A live row without a path is not at the mercy of the probe: the visit whose UPDATE begins
    * more than the window after its clock, or its start, ends it whatever the probe would say.
    */
  lemma PathlessIsReclaimed(row: Row, v: Visit, verdict: Verdict)
    requires row.status.Live? && row.mainPath.None? && row.startedAt.Some? && v.seedAt.Some? && v.endAt.Some?
    ensures Visited(row, v.(verdict := verdict)) == Visited(row, v)
    ensures var clock := if row.lastSeen.Some? then row.lastSeen.value else row.startedAt.value;
      if clock + 15 * 60 * 1_000_000 < v.endAt.value
      then Visited(row, v).status.Ended? && Visited(row, v).endedAt == v.endAt
      else Visited(row, v).status.Live? && Visited(row, v).lastSeen == Some(clock)
  {}

  function Visited(row: Row, v: Visit): Row {
    match VerdictOn(row.mainPath, v)
    case Active => if v.markAt.Some? then MarkSeen(row, v.markAt.value) else row
    case Inconclusive => row
    case Inactive =>
      if v.seedAt.None? then row
      else
        var seeded := SeedAbsence(row, v.seedAt.value);
        if v.endAt.None? then seeded else EndIfGone(seeded, v.endAt.value)
  }

  /** A call that fails leaves undone what it would have done, and nothing is undone by what comes after. */
  lemma FailedCalls(row: Row, v: Visit)
    requires row.status.Live? && row.mainPath.Some?
    ensures v.verdict.Inconclusive? ==> Visited(row, v) == row
    ensures v.verdict.Active? ==> Visited(row, v) == row.(lastSeen := if v.markAt.Some? then v.markAt else row.lastSeen)
    ensures v.verdict.Inactive? && v.seedAt.None? ==> Visited(row, v) == row
    ensures v.verdict.Inactive? && v.seedAt.Some? && v.endAt.None? ==>
      Visited(row, v) == row.(lastSeen := if row.lastSeen.Some? then row.lastSeen
                                          else if row.startedAt.Some? then row.startedAt else v.seedAt)
  {}

  predicate EndedBy(row: Row, v: Visit) {
    row.status.Live? && Visited(row, v).status.Ended?
  }

  function AttendanceAfter(a: Attendance, row: Row, v: Visit): Attendance {
    if EndedBy(row, v) && v.finalizeAt.Some? then Closed(a, v.finalizeAt.value) else a
  }

  class Database {
    var sessions: map<nat, Row>
    var attendance: map<(nat, nat), Attendance>  // by session and user

    constructor (sessions: map<nat, Row>, attendance: map<(nat, nat), Attendance>)
      ensures this.sessions == sessions && this.attendance == attendance
    {
      this.sessions, this.attendance := sessions, attendance;
    }

    method ListLiveForSweep() returns (ids: seq<nat>)
      ensures forall i, j :: 0 <= i < j < |ids| ==> ids[i] != ids[j]
      ensures forall id :: id in ids <==> id in sessions && sessions[id].status.Live?
    {
      ids := [];
      var left := sessions.Keys;
      while left != {}
        invariant left <= sessions.Keys
        invariant forall i, j :: 0 <= i < j < |ids| ==> ids[i] != ids[j]
        invariant forall id :: id in ids <==> id in sessions - left && sessions[id].status.Live?
        decreases left
      {
        var id :| id in left;
        left := left - {id};
        if sessions[id].status.Live? {
          ids := ids + [id];
        }
      }
    }

    method MarkPublisherSeen(id: nat, now: int)
      requires id in sessions
      modifies this`sessions
      ensures sessions == old(sessions)[id := MarkSeen(old(sessions[id]), now)]
    {
      sessions := sessions[id := sessions[id].(lastSeen := Some(now))];
    }

    method SeedPublisherAbsence(id: nat, now: int)
      requires id in sessions
      modifies this`sessions
      ensures sessions == old(sessions)[id := SeedAbsence(old(sessions[id]), now)]
    {
      if sessions[id].lastSeen.None? {
        var started := sessions[id].startedAt;
        sessions := sessions[id := sessions[id].(lastSeen := if started.Some? then started else Some(now))];
      }
    }

    method EndIfPublisherGone(id: nat, now: int) returns (ended: bool)
      requires id in sessions
      modifies this`sessions
      ensures ended == Gone(old(sessions[id]), now)
      ensures sessions == old(sessions)[id := EndIfGone(old(sessions[id]), now)]
    {
      var row := sessions[id];
      ended := row.status.Live? && row.lastSeen.Some? && row.lastSeen.value + GRACE < now;
      if ended {
        sessions := sessions[id := row.(status := Ended, endedAt := Some(now))];
      }
    }

    method FinalizeOpenForSession(id: nat, now: int)
      modifies this`attendance
      ensures attendance.Keys == old(attendance.Keys)
      ensures forall k :: k in attendance ==>
        attendance[k] == if k.0 == id then Closed(old(attendance[k]), now) else old(attendance[k])
      ensures forall k :: k in attendance && k.0 == id ==> CreditedUpTo(old(attendance[k]), attendance[k], now)
    {
      forall k | k in attendance
        ensures CreditedUpTo(attendance[k], Closed(attendance[k], now), now)
      {
        ClosedIsCredited(attendance[k], now);
      }
      attendance := map k | k in attendance :: if k.0 == id then Closed(attendance[k], now) else attendance[k];
    }

    /** The body of the loop over candidates. */
    method VisitSession(id: nat, v: Visit)
      requires id in sessions && sessions[id].status.Live?
      modifies this
      ensures sessions == old(sessions)[id := Visited(old(sessions[id]), v)]
      ensures attendance.Keys == old(attendance.Keys)
      ensures forall k :: k in attendance ==>
        attendance[k] ==
        if k.0 == id then AttendanceAfter(old(attendance[k]), old(sessions[id]), v) else old(attendance[k])
    {
      var path := sessions[id].mainPath;
      var verdict := if path.Some? then v.verdict else Inactive;
      match verdict {
        case Active =>
          if v.markAt.Some? {
            MarkPublisherSeen(id, v.markAt.value);
          }
        case Inconclusive =>
        case Inactive =>
          if v.seedAt.None? {
            return;
          }
          SeedPublisherAbsence(id, v.seedAt.value);
          if v.endAt.Some? {
            var ended := EndIfPublisherGone(id, v.endAt.value);
            if ended && v.finalizeAt.Some? {
              FinalizeOpenForSession(id, v.finalizeAt.value);
            }
          }
      }
    }

    /**
      * A whole tick treats every session independently: live rows are visited once, other
      * rows keep their state, and exactly the sessions ended here have attendance closed.
      */
    method Sweep(visits: nat -> Visit)
      modifies this
      ensures sessions.Keys == old(sessions.Keys)
      ensures forall id :: id in sessions ==>
        sessions[id] ==
        if old(sessions[id].status.Live?) then Visited(old(sessions[id]), visits(id)) else old(sessions[id])
      ensures attendance.Keys == old(attendance.Keys)
      ensures forall k :: k in attendance ==>
        attendance[k] ==
        if k.0 in old(sessions) then AttendanceAfter(old(attendance[k]), old(sessions[k.0]), visits(k.0))
        else old(attendance[k])
      ensures forall k :: k in attendance ==>
        if k.0 in sessions && old(sessions[k.0].status.Live?) && sessions[k.0].status.Ended? && visits(k.0).finalizeAt.Some?
        then CreditedUpTo(old(attendance[k]), attendance[k], visits(k.0).finalizeAt.value)
        else attendance[k] == old(attendance[k])
    {
      var ids := ListLiveForSweep();
      for i := 0 to |ids|
        invariant sessions.Keys == old(sessions.Keys) && attendance.Keys == old(attendance.Keys)
        invariant forall j :: i <= j < |ids| ==> sessions[ids[j]] == old(sessions[ids[j]])
        invariant forall id :: id in sessions ==>
          sessions[id] ==
          if id in ids[..i] then Visited(old(sessions[id]), visits(id)) else old(sessions[id])
        invariant forall k :: k in attendance ==>
          attendance[k] ==
          if k.0 in ids[..i] then AttendanceAfter(old(attendance[k]), old(sessions[k.0]), visits(k.0))
          else old(attendance[k])
      {
        VisitSession(ids[i], visits(ids[i]));
        assert ids[..i + 1] == ids[..i] + [ids[i]];
      }
      assert ids[..|ids|] == ids;
      forall k | k in attendance
        ensures visits(k.0).finalizeAt.Some? ==>
          CreditedUpTo(old(attendance[k]), Closed(old(attendance[k]), visits(k.0).finalizeAt.value), visits(k.0).finalizeAt.value)
      {
        if visits(k.0).finalizeAt.Some? {
          ClosedIsCredited(old(attendance[k]), visits(k.0).finalizeAt.value);
        }
      }
    }
  }
}
