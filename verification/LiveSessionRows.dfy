/**
  * One row of `live_sessions` and the statements that write it.
  *
  * Every statement is one SQL UPDATE: it reads the row, tests its WHERE clause and writes
  * the row as a single atomic step. Times are microseconds, the resolution of a Postgres
  * timestamp. `now` is the value of `now()`, which Postgres fixes when the transaction
  * begins and not when the statement executes.
  */
module LiveSessionRows {
  import opened Options

  const MICROS_PER_SECOND := 1_000_000
  const SWEEP_INTERVAL := 60 * MICROS_PER_SECOND
  const GRACE := 15 * 60 * MICROS_PER_SECOND

  datatype Status = Scheduled | Live | Ended | Cancelled

  /** What a probe of the media server says; a transport error says nothing. */
  datatype Verdict = Active | Inactive | Inconclusive

  datatype Row = Row(
    status: Status,
    startedAt: Option<int>,
    endedAt: Option<int>,
    lastSeen: Option<int>,
    mainPath: Option<string>
  )

  function GoLive(row: Row, now: int, path: string): Option<Row> {
    if row.status.Scheduled? || row.status.Live? then
      Some(row.(status := Live,
                startedAt := if row.startedAt.Some? then row.startedAt else Some(now),
                mainPath := Some(path)))
    else
      None
  }

  function EndClass(row: Row, now: int): Option<Row> {
    if row.status.Live? || row.status.Ended? then
      Some(row.(status := Ended, endedAt := if row.endedAt.Some? then row.endedAt else Some(now)))
    else
      None
  }

  /** An administrator's PATCH may only ask for these two states, from any state. */
  predicate Patchable(status: Status) {
    status.Scheduled? || status.Cancelled?
  }

  function MarkSeen(row: Row, now: int): Row {
    row.(lastSeen := Some(now))
  }

  function SeedAbsence(row: Row, now: int): Row {
    if row.lastSeen.None? then
      row.(lastSeen := if row.startedAt.Some? then row.startedAt else Some(now))
    else
      row
  }

  /** The WHERE clause of the ending UPDATE. */
  predicate Gone(row: Row, now: int) {
    row.status.Live? && row.lastSeen.Some? && row.lastSeen.value + GRACE < now
  }

  function EndIfGone(row: Row, now: int): Row {
    if Gone(row, now) then row.(status := Ended, endedAt := Some(now)) else row
  }

  /** Going live is refused to what is over, keeps the first start, and moves nothing else but the path. */
  lemma GoingLive(row: Row, now: int, path: string)
    ensures GoLive(row, now, path).None? <==> row.status.Ended? || row.status.Cancelled?
    ensures GoLive(row, now, path).Some? ==>
      var after := GoLive(row, now, path).value;
      && after.status.Live? && after.mainPath == Some(path)
      && after.startedAt.Some? && (row.startedAt.None? ==> after.startedAt.value == now)
      && (row.startedAt.Some? ==> after.startedAt == row.startedAt)
      && after.endedAt == row.endedAt && after.lastSeen == row.lastSeen
  {}

  /** A class that never began, or was called off, cannot be ended; the first end is kept. */
  lemma EndingClass(row: Row, now: int)
    ensures EndClass(row, now).None? <==> row.status.Scheduled? || row.status.Cancelled?
    ensures EndClass(row, now).Some? ==>
      var after := EndClass(row, now).value;
      && after.status.Ended? && after.endedAt.Some? && (row.endedAt.None? ==> after.endedAt.value == now)
      && (row.endedAt.Some? ==> after.endedAt == row.endedAt)
      && after.startedAt == row.startedAt && after.lastSeen == row.lastSeen && after.mainPath == row.mainPath
  {}

  /** The two calls for an absent publisher, one after the other, in terms of times alone. */
  lemma SeededThenEnded(row: Row, seedAt: int, endAt: int)
    ensures var seeded := SeedAbsence(row, seedAt);
      && seeded.lastSeen.Some? && seeded.(lastSeen := row.lastSeen) == row
      && (row.lastSeen.Some? ==> seeded.lastSeen == row.lastSeen)
      && (row.lastSeen.None? ==> seeded.lastSeen.value == (if row.startedAt.Some? then row.startedAt.value else seedAt))
      && EndIfGone(seeded, endAt) ==
         if row.status.Live? && endAt - seeded.lastSeen.value > 15 * 60 * 1_000_000
         then seeded.(status := Ended, endedAt := Some(endAt)) else seeded
  {}
}
