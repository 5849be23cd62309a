/**
  * Any number of sweepers (one task per replica) racing over one live session.
  *
  * A sweeper's pass is: list the live row, probe the media server, then either refresh the
  * absence clock or seed it and try to end the session. Each database call is a transaction
  * that begins (fixing its `now()`) and commits later; other sweepers, the teacher and an
  * administrator may act between any two of those moments. `lag` bounds the time between
  * the beginning of a transaction and its commit. A failed call, or a crash, abandons the pass.
  * The publisher comes and goes on its own; a conclusive probe of a recorded path says
  * whether it is there.
  */
module SweepProtocol {
  import opened Options
  import opened LiveSessionRows

  type Worker = nat

  /** Where a sweeper stands in its pass over the session. */
  datatype Pc =
    | Idle
    | Listed(path: Option<string>)
    | Present
    | Marking(ts: int)
    | Absent
    | Seeding(ts: int)
    | Seeded
    | Ending(ts: int)
    | Finalizing

  /** A committed refresh of the clock: the timestamp it wrote and when it committed. */
  datatype Refresh = Refresh(ts: int, at: int)

  /**
    * `refreshes`, `spells` (scheduled-to-live transitions), `sweepEnds` and `finalized` are
    * history: no step reads them.
    */
  datatype State = State(
    now: int,
    publishing: bool,
    row: Row,
    pcs: map<Worker, Pc>,
    refreshes: seq<Refresh>,
    spells: nat,
    sweepEnds: nat,
    finalized: nat
  )

  datatype Event =
    | Elapse(d: nat)
    | Publish
    | Unpublish
    | List(w: Worker)
    | Probe(w: Worker, verdict: Verdict)
    | BeginMark(w: Worker)
    | CommitMark(w: Worker)
    | BeginSeed(w: Worker)
    | CommitSeed(w: Worker)
    | BeginEnd(w: Worker)
    | CommitEnd(w: Worker)
    | Finalize(w: Worker)
    | Abandon(w: Worker)
    | TeacherGoLive(ts: int, path: string)
    | TeacherEnd(ts: int)
    | AdminPatch(status: Status)

  function PcOf(s: State, w: Worker): Pc {
    if w in s.pcs then s.pcs[w] else Idle
  }

  function Goto(s: State, w: Worker, pc: Pc): State {
    s.(pcs := s.pcs[w := pc])
  }

  /** A transaction stamped `ts` may still be open. */
  predicate Open(lag: nat, s: State, ts: int) {
    ts <= s.now <= ts + lag
  }

  /** A step of some sweeper `e.w`, as opposed to the passage of time or another actor. */
  predicate BySweeper(e: Event) {
    !e.Elapse? && !e.Publish? && !e.Unpublish? && !e.TeacherGoLive? && !e.TeacherEnd? && !e.AdminPatch?
  }

  /** What a probe may answer: a session without a path is not probed and counts as off air. */
  predicate MayAnswer(path: Option<string>, publishing: bool, verdict: Verdict) {
    match verdict
    case Active => path.Some? && publishing
    case Inactive => path.None? || !publishing
    case Inconclusive => path.Some?
  }

  predicate Enabled(lag: nat, s: State, e: Event) {
    match e
    case Elapse(_) => true
    case Publish => true
    case Unpublish => true
    case List(w) => PcOf(s, w).Idle? && s.row.status.Live?
    case Probe(w, verdict) => PcOf(s, w).Listed? && MayAnswer(PcOf(s, w).path, s.publishing, verdict)
    case BeginMark(w) => PcOf(s, w).Present?
    case CommitMark(w) => PcOf(s, w).Marking? && Open(lag, s, PcOf(s, w).ts)
    case BeginSeed(w) => PcOf(s, w).Absent?
    case CommitSeed(w) => PcOf(s, w).Seeding? && Open(lag, s, PcOf(s, w).ts)
    case BeginEnd(w) => PcOf(s, w).Seeded?
    case CommitEnd(w) => PcOf(s, w).Ending? && Open(lag, s, PcOf(s, w).ts)
    case Finalize(w) => PcOf(s, w).Finalizing?
    case Abandon(_) => true
    case TeacherGoLive(ts, path) => Open(lag, s, ts) && GoLive(s.row, ts, path).Some?
    case TeacherEnd(ts) => Open(lag, s, ts) && EndClass(s.row, ts).Some?
    case AdminPatch(status) => Patchable(status)
  }

  function Apply(lag: nat, s: State, e: Event): State
    requires Enabled(lag, s, e)
  {
    match e
    case Elapse(d) => s.(now := s.now + d)
    case Publish => s.(publishing := true)
    case Unpublish => s.(publishing := false)
    case List(w) => Goto(s, w, Listed(s.row.mainPath))
    case Probe(w, verdict) =>
      Goto(s, w, match verdict case Active => Present case Inactive => Absent case Inconclusive => Idle)
    case BeginMark(w) => Goto(s, w, Marking(s.now))
    case CommitMark(w) =>
      var ts := PcOf(s, w).ts;
      Goto(s, w, Idle).(row := MarkSeen(s.row, ts), refreshes := s.refreshes + [Refresh(ts, s.now)])
    case BeginSeed(w) => Goto(s, w, Seeding(s.now))
    case CommitSeed(w) => Goto(s, w, Seeded).(row := SeedAbsence(s.row, PcOf(s, w).ts))
    case BeginEnd(w) => Goto(s, w, Ending(s.now))
    case CommitEnd(w) =>
      var ts := PcOf(s, w).ts;
      if Gone(s.row, ts)
      then Goto(s, w, Finalizing).(row := EndIfGone(s.row, ts), sweepEnds := s.sweepEnds + 1)
      else Goto(s, w, Idle)
    case Finalize(w) => Goto(s, w, Idle).(finalized := s.finalized + 1)
    case Abandon(w) => Goto(s, w, Idle)
    case TeacherGoLive(ts, path) =>
      s.(row := GoLive(s.row, ts, path).value,
         spells := if s.row.status.Live? then s.spells else s.spells + 1)
    case TeacherEnd(ts) => s.(row := EndClass(s.row, ts).value)
    case AdminPatch(status) => s.(row := s.row.(status := status))
  }

  /** The session has been created and never started. */
  function Created(now: int): State {
    State(now, false, Row(Scheduled, None, None, None, None), map[], [], 0, 0, 0)
  }

  /** The state a run ends in; None when the events are not a run. */
  function Play(lag: nat, start: int, events: seq<Event>): Option<State> {
    if events == [] then
      Some(Created(start))
    else
      var before := Play(lag, start, events[..|events| - 1]);
      var e := events[|events| - 1];
      if before.Some? && Enabled(lag, before.value, e) then Some(Apply(lag, before.value, e)) else None
  }

  lemma PlayMore(lag: nat, start: int, events: seq<Event>, s: State, e: Event)
    requires Play(lag, start, events) == Some(s) && Enabled(lag, s, e)
    ensures Play(lag, start, events + [e]) == Some(Apply(lag, s, e))
  {
    assert (events + [e])[..|events + [e]| - 1] == events;
  }

  // ---------------------------------------------------------------- invariants

  /** The session has started, no later than `t`. */
  predicate StartedBy(row: Row, t: int) {
    row.startedAt.Some? && row.startedAt.value <= t
  }

  ghost predicate RowInv(s: State) {
    && (s.row.startedAt.Some? ==> s.row.startedAt.value <= s.now)
    && (s.row.status.Live? ==> s.row.startedAt.Some?)
    && (s.row.status.Ended? ==> s.row.endedAt.Some?)
    && (s.row.lastSeen.Some? ==> StartedBy(s.row, s.row.lastSeen.value))
    && (forall w :: w in s.pcs ==> PcInv(s, s.pcs[w]))
  }

  /** A sweeper in mid-pass has seen the session live, so its start was on record. */
  predicate PcInv(s: State, pc: Pc) {
    && (!pc.Idle? ==> StartedBy(s.row, s.now))
    && (pc.Marking? ==> StartedBy(s.row, pc.ts))
    && (pc.Seeded? || pc.Ending? ==> s.row.lastSeen.Some?)
  }

  /** The clock holds the last committed refresh, or the start; refreshes are in commit order. */
  ghost predicate RefreshInv(lag: nat, s: State) {
    && (s.refreshes != [] ==> s.row.lastSeen == Some(s.refreshes[|s.refreshes| - 1].ts))
    && (s.refreshes == [] && s.row.lastSeen.Some? ==> s.row.lastSeen == s.row.startedAt)
    && (forall i :: 0 <= i < |s.refreshes| ==>
          var r := s.refreshes[i]; r.ts <= r.at <= r.ts + lag && r.at <= s.now)
    && (forall i, j :: 0 <= i < j < |s.refreshes| ==> s.refreshes[i].at <= s.refreshes[j].at)
  }

  /** Sweepers that ended the session and have still to close its attendance. */
  ghost function Owing(s: State): set<Worker> {
    set w | w in s.pcs && s.pcs[w].Finalizing?
  }

  ghost predicate CountInv(s: State) {
    && s.finalized + |Owing(s)| <= s.sweepEnds
    && s.sweepEnds + (if s.row.status.Live? then 1 else 0) <= s.spells
  }

  lemma RowStep(lag: nat, s: State, e: Event)
    requires RowInv(s) && Enabled(lag, s, e)
    ensures RowInv(Apply(lag, s, e))
  {
    var t := Apply(lag, s, e);
    forall w | w in t.pcs
      ensures PcInv(t, t.pcs[w])
    {
      if BySweeper(e) && w == e.w {
        assert w in s.pcs ==> PcInv(s, s.pcs[w]);
      } else {
        assert PcInv(s, s.pcs[w]);
      }
    }
    if e.CommitMark? {
      assert PcInv(s, s.pcs[e.w]);
    }
  }

  lemma RefreshStep(lag: nat, s: State, e: Event)
    requires RowInv(s) && RefreshInv(lag, s) && Enabled(lag, s, e)
    ensures RefreshInv(lag, Apply(lag, s, e))
  {
    if e.CommitSeed? {
      assert PcInv(s, s.pcs[e.w]);
    }
  }

  lemma OwingAfterGoto(s: State, w: Worker, pc: Pc)
    ensures Owing(Goto(s, w, pc)) == if pc.Finalizing? then Owing(s) + {w} else Owing(s) - {w}
    ensures w in Owing(s) <==> PcOf(s, w).Finalizing?
  {}

  /** Only an ending UPDATE makes a sweeper owe a finalization. */
  lemma NobodyNewOwes(lag: nat, s: State, e: Event)
    requires Enabled(lag, s, e) && !e.CommitEnd?
    ensures Owing(Apply(lag, s, e)) <= Owing(s)
  {}

  lemma SubsetSize(a: set<Worker>, b: set<Worker>)
    requires a <= b
    ensures |a| <= |b|
  {
    assert b == a + (b - a);
  }

  lemma CountStep(lag: nat, s: State, e: Event)
    requires CountInv(s) && Enabled(lag, s, e)
    ensures CountInv(Apply(lag, s, e))
  {
    var t := Apply(lag, s, e);
    if e.CommitEnd? || e.Finalize? {
      OwingAfterGoto(s, e.w, t.pcs[e.w]);
      assert t.pcs == Goto(s, e.w, t.pcs[e.w]).pcs && Owing(t) == Owing(Goto(s, e.w, t.pcs[e.w]));
      assert |Owing(s) + {e.w}| <= |Owing(s)| + 1;
      assert e.w in Owing(s) ==> |Owing(s) - {e.w}| == |Owing(s)| - 1;
    } else {
      NobodyNewOwes(lag, s, e);
      SubsetSize(Owing(t), Owing(s));
    }
  }

  lemma {:induction false} RunInv(lag: nat, start: int, events: seq<Event>, s: State)
    requires Play(lag, start, events) == Some(s)
    ensures RowInv(s) && RefreshInv(lag, s) && CountInv(s)
  {
    if events == [] {
      assert Owing(s) == {};
    } else {
      var front, e := events[..|events| - 1], events[|events| - 1];
      var before := Play(lag, start, front).value;
      RunInv(lag, start, front, before);
      RowStep(lag, before, e);
      RefreshStep(lag, before, e);
      CountStep(lag, before, e);
    }
  }

  // ---------------------------------------------------------------- what ends a session

  /** After the run `events`, sweeper `w`'s UPDATE is about to end the live session. */
  ghost predicate SweepEnds(lag: nat, start: int, events: seq<Event>, s: State, w: Worker) {
    && Play(lag, start, events) == Some(s)
    && Enabled(lag, s, CommitEnd(w))
    && Gone(s.row, PcOf(s, w).ts)
  }

  /** Every refresh committed so far lies more than `span` before the present. */
  ghost predicate NoRefreshWithin(s: State, span: int) {
    forall i :: 0 <= i < |s.refreshes| ==> s.refreshes[i].at + span < s.now
  }

  /**
    * Whatever the interleaving, a sweep ends a session only when every refresh committed so
    * far lies more than `GRACE - lag` back, and only later than its start plus the window.
    */
  lemma SweepEndsOnlyAbandoned(lag: nat, start: int, events: seq<Event>, s: State, w: Worker)
    requires SweepEnds(lag, start, events, s, w)
    ensures NoRefreshWithin(s, GRACE - lag)
    ensures s.row.startedAt.Some? && s.row.startedAt.value + GRACE < s.now
  {
    RunInv(lag, start, events, s);
    forall i | 0 <= i < |s.refreshes|
      ensures s.refreshes[i].at + (GRACE - lag) < s.now
    {
      assert s.refreshes[i].at <= s.refreshes[|s.refreshes| - 1].at;
    }
  }

  /** No sweep ends a session within a window of a refresh's commit, in any run. */
  ghost predicate HonoursRefreshes(lag: nat) {
    forall start: int, events: seq<Event>, s: State, w: Worker {:trigger SweepEnds(lag, start, events, s, w)} ::
      SweepEnds(lag, start, events, s, w) ==> NoRefreshWithin(s, GRACE)
  }

  /**
    * A session goes live at time 0, is seen publishing by a refresh that commits `d`
    * microseconds after it begins, and is found without a publisher `GRACE` later still.
    */
  lemma AbandonedRun(lag: nat, d: nat) returns (events: seq<Event>, s: State)
    requires d <= lag
    ensures Play(lag, 0, events) == Some(s)
    ensures s == State(d + GRACE, false, Row(Live, Some(0), None, Some(0), Some("p")), map[0 := Ending(d + GRACE)],
                       [Refresh(0, d)], 1, 0, 0)
  {
    events, s := SeenOnce(lag, d);
    events, s := LeaveFor(lag, 0, events, s, GRACE);
    events, s := SweepAbsent(lag, 0, events, s);
    assert map[0 := Idle][0 := Ending(d + GRACE)] == map[0 := Ending(d + GRACE)];
  }

  lemma SeenOnce(lag: nat, d: nat) returns (events: seq<Event>, s: State)
    requires d <= lag
    ensures Play(lag, 0, events) == Some(s)
    ensures s == State(d, true, Row(Live, Some(0), None, Some(0), Some("p")), map[0 := Idle], [Refresh(0, d)], 1, 0, 0)
  {
    events, s := OnAir(lag);
    events, s := SweepPresent(lag, 0, events, s, d);
  }

  /** A session that has just gone live, and is. */
  lemma OnAir(lag: nat) returns (events: seq<Event>, s: State)
    ensures Play(lag, 0, events) == Some(s)
    ensures s == State(0, true, Row(Live, Some(0), None, None, Some("p")), map[], [], 1, 0, 0)
  {
    events, s := PlayOn(lag, 0, [], Created(0), TeacherGoLive(0, "p"));
    events, s := PlayOn(lag, 0, events, s, Publish);
  }

  /** The publisher goes away and time passes. */
  lemma LeaveFor(lag: nat, start: int, events: seq<Event>, s: State, d: nat) returns (events': seq<Event>, s': State)
    requires Play(lag, start, events) == Some(s)
    ensures Play(lag, start, events') == Some(s') && events <= events'
    ensures s' == s.(publishing := false, now := s.now + d)
  {
    events', s' := PlayOn(lag, start, events, s, Unpublish);
    events', s' := PlayOn(lag, start, events', s', Elapse(d));
  }

  lemma PlayOn(lag: nat, start: int, events: seq<Event>, s: State, e: Event) returns (events': seq<Event>, s': State)
    requires Play(lag, start, events) == Some(s) && Enabled(lag, s, e)
    ensures Play(lag, start, events') == Some(s') && s' == Apply(lag, s, e)
    ensures events' == events + [e]
  {
    PlayMore(lag, start, events, s, e);
    events', s' := events + [e], Apply(lag, s, e);
  }

  /** Sweeper 0 lists a live session, finds its publisher and takes `d` to commit the refresh. */
  lemma SweepPresent(lag: nat, start: int, events: seq<Event>, s: State, d: nat) returns (events': seq<Event>, s': State)
    requires Play(lag, start, events) == Some(s) && s.row.status.Live? && s.row.mainPath.Some? && PcOf(s, 0).Idle?
    requires d <= lag && s.publishing
    ensures Play(lag, start, events') == Some(s')
    ensures s' == s.(now := s.now + d, row := s.row.(lastSeen := Some(s.now)), pcs := s.pcs[0 := Idle],
                     refreshes := s.refreshes + [Refresh(s.now, s.now + d)])
  {
    events', s' := PlayOn(lag, start, events, s, List(0));
    events', s' := PlayOn(lag, start, events', s', Probe(0, Active));
    events', s' := PlayOn(lag, start, events', s', BeginMark(0));
    events', s' := PlayOn(lag, start, events', s', Elapse(d));
    events', s' := PlayOn(lag, start, events', s', CommitMark(0));
  }

  /** Sweeper 0 ends an abandoned session and closes its attendance. */
  lemma SweepAndFinalize(lag: nat, start: int, events: seq<Event>, s: State) returns (events': seq<Event>, s': State)
    requires Play(lag, start, events) == Some(s) && Gone(s.row, s.now) && PcOf(s, 0).Idle? && !s.publishing
    ensures Play(lag, start, events') == Some(s')
    ensures events <= events' && PcOf(s', 0).Idle? && s'.now == s.now && !s'.publishing
    ensures s'.row == EndIfGone(s.row, s.now) && s'.finalized == s.finalized + 1
  {
    events', s' := SweepAbsent(lag, start, events, s);
    events', s' := PlayOn(lag, start, events', s', CommitEnd(0));
    events', s' := PlayOn(lag, start, events', s', Finalize(0));
  }

  /** Sweeper 0 lists a live session, finds no publisher and goes as far as its ending UPDATE. */
  lemma SweepAbsent(lag: nat, start: int, events: seq<Event>, s: State) returns (events': seq<Event>, s': State)
    requires Play(lag, start, events) == Some(s) && s.row.status.Live? && s.row.lastSeen.Some? && PcOf(s, 0).Idle?
    requires !s.publishing
    ensures Play(lag, start, events') == Some(s')
    ensures events <= events'
    ensures s' == s.(pcs := s.pcs[0 := Ending(s.now)])
  {
    events', s' := PlayOn(lag, start, events, s, List(0));
    events', s' := PlayOn(lag, start, events', s', Probe(0, Inactive));
    assert s' == s.(pcs := s.pcs[0 := Absent]);
    events', s' := EndAfterProbe(lag, start, events', s');
  }

  /**
    * Committed refreshes are honoured for a full window exactly when transactions commit the
    * instant they begin: `now()` is the time a transaction starts, so a delayed refresh
    * counts from before its commit. A publisher that is back but not yet recorded in the
    * clock is another matter, see below.
    */
  lemma HonoursRefreshesIffNoLag(lag: nat)
    ensures HonoursRefreshes(lag) <==> lag == 0
  {
    if lag == 0 {
      forall start: int, events: seq<Event>, s: State, w: Worker | SweepEnds(lag, start, events, s, w)
        ensures NoRefreshWithin(s, GRACE)
      {
        SweepEndsOnlyAbandoned(lag, start, events, s, w);
      }
    } else {
      var events, s := AbandonedRun(lag, 1);
      assert SweepEnds(lag, 0, events, s, 0);
      assert s.refreshes[0].at + GRACE == s.now;
    }
  }

  // ---------------------------------------------------------------- a publisher that returns

  /** The promise about a returning publisher: no run ends a session that is on air again. */
  ghost predicate SparesReturned(lag: nat) {
    forall start: int, events: seq<Event>, s: State, w: Worker {:trigger SweepEnds(lag, start, events, s, w)} ::
      SweepEnds(lag, start, events, s, w) ==> !s.publishing
  }

  /** What the last committed write to the clock left there. */
  function Clock(s: State): Option<int> {
    if s.refreshes != [] then Some(s.refreshes[|s.refreshes| - 1].ts) else s.row.startedAt
  }

  /**
    * The exact guard, over every run: a sweeper's UPDATE spares a live session, returned
    * publisher or not, if and only if the last committed clock write (the start of the
    * session when there was no refresh) is no older than the UPDATE's own timestamp minus
    * the window. Whether the publisher is there does not enter.
    */
  lemma UpdateSparesIff(lag: nat, start: int, events: seq<Event>, s: State, w: Worker)
    requires Play(lag, start, events) == Some(s) && Enabled(lag, s, CommitEnd(w)) && s.row.status.Live?
    ensures Clock(s).Some?
    ensures Apply(lag, s, CommitEnd(w)).row.status.Live? <==> PcOf(s, w).ts - GRACE <= Clock(s).value
    ensures Apply(lag, s, CommitEnd(w)).row.status.Ended? <==> Clock(s).value < PcOf(s, w).ts - GRACE
  {
    RunInv(lag, start, events, s);
    assert PcInv(s, s.pcs[w]);
  }

  /** A session goes live at time 0 and nobody publishes for just over the window. */
  lemma NeverOnAir(lag: nat) returns (events: seq<Event>, s: State)
    ensures Play(lag, 0, events) == Some(s) && events == [TeacherGoLive(0, "p"), Elapse(GRACE + 1)]
    ensures s == State(GRACE + 1, false, Row(Live, Some(0), None, None, Some("p")), map[], [], 1, 0, 0)
  {
    events, s := PlayOn(lag, 0, [], Created(0), TeacherGoLive(0, "p"));
    events, s := PlayOn(lag, 0, events, s, Elapse(GRACE + 1));
  }

  /**
    * A lone sweeper, whatever the lag: its probe finds nobody, the publisher returns before
    * the UPDATE begins, and the session is ended under it.
    */
  lemma ReturnedPublisherIsCutOff(lag: nat) returns (events: seq<Event>, s: State)
    ensures SweepEnds(lag, 0, events, s, 0) && s.publishing
    ensures forall i :: 0 <= i < |events| && BySweeper(events[i]) ==> events[i].w == 0
  {
    events, s := NeverOnAir(lag);
    events, s := PlayOn(lag, 0, events, s, List(0));
    events, s := PlayOn(lag, 0, events, s, Probe(0, Inactive));
    events, s := PlayOn(lag, 0, events, s, Publish);
    events, s := EndAfterProbe(lag, 0, events, s);
  }

  /** Even a second sweeper that has seen the publisher does not help until it has committed. */
  lemma SeenPublisherIsCutOff(lag: nat) returns (events: seq<Event>, s: State)
    ensures SweepEnds(lag, 0, events, s, 0) && s.publishing && PcOf(s, 1).Present?
  {
    events, s := NeverOnAir(lag);
    events, s := PlayOn(lag, 0, events, s, List(0));
    events, s := PlayOn(lag, 0, events, s, List(1));
    events, s := PlayOn(lag, 0, events, s, Probe(0, Inactive));
    events, s := PlayOn(lag, 0, events, s, Publish);
    assert s.pcs == map[0 := Absent, 1 := Listed(Some("p"))];
    events, s := PlayOn(lag, 0, events, s, Probe(1, Active));
    assert s.pcs == map[0 := Absent, 1 := Present];
    events, s := EndAfterProbe(lag, 0, events, s);
  }

  /** Sweeper 0 goes on from an inactive probe to its UPDATE. */
  lemma EndAfterProbe(lag: nat, start: int, events: seq<Event>, s: State) returns (events': seq<Event>, s': State)
    requires Play(lag, start, events) == Some(s) && PcOf(s, 0).Absent?
    ensures Play(lag, start, events') == Some(s')
    ensures events' == events + [BeginSeed(0), CommitSeed(0), BeginEnd(0)]
    ensures s' == s.(row := SeedAbsence(s.row, s.now), pcs := s.pcs[0 := Ending(s.now)])
  {
    events', s' := PlayOn(lag, start, events, s, BeginSeed(0));
    events', s' := PlayOn(lag, start, events', s', CommitSeed(0));
    events', s' := PlayOn(lag, start, events', s', BeginEnd(0));
  }

  /** So the promise to spare a returned publisher fails however prompt the database is. */
  lemma ReturnedPublisherIsNeverSafe(lag: nat)
    ensures !SparesReturned(lag)
  {
    var events, s := ReturnedPublisherIsCutOff(lag);
  }

  /** One pass of sweeper `w` after its probe, with no other sweeper about. */
  ghost predicate LonePass(events: seq<Event>, w: Worker) {
    forall i :: 0 <= i < |events| && BySweeper(events[i]) ==> events[i].w == w && !events[i].List?
  }

  /**
    * What the re-check protects when one sweeper runs: nothing that happens after its probe.
    * No publisher's return moves the clock before the UPDATE, which spares the session exactly
    * when its timestamp is within the window of the clock as it stood at the probe.
    */
  lemma LoneRecheckSeesOnlyItsProbe(lag: nat, start: int, events: seq<Event>, s: State, later: seq<Event>, s': State, w: Worker)
    requires Play(lag, start, events) == Some(s) && PcOf(s, w).Absent?
    requires Play(lag, start, events + later) == Some(s') && LonePass(later, w)
    requires Enabled(lag, s', CommitEnd(w)) && s'.row.status.Live?
    ensures Clock(s').Some? && Clock(s') == Clock(s)
    ensures Apply(lag, s', CommitEnd(w)).row.status.Live? <==> PcOf(s', w).ts - GRACE <= Clock(s).value
  {
    LonePassKeepsClock(lag, start, events, s, later, s', w);
    UpdateSparesIff(lag, start, events + later, s', w);
  }

  lemma {:induction false} LonePassKeepsClock(lag: nat, start: int, events: seq<Event>, s: State, later: seq<Event>, s': State, w: Worker)
    requires Play(lag, start, events) == Some(s) && PcOf(s, w).Absent?
    requires Play(lag, start, events + later) == Some(s') && LonePass(later, w)
    ensures s'.refreshes == s.refreshes && s'.row.startedAt == s.row.startedAt
    ensures !PcOf(s', w).Listed? && !PcOf(s', w).Present? && !PcOf(s', w).Marking?
  {
    if later == [] {
      assert events + later == events;
    } else {
      var front := later[..|later| - 1];
      assert (events + later)[..|events + later| - 1] == events + front;
      var before := Play(lag, start, events + front).value;
      LonePassKeepsClock(lag, start, events, s, front, before, w);
      RunInv(lag, start, events, s);
      StartIsKept(lag, start, events + front, before);
    }
  }

  /** A start time on record is never changed. */
  lemma StartIsKept(lag: nat, start: int, events: seq<Event>, s: State)
    requires Play(lag, start, events) == Some(s) && s.row.startedAt.Some?
    ensures forall e :: Enabled(lag, s, e) ==> Apply(lag, s, e).row.startedAt == s.row.startedAt
  {}

  /** No sweeper ever sees the session without a publisher. */
  ghost predicate AlwaysPublishing(events: seq<Event>) {
    forall i :: 0 <= i < |events| ==> events[i].Probe? ==> !events[i].verdict.Inactive?
  }

  /** Age alone never ends a session, even when every refresh of its clock fails. */
  lemma {:induction false} PublishingSessionSurvives(lag: nat, start: int, events: seq<Event>, s: State)
    requires Play(lag, start, events) == Some(s) && AlwaysPublishing(events)
    ensures s.sweepEnds == 0
    ensures forall w :: w in s.pcs ==> s.pcs[w].Idle? || s.pcs[w].Listed? || s.pcs[w].Present? || s.pcs[w].Marking?
  {
    if events != [] {
      var front := events[..|events| - 1];
      PublishingSessionSurvives(lag, start, front, Play(lag, start, front).value);
    }
  }

  // ---------------------------------------------------------------- exactly once

  /** Each time a session goes live it is swept, and its attendance finalized, at most once. */
  lemma FinalizedOncePerSpell(lag: nat, start: int, events: seq<Event>, s: State)
    requires Play(lag, start, events) == Some(s)
    ensures s.finalized <= s.sweepEnds <= s.spells
  {
    RunInv(lag, start, events, s);
  }

  ghost predicate NeverRescheduled(events: seq<Event>) {
    forall i :: 0 <= i < |events| ==> events[i].AdminPatch? ==> !events[i].status.Scheduled?
  }

  /** A session nobody puts back to scheduled goes live once, so it is finalized at most once. */
  lemma {:induction false} FinalizedOnce(lag: nat, start: int, events: seq<Event>, s: State)
    requires Play(lag, start, events) == Some(s) && NeverRescheduled(events)
    ensures s.finalized <= s.sweepEnds <= s.spells <= 1
    ensures s.spells == 1 ==> !s.row.status.Scheduled?
  {
    FinalizedOncePerSpell(lag, start, events, s);
    if events != [] {
      var front := events[..|events| - 1];
      FinalizedOnce(lag, start, front, Play(lag, start, front).value);
    }
  }

  /**
    * Putting an ended session back to scheduled keeps its old clock: when it goes live again
    * the first inactive sample ends it at once, and its attendance is finalized a second time.
    */
  lemma RescheduledSessionIsSweptAgain(lag: nat) returns (events: seq<Event>, s: State, again: seq<Event>, s': State)
    ensures Play(lag, 0, events) == Some(s) && s.row.status.Scheduled? && s.finalized == 1
    ensures Play(lag, 0, events + again) == Some(s') && s'.row.status.Ended? && s'.finalized == 2
    ensures s'.now == s.now
  {
    events, s := AbandonedRun(lag, 0);
    events, s := PlayOn(lag, 0, events, s, Elapse(1));
    events, s := PlayOn(lag, 0, events, s, Abandon(0));
    events, s := SweepAndFinalize(lag, 0, events, s);
    events, s := PlayOn(lag, 0, events, s, AdminPatch(Scheduled));
    var all: seq<Event>;
    all, s' := PlayOn(lag, 0, events, s, TeacherGoLive(s.now, "p"));
    var live := all;
    all, s' := SweepAndFinalize(lag, 0, all, s');
    assert events <= live && live <= all;
    again := all[|events|..];
    assert events + again == all;
  }
}
