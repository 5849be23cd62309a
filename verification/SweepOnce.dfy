/**
  * How often a session is swept: exactly when at most once, from its creation and from any
  * state in which it has ended; and that every sweeper reclaims what has been abandoned.
  */
module SweepOnce {
  import opened Options
  import opened LiveSessionRows
  import opened SweepProtocol

  /** Whether administrators put sessions back to scheduled. */
  ghost predicate Admitted(events: seq<Event>, mayReschedule: bool) {
    mayReschedule || NeverRescheduled(events)
  }

  ghost predicate SweptTwice(lag: nat, start: int, events: seq<Event>, s: State) {
    Play(lag, start, events) == Some(s) && s.sweepEnds >= 2
  }

  /** Over all runs, sessions are swept at most once if and only if none is put back to scheduled. */
  lemma SweptOnceIff(lag: nat, mayReschedule: bool)
    ensures (forall start, events, s :: Admitted(events, mayReschedule) ==> !SweptTwice(lag, start, events, s))
       <==> !mayReschedule
  {
    if mayReschedule {
      var events, s, again, s' := RescheduledSessionIsSweptAgain(lag);
      FinalizedOncePerSpell(lag, 0, events + again, s');
      assert SweptTwice(lag, 0, events + again, s');
    } else {
      forall start, events, s | NeverRescheduled(events)
        ensures !SweptTwice(lag, start, events, s)
      {
        if Play(lag, start, events) == Some(s) {
          FinalizedOnce(lag, start, events, s);
        }
      }
    }
  }

  // ---------------------------------------------------------------- from an ended state

  lemma NothingMoreOwed(lag: nat, s: State, e: Event)
    requires Enabled(lag, s, e) && !s.row.status.Live?
    ensures var t := Apply(lag, s, e);
      t.sweepEnds == s.sweepEnds && t.finalized + |Owing(t)| <= s.finalized + |Owing(s)|
  {
    var t := Apply(lag, s, e);
    if e.Finalize? {
      OwingAfterGoto(s, e.w, Idle);
      assert Owing(t) == Owing(Goto(s, e.w, Idle));
    } else if e.CommitEnd? {
      OwingAfterGoto(s, e.w, Idle);
      assert t == Goto(s, e.w, Idle);
    } else {
      NobodyNewOwes(lag, s, e);
      SubsetSize(Owing(t), Owing(s));
    }
  }

  /** A session that is over stays over, and only finalizations already owed are still done. */
  lemma {:induction false} StaysOver(lag: nat, start: int, events: seq<Event>, s: State, later: seq<Event>, s': State)
    requires Play(lag, start, events) == Some(s) && (s.row.status.Ended? || s.row.status.Cancelled?)
    requires Play(lag, start, events + later) == Some(s') && NeverRescheduled(later)
    ensures s'.row.status.Ended? || s'.row.status.Cancelled?
    ensures s'.sweepEnds == s.sweepEnds && s'.finalized + |Owing(s')| <= s.finalized + |Owing(s)|
  {
    if later == [] {
      assert events + later == events;
    } else {
      var front := later[..|later| - 1];
      assert (events + later)[..|events + later| - 1] == events + front;
      var before := Play(lag, start, events + front).value;
      StaysOver(lag, start, events, s, front, before);
      NothingMoreOwed(lag, before, later[|later| - 1]);
    }
  }

  ghost predicate SweptAgain(lag: nat, start: int, events: seq<Event>, s: State, later: seq<Event>, s': State) {
    Play(lag, start, events + later) == Some(s') && s'.sweepEnds > s.sweepEnds
  }

  /** Any ended session that is put back to scheduled can be swept once more. */
  lemma RescheduleAndSweep(lag: nat, start: int, events: seq<Event>, s: State) returns (later: seq<Event>, s': State)
    requires Play(lag, start, events) == Some(s) && s.row.status.Ended?
    ensures SweptAgain(lag, start, events, s, later, s')
  {
    RunInv(lag, start, events, s);
    var all, t := GoLiveAgain(lag, start, events, s);
    var clock := Clock(t);
    all, t := PlayOn(lag, start, all, t, List(0));
    all, t := PlayOn(lag, start, all, t, Probe(0, Inactive));
    all, t := EndAfterProbe(lag, start, all, t);
    assert Clock(t) == clock;
    UpdateSparesIff(lag, start, all, t, 0);
    all, s' := PlayOn(lag, start, all, t, CommitEnd(0));
    later := all[|events|..];
    assert events + later == all;
  }

  lemma GoLiveAgain(lag: nat, start: int, events: seq<Event>, s: State) returns (all: seq<Event>, t: State)
    requires Play(lag, start, events) == Some(s) && s.row.status.Ended? && RowInv(s) && RefreshInv(lag, s)
    ensures Play(lag, start, all) == Some(t) && events <= all
    ensures t.row.status.Live? && t.row.mainPath.Some? && !t.publishing && PcOf(t, 0).Idle?
    ensures t.sweepEnds == s.sweepEnds && t.now == s.now + GRACE + 1
    ensures Clock(t).Some? && Clock(t).value <= s.now
  {
    all, t := PlayOn(lag, start, events, s, AdminPatch(Scheduled));
    all, t := PlayOn(lag, start, all, t, TeacherGoLive(s.now, "p"));
    all, t := PlayOn(lag, start, all, t, Abandon(0));
    all, t := LeaveFor(lag, start, all, t, GRACE + 1);
  }

  /** From any reachable ended state, the session is swept again in some run iff rescheduling is admitted. */
  lemma SweptAgainIff(lag: nat, start: int, events: seq<Event>, s: State, mayReschedule: bool)
    requires Play(lag, start, events) == Some(s) && s.row.status.Ended?
    ensures (exists later, s' :: Admitted(later, mayReschedule) && SweptAgain(lag, start, events, s, later, s'))
       <==> mayReschedule
  {
    if mayReschedule {
      var later, s' := RescheduleAndSweep(lag, start, events, s);
      assert Admitted(later, mayReschedule);
    } else if later, s' :| Admitted(later, mayReschedule) && SweptAgain(lag, start, events, s, later, s') {
      StaysOver(lag, start, events, s, later, s');
    }
  }

  // ---------------------------------------------------------------- reclaiming, with several sweepers

  /** No sweeper refreshes the clock. */
  ghost predicate NeverRefreshed(events: seq<Event>) {
    forall i :: 0 <= i < |events| ==> !events[i].CommitMark?
  }

  lemma ClockStep(lag: nat, s: State, e: Event)
    requires Enabled(lag, s, e) && s.row.startedAt.Some? && !e.CommitMark?
    ensures Clock(Apply(lag, s, e)) == Clock(s) && Apply(lag, s, e).row.startedAt == s.row.startedAt
  {}

  lemma {:induction false} ClockStands(lag: nat, start: int, events: seq<Event>, s: State, later: seq<Event>, s': State)
    requires Play(lag, start, events) == Some(s) && s.row.startedAt.Some?
    requires Play(lag, start, events + later) == Some(s') && NeverRefreshed(later)
    ensures Clock(s') == Clock(s) && s'.row.startedAt == s.row.startedAt
  {
    if later == [] {
      assert events + later == events;
    } else {
      var front := later[..|later| - 1];
      assert (events + later)[..|events + later| - 1] == events + front;
      var before := Play(lag, start, events + front).value;
      ClockStands(lag, start, events, s, front, before);
      ClockStep(lag, before, later[|later| - 1]);
    }
  }

  lemma {:induction false} PlayPrefix(lag: nat, start: int, events: seq<Event>, n: nat)
    requires Play(lag, start, events).Some? && n <= |events|
    ensures Play(lag, start, events[..n]).Some?
  {
    if n == |events| {
      assert events[..n] == events;
    } else {
      PlayPrefix(lag, start, events[..|events| - 1], n);
      assert events[..|events| - 1][..n] == events[..n];
    }
  }

  /**
    * Whichever of the sweepers commits an UPDATE stamped more than a window after the last
    * clock write, the live session is over from then on, however the others interleave.
    */
  lemma AnyLateUpdateReclaims(lag: nat, start: int, events: seq<Event>, s: State, later: seq<Event>, s': State, n: nat)
    requires Play(lag, start, events) == Some(s) && s.row.status.Live?
    requires Play(lag, start, events + later) == Some(s') && NeverRefreshed(later) && NeverRescheduled(later)
    requires n < |later| && later[n].CommitEnd? && Play(lag, start, events + later[..n]).Some? &&
      var before := Play(lag, start, events + later[..n]).value;
      PcOf(before, later[n].w).Ending? && Clock(s).Some? && Clock(s).value + GRACE < PcOf(before, later[n].w).ts
    ensures s'.row.status.Ended? || s'.row.status.Cancelled?
  {
    var to, rest := later[..n], later[n + 1..];
    var before := Play(lag, start, events + to).value;
    RunInv(lag, start, events, s);
    ClockStands(lag, start, events, s, to, before);
    NeverScheduledAgain(lag, start, events, s, to, before);
    PlayPrefix(lag, start, events + later, |events| + n + 1);
    assert (events + later)[..|events| + n + 1] == events + to + [later[n]];
    var after := Play(lag, start, events + to + [later[n]]).value;
    LateUpdateEnds(lag, start, events + to, before, later[n].w, after);
    assert events + later == events + to + [later[n]] + rest;
    StaysOver(lag, start, events + to + [later[n]], after, rest, s');
  }

  lemma LateUpdateEnds(lag: nat, start: int, events: seq<Event>, s: State, w: Worker, t: State)
    requires Play(lag, start, events) == Some(s) && Play(lag, start, events + [CommitEnd(w)]) == Some(t)
    requires !s.row.status.Scheduled? && PcOf(s, w).Ending?
    requires Clock(s).Some? && Clock(s).value + GRACE < PcOf(s, w).ts
    ensures t.row.status.Ended? || t.row.status.Cancelled?
  {
    assert (events + [CommitEnd(w)])[..|events + [CommitEnd(w)]| - 1] == events;
    if s.row.status.Live? {
      UpdateSparesIff(lag, start, events, s, w);
    }
  }

  lemma {:induction false} NeverScheduledAgain(lag: nat, start: int, events: seq<Event>, s: State, later: seq<Event>, s': State)
    requires Play(lag, start, events) == Some(s) && !s.row.status.Scheduled?
    requires Play(lag, start, events + later) == Some(s') && NeverRescheduled(later)
    ensures !s'.row.status.Scheduled?
  {
    if later == [] {
      assert events + later == events;
    } else {
      var front := later[..|later| - 1];
      assert (events + later)[..|events + later| - 1] == events + front;
      NeverScheduledAgain(lag, start, events, s, front, Play(lag, start, events + front).value);
    }
  }
}
