/**
  * The race and the tick are about the same statements: a sweeper of the protocol that is left
  * alone for one pass does to the row what a visit of the tick does.
  */
module SweepPass {
  import opened Options
  import opened LiveSessionRows
  import opened SweepProtocol
  import opened SweepTask

  /** The visit of a pass that begins at `now` and takes `d` between seeding and ending. */
  function VisitAt(now: int, d: nat, verdict: Verdict): Visit {
    Visit(verdict, Some(now), Some(now), Some(now + d), Some(now + d))
  }

  /**
    * For every verdict the media server may give, an undisturbed pass leaves the row that the
    * visit leaves, and finalizes attendance exactly if it ended the session.
    */
  lemma PassIsVisit(lag: nat, start: int, events: seq<Event>, s: State, verdict: Verdict, d: nat)
      returns (more: seq<Event>, t: State)
    requires Play(lag, start, events) == Some(s) && s.row.status.Live? && PcOf(s, 0).Idle?
    requires MayAnswer(s.row.mainPath, s.publishing, verdict)
    ensures Play(lag, start, more) == Some(t) && PcOf(t, 0).Idle?
    ensures t.row == Visited(s.row, VisitAt(s.now, d, verdict))
    ensures t.finalized == s.finalized + if EndedBy(s.row, VisitAt(s.now, d, verdict)) then 1 else 0
  {
    more, t := PlayOn(lag, start, events, s, List(0));
    more, t := PlayOn(lag, start, more, t, Probe(0, verdict));
    match verdict {
      case Inconclusive =>
      case Active =>
        more, t := PlayOn(lag, start, more, t, BeginMark(0));
        more, t := PlayOn(lag, start, more, t, CommitMark(0));
      case Inactive =>
        more, t := SeedAndEnd(lag, start, more, t, d);
    }
  }

  lemma SeedAndEnd(lag: nat, start: int, events: seq<Event>, s: State, d: nat) returns (more: seq<Event>, t: State)
    requires Play(lag, start, events) == Some(s) && PcOf(s, 0).Absent? && s.row.status.Live?
    ensures Play(lag, start, more) == Some(t) && PcOf(t, 0).Idle?
    ensures t.row == EndIfGone(SeedAbsence(s.row, s.now), s.now + d)
    ensures t.finalized == s.finalized + if t.row.status.Ended? then 1 else 0
  {
    more, t := PlayOn(lag, start, events, s, BeginSeed(0));
    more, t := PlayOn(lag, start, more, t, CommitSeed(0));
    more, t := PlayOn(lag, start, more, t, Elapse(d));
    more, t := PlayOn(lag, start, more, t, BeginEnd(0));
    more, t := PlayOn(lag, start, more, t, CommitEnd(0));
    if PcOf(t, 0).Finalizing? {
      more, t := PlayOn(lag, start, more, t, Finalize(0));
    }
  }

  ghost predicate NeverSeen(events: seq<Event>) {
    forall i :: 0 <= i < |events| ==> events[i].Probe? ==> !events[i].verdict.Active?
  }

  /** Only a publisher that was seen refreshes the clock: without an active probe it stays unset or at the start. */
  lemma {:induction false} RefreshesAreSeen(lag: nat, start: int, events: seq<Event>, s: State)
    requires Play(lag, start, events) == Some(s) && NeverSeen(events)
    ensures s.refreshes == [] && (s.row.lastSeen.Some? ==> s.row.lastSeen == s.row.startedAt)
    ensures forall w :: w in s.pcs ==> !s.pcs[w].Present? && !s.pcs[w].Marking?
  {
    RunInv(lag, start, events, s);
    if events != [] {
      var front := events[..|events| - 1];
      RefreshesAreSeen(lag, start, front, Play(lag, start, front).value);
    }
  }
}
