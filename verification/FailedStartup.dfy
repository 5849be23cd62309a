/**
  * A startup that meets a secret it cannot open, in a fleet that need not follow any
  * procedure: replicas with any keys, any rows to begin with, and everybody at work.
  */
module FailedStartup {
  import opened Options
  import opened SecretBox
  import opened SecretRewrap
  import opened KeyRotation

  /** The state a run leads to; None when the events are not possible one after another. */
  ghost function RunFrom(pair: Pair, s: State, events: seq<Event>): Option<State> {
    if events == [] then
      Some(s)
    else
      var before := RunFrom(pair, s, events[..|events| - 1]);
      var e := events[|events| - 1];
      if before.Some? && Possible(before.value, e) then Some(Apply(pair, before.value, e)) else None
  }

  /** Nobody changes row `id` in the course of the run. */
  ghost predicate Untouched(pair: Pair, s: State, events: seq<Event>, id: Id) {
    forall n: nat :: n <= |events| ==> SameRow(s, RunFrom(pair, s, events[..n]), id)
  }

  ghost predicate SameRow(s: State, t: Option<State>, id: Id) {
    t.Some? ==> Row(t.value.rows, id) == Row(s.rows, id)
  }

  predicate Writes(e: Event, r: nat) {
    (e.RewrapHead? || e.AppWrite? || e.AppDelete?) && e.r == r
  }

  predicate Boots(e: Event, r: nat) {
    e.Boot? && e.r == r
  }

  /** The startup of replica `r` has not got as far as row `id`. */
  ghost predicate StuckBefore(s: State, r: nat, wave: Wave, id: Id) {
    r in s.replicas ==>
      s.replicas[r].wave == wave && s.replicas[r].phase.Preflight? && s.replicas[r].phase.cursor < id
  }

  lemma StuckStep(pair: Pair, s: State, e: Event, r: nat, wave: Wave, id: Id)
    requires StuckBefore(s, r, wave, id) && Locked(KeysOf(pair, wave), s.rows, id)
    requires Possible(s, e) && !Boots(e, r)
    ensures StuckBefore(Apply(pair, s, e), r, wave, id) && !Writes(e, r)
    ensures e.PreflightPage? && e.r == r ==>
      e.page != [] && (id <= e.page[|e.page| - 1].0 ==> r !in Apply(pair, s, e).replicas)
  {
    if e.PreflightPage? && e.r == r {
      LockedInPage(pair, s, e.page, r, wave, id);
    } else {
      OthersLeaveReplica(pair, s, e, r);
    }
  }

  lemma OthersLeaveReplica(pair: Pair, s: State, e: Event, r: nat)
    requires Possible(s, e) && !Boots(e, r) && !OwnPage(e, r) && !(e.PreflightPage? && e.r == r)
    ensures r in Apply(pair, s, e).replicas ==> r in s.replicas && Apply(pair, s, e).replicas[r] == s.replicas[r]
  {}

  /** A page of the preflight that reaches a locked row contains it. */
  lemma LockedInPage(pair: Pair, s: State, page: seq<Entry>, r: nat, wave: Wave, id: Id)
    requires Locked(KeysOf(pair, wave), s.rows, id)
    requires r in s.replicas && s.replicas[r].phase.Preflight? && s.replicas[r].phase.cursor < id
    requires IsPage(s.rows, s.replicas[r].phase.cursor, page)
    ensures page != []
    ensures id <= page[|page| - 1].0 ==> exists k :: 0 <= k < |page| && Open(KeysOf(pair, wave), page[k].1).None?
  {
    assert page == [] ==> id in Ids(page);
    if page != [] && id <= page[|page| - 1].0 {
      PageHoldsRow(s.rows, page, id);
      var k :| 0 <= k < |page| && page[k].0 == id && s.rows[id] == page[k].1;
      assert Open(KeysOf(pair, wave), page[k].1).None?;
    }
  }

  /**
    * Whatever keys it was started with and whatever the others do, a startup that finds a row
    * it cannot open, there from its beginning and left alone by the others, never gets past
    * its preflight, writes nothing, and goes down with the page that reaches the row.
    */
  lemma {:induction false} LockedRowStopsStartup(pair: Pair, s0: State, r: nat, wave: Wave, events: seq<Event>, s: State, id: Id)
    requires Possible(s0, Boot(r, wave)) && Locked(KeysOf(pair, wave), s0.rows, id)
    requires var up := Apply(pair, s0, Boot(r, wave));
      RunFrom(pair, up, events) == Some(s) && Untouched(pair, up, events, id)
    requires forall i :: 0 <= i < |events| ==> !Boots(events[i], r)
    ensures StuckBefore(s, r, wave, id) && Locked(KeysOf(pair, wave), s.rows, id)
    ensures forall i :: 0 <= i < |events| ==> !Writes(events[i], r)
    ensures forall page: seq<Entry> :: Possible(s, PreflightPage(r, page)) ==>
      page != [] && (id <= page[|page| - 1].0 ==> r !in Apply(pair, s, PreflightPage(r, page)).replicas)
    decreases |events|
  {
    var up := Apply(pair, s0, Boot(r, wave));
    if events != [] {
      var front, e := events[..|events| - 1], events[|events| - 1];
      var before := RunFrom(pair, up, front).value;
      UntouchedFront(pair, up, events, id);
      LockedRowStopsStartup(pair, s0, r, wave, front, before, id);
      StuckStep(pair, before, e, r, wave, id);
      assert events == front + [e];
    }
    assert events[..|events|] == events && SameRow(up, RunFrom(pair, up, events[..|events|]), id);
    forall page: seq<Entry> | Possible(s, PreflightPage(r, page))
      ensures page != [] && (id <= page[|page| - 1].0 ==> r !in Apply(pair, s, PreflightPage(r, page)).replicas)
    {
      StuckStep(pair, s, PreflightPage(r, page), r, wave, id);
    }
  }

  lemma UntouchedFront(pair: Pair, s: State, events: seq<Event>, id: Id)
    requires events != [] && Untouched(pair, s, events, id)
    ensures Untouched(pair, s, events[..|events| - 1], id)
  {
    var front := events[..|events| - 1];
    forall n: nat | n <= |front|
      ensures SameRow(s, RunFrom(pair, s, front[..n]), id)
    {
      assert front[..n] == events[..n];
    }
  }

  lemma {:induction false} RunPrefix(pair: Pair, s: State, events: seq<Event>, n: nat)
    requires RunFrom(pair, s, events).Some? && n <= |events|
    ensures RunFrom(pair, s, events[..n]).Some?
  {
    if n == |events| {
      assert events[..n] == events;
    } else {
      RunPrefix(pair, s, events[..|events| - 1], n);
      assert events[..|events| - 1][..n] == events[..n];
    }
  }

  lemma More(pair: Pair, s0: State, events: seq<Event>, s: State, e: Event) returns (more: seq<Event>, t: State)
    requires RunFrom(pair, s0, events) == Some(s) && Possible(s, e)
    ensures more == events + [e] && t == Apply(pair, s, e) && RunFrom(pair, s0, more) == Some(t)
  {
    more, t := events + [e], Apply(pair, s, e);
    assert more[..|more| - 1] == events;
  }
}
