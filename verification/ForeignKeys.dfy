/**
  * Which keys the replicas of a fleet may run with: when a startup that has passed its
  * preflight is safe from unreadable rows, and when the rows it moves stay readable to others.
  * Both are questions about key configurations, which an operator can answer before a deploy.
  */
module ForeignKeys {
  import opened Options
  import opened SecretBox
  import opened SecretRewrap
  import opened KeyRotation
  import opened FailedStartup

  predicate Reads(keys: Keys, key: Key) {
    key == keys.current || keys.previous == Some(key)
  }

  /** The current keys that the other replicas of a fleet may have. */
  type Admitted = Key -> bool

  ghost predicate OthersAdmitted(pair: Pair, s: State, r: nat, may: Admitted) {
    forall q :: q in s.replicas && q != r ==> may(KeysOf(pair, s.replicas[q].wave).current)
  }

  /** Replica `r` is not started a second time, and others only with admitted keys. */
  predicate EventAdmitted(pair: Pair, e: Event, r: nat, may: Admitted) {
    e.Boot? ==> e.r != r && may(KeysOf(pair, e.wave).current)
  }

  /** A run of a fleet from the moment replica `r` is started, with everybody at work. */
  ghost predicate Startup(pair: Pair, s0: State, r: nat, wave: Wave, may: Admitted, events: seq<Event>, s: State) {
    && Possible(s0, Boot(r, wave)) && OthersAdmitted(pair, s0, r, may)
    && RunFrom(pair, Apply(pair, s0, Boot(r, wave)), events) == Some(s)
    && forall i :: 0 <= i < |events| ==> EventAdmitted(pair, events[i], r, may)
  }

  lemma StartupFront(pair: Pair, s0: State, r: nat, wave: Wave, may: Admitted, events: seq<Event>, s: State) returns (before: State)
    requires Startup(pair, s0, r, wave, may, events, s) && events != []
    ensures var front, e := events[..|events| - 1], events[|events| - 1];
      && Startup(pair, s0, r, wave, may, front, before) && EventAdmitted(pair, e, r, may)
      && Possible(before, e) && s == Apply(pair, before, e)
  {
    before := RunFrom(pair, Apply(pair, s0, Boot(r, wave)), events[..|events| - 1]).value;
  }

  // ---------------------------------------------------------------- failing after the preflight

  /** Past its preflight, the startup holds a row it cannot open and will go down on it. */
  ghost predicate FailsLate(pair: Pair, s: State, r: nat) {
    && r in s.replicas && s.replicas[r].phase.Rewrapping? && s.replicas[r].phase.page != []
    && s.replicas[r].phase.lost != MAX_ATTEMPTS
    && Open(KeysOf(pair, s.replicas[r].wave), s.replicas[r].phase.page[0].1).None?
  }

  /** So it does: this is what separates a failure on an unreadable row from one on lost swaps. */
  lemma FailsLateIff(pair: Pair, s: State, r: nat, nonce: nat)
    requires Possible(s, RewrapHead(r, nonce)) && s.replicas[r].phase.lost != MAX_ATTEMPTS
    ensures FailsLate(pair, s, r) <==> r !in Apply(pair, s, RewrapHead(r, nonce)).replicas
  {}

  /** The startup goes down in this step, in either pass, because it cannot open a row. */
  ghost predicate FailsIn(pair: Pair, s: State, e: Event, r: nat) {
    && Possible(s, e) && (e.PreflightPage? || e.RewrapHead?) && e.r == r && r !in Apply(pair, s, e).replicas
    && (e.RewrapHead? ==> s.replicas[r].phase.lost != MAX_ATTEMPTS)
  }

  /** Event `n` of the run is a rewrap by `r` that changed row `id`. */
  ghost predicate Moved(pair: Pair, up: State, events: seq<Event>, n: nat, r: nat, id: Id) {
    && n < |events| && events[n].RewrapHead? && events[n].r == r
    && RunFrom(pair, up, events[..n]).Some? && RunFrom(pair, up, events[..n + 1]).Some?
    && Row(RunFrom(pair, up, events[..n + 1]).value.rows, id) != Row(RunFrom(pair, up, events[..n]).value.rows, id)
  }

  /** The startup fails on an unreadable row after it has moved another. */
  ghost predicate RotatesPartly(pair: Pair, s0: State, r: nat, wave: Wave, events: seq<Event>, s: State, e: Event) {
    && Possible(s0, Boot(r, wave)) && FailsIn(pair, s, e, r)
    && exists n, id :: Moved(pair, Apply(pair, s0, Boot(r, wave)), events, n, r, id)
  }

  /** No startup with these keys, in any fleet with admitted ones, fails on a row after its preflight. */
  ghost predicate NeverFailsLate(pair: Pair, keys: Keys, may: Admitted) {
    forall s0: State, r: nat, wave: Wave, events: seq<Event>, s: State ::
      Startup(pair, s0, r, wave, may, events, s) && KeysOf(pair, wave) == keys ==> !FailsLate(pair, s, r)
  }

  ghost predicate NeverRotatesPartly(pair: Pair, keys: Keys, may: Admitted) {
    forall s0: State, r: nat, wave: Wave, events: seq<Event>, s: State, e: Event ::
      Startup(pair, s0, r, wave, may, events, s) && KeysOf(pair, wave) == keys ==>
        !RotatesPartly(pair, s0, r, wave, events, s, e)
  }

  /** Every key the others write under is one the startup has. */
  ghost predicate Familiar(keys: Keys, may: Admitted) {
    forall key :: may(key) ==> Reads(keys, key)
  }

  /** What the startup has read is readable to it, and after the preflight everything is. */
  ghost predicate Ready(pair: Pair, s: State, r: nat, keys: Keys) {
    r in s.replicas ==>
      && KeysOf(pair, s.replicas[r].wave) == keys
      && OpensPage(keys, PageOf(s.replicas[r].phase))
      && OpensUpTo(keys, s.rows, s.replicas[r].phase)
  }

  ghost predicate OpensUpTo(keys: Keys, rows: Rows, phase: Phase) {
    forall id :: id in rows && (phase.Preflight? ==> id <= phase.cursor) ==> Open(keys, rows[id]).Some?
  }

  /** Whoever changes a row seals it under its own current key. */
  lemma ChangedIsSealed(pair: Pair, s: State, e: Event, id: Id)
    requires Possible(s, e)
    requires id in Apply(pair, s, e).rows && Row(Apply(pair, s, e).rows, id) != Row(s.rows, id)
    ensures (e.RewrapHead? || e.AppWrite?) && e.r in s.replicas
    ensures var after := Apply(pair, s, e).rows[id];
      after.Sealed? && after.key == KeysOf(pair, s.replicas[e.r].wave).current
  {}

  lemma RowsStayReadable(pair: Pair, s: State, e: Event, r: nat, keys: Keys, may: Admitted, phase: Phase)
    requires Possible(s, e) && OthersAdmitted(pair, s, r, may) && Familiar(keys, may)
    requires r in s.replicas ==> KeysOf(pair, s.replicas[r].wave) == keys
    requires OpensUpTo(keys, s.rows, phase)
    ensures OpensUpTo(keys, Apply(pair, s, e).rows, phase)
  {
    var rows := Apply(pair, s, e).rows;
    forall id | id in rows && (phase.Preflight? ==> id <= phase.cursor)
      ensures Open(keys, rows[id]).Some?
    {
      if Row(rows, id) != Row(s.rows, id) {
        ChangedIsSealed(pair, s, e, id);
        assert Reads(keys, KeysOf(pair, s.replicas[e.r].wave).current);
      }
    }
  }

  lemma AdmittedStep(pair: Pair, s: State, e: Event, r: nat, may: Admitted)
    requires Possible(s, e) && OthersAdmitted(pair, s, r, may) && EventAdmitted(pair, e, r, may)
    ensures OthersAdmitted(pair, Apply(pair, s, e), r, may)
  {
    var t := Apply(pair, s, e);
    forall q | q in t.replicas && q != r
      ensures may(KeysOf(pair, t.replicas[q].wave).current)
    {
      if !Boots(e, q) {
        WaveIsKept(pair, s, e, q);
      }
    }
  }

  lemma WaveIsKept(pair: Pair, s: State, e: Event, q: nat)
    requires Possible(s, e) && q in Apply(pair, s, e).replicas && !Boots(e, q)
    ensures q in s.replicas && Apply(pair, s, e).replicas[q].wave == s.replicas[q].wave
  {}

  /** What the startup itself does leaves it ready, with the rows as they are. */
  lemma OwnPhaseIsReady(pair: Pair, s: State, e: Event, r: nat, keys: Keys)
    requires Possible(s, e) && (OwnPage(e, r) || (e.PreflightPage? && e.r == r)) && r in s.replicas && Ready(pair, s, r, keys)
    requires r in Apply(pair, s, e).replicas
    ensures var phase := Apply(pair, s, e).replicas[r].phase;
      OpensPage(keys, PageOf(phase)) && OpensUpTo(keys, s.rows, phase)
  {
    var phase := s.replicas[r].phase;
    if e.PreflightPage? {
      PreflightReaches(s.rows, phase.cursor, e.page);
    } else if e.FetchPage? {
      assert forall k :: 0 <= k < |e.page| ==> e.page[k].0 in s.rows;
    } else if e.Reread? {
      assert PageOf(phase) == phase.page;
    } else if e.RewrapHead? {
      RewrapKeepsPage(pair, s, r, e.nonce);
    }
  }

  /** Rows up to the end of a preflight page are behind the cursor or in the page. */
  lemma PreflightReaches(rows: Rows, cursor: int, page: seq<Entry>)
    requires IsPage(rows, cursor, page)
    ensures forall id :: id in rows && (page == [] || id <= page[|page| - 1].0) ==>
      id <= cursor || exists k :: 0 <= k < |page| && page[k].1 == rows[id]
  {
    forall id | id in rows && (page == [] || id <= page[|page| - 1].0) && cursor < id
      ensures exists k :: 0 <= k < |page| && page[k].1 == rows[id]
    {
      PageHoldsRow(rows, page, id);
    }
  }

  lemma ReadyStep(pair: Pair, s: State, e: Event, r: nat, keys: Keys, may: Admitted)
    requires Possible(s, e) && OthersAdmitted(pair, s, r, may) && EventAdmitted(pair, e, r, may) && Familiar(keys, may)
    requires Ready(pair, s, r, keys)
    ensures Ready(pair, Apply(pair, s, e), r, keys)
  {
    var t := Apply(pair, s, e);
    if r in t.replicas {
      WaveIsKept(pair, s, e, r);
      if OwnPage(e, r) || (e.PreflightPage? && e.r == r) {
        OwnPhaseIsReady(pair, s, e, r, keys);
      } else {
        OthersLeaveReplica(pair, s, e, r);
      }
      RowsStayReadable(pair, s, e, r, keys, may, t.replicas[r].phase);
    }
  }

  /** With familiar keys around it, a startup only ever holds what it can read. */
  lemma {:induction false} StartupIsReady(pair: Pair, s0: State, r: nat, wave: Wave, may: Admitted, events: seq<Event>, s: State)
    requires Startup(pair, s0, r, wave, may, events, s) && Familiar(KeysOf(pair, wave), may)
    ensures Ready(pair, s, r, KeysOf(pair, wave)) && OthersAdmitted(pair, s, r, may)
    decreases |events|
  {
    if events != [] {
      var before := StartupFront(pair, s0, r, wave, may, events, s);
      var e := events[|events| - 1];
      StartupIsReady(pair, s0, r, wave, may, events[..|events| - 1], before);
      ReadyStep(pair, before, e, r, KeysOf(pair, wave), may);
      AdmittedStep(pair, before, e, r, may);
    }
  }

  /** A startup still in its preflight has moved nothing. */
  lemma {:induction false} NothingMovedYet(pair: Pair, s0: State, r: nat, wave: Wave, may: Admitted, events: seq<Event>, s: State)
    requires Startup(pair, s0, r, wave, may, events, s)
    requires r in s.replicas && s.replicas[r].phase.Preflight?
    ensures forall i :: 0 <= i < |events| ==> !(events[i].RewrapHead? && events[i].r == r)
    decreases |events|
  {
    if events != [] {
      var before := StartupFront(pair, s0, r, wave, may, events, s);
      var front, e := events[..|events| - 1], events[|events| - 1];
      StaysInPreflight(pair, before, e, r);
      NothingMovedYet(pair, s0, r, wave, may, front, before);
      assert events == front + [e];
    }
  }

  lemma StaysInPreflight(pair: Pair, s: State, e: Event, r: nat)
    requires Possible(s, e) && !Boots(e, r)
    requires var t := Apply(pair, s, e); r in t.replicas && t.replicas[r].phase.Preflight?
    ensures r in s.replicas && s.replicas[r].phase.Preflight? && !(e.RewrapHead? && e.r == r)
  {}

  /** A failure after a move is a failure after the preflight. */
  lemma PartlyMeansLate(pair: Pair, s0: State, r: nat, wave: Wave, may: Admitted, events: seq<Event>, s: State, e: Event)
    requires Startup(pair, s0, r, wave, may, events, s) && RotatesPartly(pair, s0, r, wave, events, s, e)
    ensures FailsLate(pair, s, r)
  {
    if e.PreflightPage? {
      NothingMovedYet(pair, s0, r, wave, may, events, s);
    } else {
      FailsLateIff(pair, s, r, e.nonce);
    }
  }

  // ---------------------------------------------------------------- a key the startup lacks

  /** Two rows in plain text, and a replica serving that writes under a key of its own. */
  function TwoRows(foreign: Key): State {
    State(map[1 := Plain(5), 2 := Plain(6)], map[1 := 5, 2 := 6],
          map[9 := Replica(Misconfigured(Keys(foreign, None)), Switch, Serving)], Switch, false)
  }

  /**
    * Both rows open when the startup reads them; then the other replica rewrites the second,
    * behind the preflight. The startup goes down on it all the same, but only after it has
    * moved the first row under its own key.
    */
  lemma LockedBehindPreflight(pair: Pair, wave: Wave, foreign: Key) returns (events: seq<Event>, s: State)
    requires !Reads(KeysOf(pair, wave), foreign)
    ensures var s0 := TwoRows(foreign);
      && Possible(s0, Boot(1, wave)) && RunFrom(pair, Apply(pair, s0, Boot(1, wave)), events) == Some(s)
      && (forall i :: 0 <= i < |events| ==> !events[i].Boot?)
      && FailsLate(pair, s, 1) && FailsIn(pair, s, RewrapHead(1, 0), 1)
      && RotatesPartly(pair, s0, 1, wave, events, s, RewrapHead(1, 0))
  {
    var up := Apply(pair, TwoRows(foreign), Boot(1, wave));
    var before: seq<Event>, at: State;
    before, at := RewrittenBehind(pair, up, wave, foreign);
    events, s := More(pair, up, before, at, RewrapHead(1, 0));
    FirstMoves(pair, at, wave, foreign);
    FailsLateIff(pair, s, 1, 0);
    MovedLast(pair, up, before, at, s, 1, 1);
  }

  /** A last event that changes a row. */
  lemma MovedLast(pair: Pair, up: State, before: seq<Event>, at: State, s: State, r: nat, id: Id)
    requires RunFrom(pair, up, before) == Some(at) && RunFrom(pair, up, before + [RewrapHead(r, 0)]) == Some(s)
    requires Row(s.rows, id) != Row(at.rows, id)
    ensures Moved(pair, up, before + [RewrapHead(r, 0)], |before|, r, id)
  {
    var events := before + [RewrapHead(r, 0)];
    assert events[..|before|] == before && events[..|before| + 1] == events;
  }

  /** The startup has read both rows, the second has been rewritten, and the second pass has its page. */
  lemma RewrittenBehind(pair: Pair, up: State, wave: Wave, foreign: Key) returns (events: seq<Event>, s: State)
    requires up == Apply(pair, TwoRows(foreign), Boot(1, wave))
    ensures RunFrom(pair, up, events) == Some(s) && forall i :: 0 <= i < |events| ==> !events[i].Boot?
    ensures s.rows == map[1 := Plain(5), 2 := Sealed(foreign, 0, 7)]
    ensures 1 in s.replicas && s.replicas[1].wave == wave
    ensures s.replicas[1].phase == Rewrapping(2, [(1, Plain(5)), (2, Sealed(foreign, 0, 7))], 0)
  {
    events, s := WrittenBehind(pair, up, wave, foreign);
    var page := [(1, Plain(5)), (2, Sealed(foreign, 0, 7))];
    BothOnPage(s.rows, page);
    Fetches(pair, s, 1, page);
    events, s := More(pair, up, events, s, FetchPage(1, page));
  }

  lemma WrittenBehind(pair: Pair, up: State, wave: Wave, foreign: Key) returns (events: seq<Event>, s: State)
    requires up == Apply(pair, TwoRows(foreign), Boot(1, wave))
    ensures RunFrom(pair, up, events) == Some(s) && forall i :: 0 <= i < |events| ==> !events[i].Boot?
    ensures s.rows == map[1 := Plain(5), 2 := Sealed(foreign, 0, 7)]
    ensures 1 in s.replicas && s.replicas[1].wave == wave && s.replicas[1].phase == Rewrapping(-1, [], 0)
  {
    events, s := ReadBoth(pair, up, wave);
    ForeignWrite(pair, s, foreign);
    events, s := More(pair, up, events, s, AppWrite(9, 2, 7, 0));
  }

  lemma Fetches(pair: Pair, s: State, r: nat, page: seq<Entry>)
    requires Possible(s, FetchPage(r, page)) && page != []
    ensures Apply(pair, s, FetchPage(r, page)) == In(s, r, Rewrapping(page[|page| - 1].0, page, 0))
  {}

  lemma Completes(pair: Pair, s: State, r: nat)
    requires Possible(s, FetchPage(r, []))
    ensures Apply(pair, s, FetchPage(r, [])).rows == s.rows
    ensures Apply(pair, s, FetchPage(r, [])).replicas == In(s, r, Serving).replicas
  {}

  lemma ForeignWrite(pair: Pair, s: State, foreign: Key)
    requires s.rows == map[1 := Plain(5), 2 := Plain(6)]
    requires 9 in s.replicas && s.replicas[9] == Replica(Misconfigured(Keys(foreign, None)), Switch, Serving)
    ensures Possible(s, AppWrite(9, 2, 7, 0))
    ensures var t := Apply(pair, s, AppWrite(9, 2, 7, 0));
      t.rows == map[1 := Plain(5), 2 := Sealed(foreign, 0, 7)] && t.replicas == s.replicas
  {}

  lemma FirstMoves(pair: Pair, s: State, wave: Wave, foreign: Key)
    requires s.rows == map[1 := Plain(5), 2 := Sealed(foreign, 0, 7)]
    requires 1 in s.replicas && s.replicas[1].wave == wave
    requires s.replicas[1].phase == Rewrapping(2, [(1, Plain(5)), (2, Sealed(foreign, 0, 7))], 0)
    ensures var t := TryHead(pair, s, 1, 0);
      && t.rows == s.rows[1 := Sealed(KeysOf(pair, wave).current, 0, 5)]
      && 1 in t.replicas && t.replicas[1].wave == wave
      && t.replicas[1].phase == Rewrapping(2, [(2, Sealed(foreign, 0, 7))], 0)
  {
    assert s.replicas[1].phase.page[1..] == [(2, Sealed(foreign, 0, 7))];
  }

  lemma PreflightPasses(pair: Pair, s: State, r: nat, page: seq<Entry>)
    requires Possible(s, PreflightPage(r, page)) && page != []
    requires OpensPage(KeysOf(pair, s.replicas[r].wave), page)
    ensures Apply(pair, s, PreflightPage(r, page)) == In(s, r, Preflight(page[|page| - 1].0))
  {}

  /** A preflight over the two rows, to its end. */
  lemma ReadBoth(pair: Pair, up: State, wave: Wave) returns (events: seq<Event>, s: State)
    requires up.rows == map[1 := Plain(5), 2 := Plain(6)]
    requires 1 in up.replicas && up.replicas[1].wave == wave && up.replicas[1].phase == Preflight(-1)
    ensures RunFrom(pair, up, events) == Some(s) && s == In(up, 1, Rewrapping(-1, [], 0))
    ensures forall i :: 0 <= i < |events| ==> events[i].PreflightPage?
  {
    var page := [(1, Plain(5)), (2, Plain(6))];
    BothOnPage(up.rows, page);
    PreflightPasses(pair, up, 1, page);
    events, s := ReadAll(pair, up, page);
  }

  /** A preflight of one page, to its end. */
  lemma ReadAll(pair: Pair, up: State, page: seq<Entry>) returns (events: seq<Event>, s: State)
    requires Possible(up, PreflightPage(1, page)) && page != [] && IsPage(up.rows, page[|page| - 1].0, [])
    requires Apply(pair, up, PreflightPage(1, page)) == In(up, 1, Preflight(page[|page| - 1].0))
    ensures events == [PreflightPage(1, page), PreflightPage(1, [])]
    ensures RunFrom(pair, up, events) == Some(s) && s == In(up, 1, Rewrapping(-1, [], 0))
  {
    events, s := More(pair, up, [], up, PreflightPage(1, page));
    events, s := More(pair, up, events, s, PreflightPage(1, []));
    InTwice(up, 1, Preflight(page[|page| - 1].0), Rewrapping(-1, [], 0));
  }

  lemma InTwice(s: State, r: nat, once: Phase, later: Phase)
    requires r in s.replicas
    ensures In(In(s, r, once), r, later) == In(s, r, later)
  {
    var replica := s.replicas[r];
    assert s.replicas[r := replica.(phase := once)][r := replica.(phase := later)] == s.replicas[r := replica.(phase := later)];
  }

  lemma BothOnPage(rows: Rows, page: seq<Entry>)
    requires |page| == 2 && page[0].0 == 1 && page[1].0 == 2 && rows == map[1 := page[0].1, 2 := page[1].1]
    ensures IsPage(rows, -1, page) && IsPage(rows, 2, [])
  {
    assert page[0] in page && page[1] in page;
    assert page == [page[0], page[1]];
  }

  /**
    * The exact condition, over every run of every fleet: startups with these keys never fail on
    * a row after their preflight, and never leave a partly rotated table behind on one, if and
    * only if every other replica's current key is the startup's current or previous key.
    */
  lemma NeverFailsLateIff(pair: Pair, keys: Keys, may: Admitted)
    ensures NeverFailsLate(pair, keys, may) <==> Familiar(keys, may)
    ensures NeverRotatesPartly(pair, keys, may) <==> Familiar(keys, may)
  {
    if Familiar(keys, may) {
      forall s0: State, r: nat, wave: Wave, events: seq<Event>, s: State |
          Startup(pair, s0, r, wave, may, events, s) && KeysOf(pair, wave) == keys
        ensures !FailsLate(pair, s, r)
      {
        StartupIsReady(pair, s0, r, wave, may, events, s);
      }
      forall s0: State, r: nat, wave: Wave, events: seq<Event>, s: State, e: Event |
          Startup(pair, s0, r, wave, may, events, s) && KeysOf(pair, wave) == keys
        ensures !RotatesPartly(pair, s0, r, wave, events, s, e)
      {
        if RotatesPartly(pair, s0, r, wave, events, s, e) {
          PartlyMeansLate(pair, s0, r, wave, may, events, s, e);
        }
      }
    } else {
      var foreign :| may(foreign) && !Reads(keys, foreign);
      var wave := Misconfigured(keys);
      var events, s := LockedBehindPreflight(pair, wave, foreign);
      assert Startup(pair, TwoRows(foreign), 1, wave, may, events, s);
    }
  }

  // ---------------------------------------------------------------- rows moved out of reach

  /** The startup is complete, and replica `q` cannot open a row that it moved. */
  ghost predicate LocksOut(pair: Pair, s0: State, r: nat, wave: Wave, events: seq<Event>, s: State, q: nat, n: nat, id: Id) {
    && Possible(s0, Boot(r, wave)) && Moved(pair, Apply(pair, s0, Boot(r, wave)), events, n, r, id)
    && r in s.replicas && s.replicas[r].phase.Serving? && q in s.replicas
    && Row(s.rows, id) == Row(RunFrom(pair, Apply(pair, s0, Boot(r, wave)), events[..n + 1]).value.rows, id)
    && id in s.rows && Open(KeysOf(pair, s.replicas[q].wave), s.rows[id]).None?
  }

  predicate Anything(key: Key) {
    true
  }

  /** In no run of any fleet does a startup with `keys` move a row out of reach of a replica with `theirs`. */
  ghost predicate NeverLocksOut(pair: Pair, keys: Keys, theirs: Keys) {
    forall s0: State, r: nat, wave: Wave, events: seq<Event>, s: State, q: nat, n: nat, id: Id ::
      Startup(pair, s0, r, wave, Anything, events, s) && LocksOut(pair, s0, r, wave, events, s, q, n, id) ==>
        !(KeysOf(pair, wave) == keys && KeysOf(pair, s.replicas[q].wave) == theirs)
  }

  /** A moved row is readable to a replica exactly if the mover's current key is one of its keys. */
  lemma MovedIsReadableIff(pair: Pair, s: State, r: nat, nonce: nat, id: Id, theirs: Keys)
    requires Possible(s, RewrapHead(r, nonce))
    requires var t := TryHead(pair, s, r, nonce); Row(t.rows, id) != Row(s.rows, id)
    ensures var keys, t := KeysOf(pair, s.replicas[r].wave), TryHead(pair, s, r, nonce);
      && id in s.rows && id in t.rows && Open(keys, s.rows[id]).Some?
      && Open(theirs, t.rows[id]) == if Reads(theirs, keys.current) then Open(keys, s.rows[id]) else None
  {}

  lemma {:induction false} WaveOfStartup(pair: Pair, s0: State, r: nat, wave: Wave, may: Admitted, events: seq<Event>, s: State)
    requires Startup(pair, s0, r, wave, may, events, s)
    ensures r in s.replicas ==> s.replicas[r].wave == wave
    decreases |events|
  {
    if events != [] {
      var before := StartupFront(pair, s0, r, wave, may, events, s);
      WaveOfStartup(pair, s0, r, wave, may, events[..|events| - 1], before);
      if r in s.replicas {
        WaveIsKept(pair, before, events[|events| - 1], r);
      }
    }
  }

  lemma StartupPrefix(pair: Pair, s0: State, r: nat, wave: Wave, may: Admitted, events: seq<Event>, s: State, n: nat)
    requires Startup(pair, s0, r, wave, may, events, s) && n <= |events|
    ensures var at := RunFrom(pair, Apply(pair, s0, Boot(r, wave)), events[..n]);
      at.Some? && Startup(pair, s0, r, wave, may, events[..n], at.value)
  {
    RunPrefix(pair, Apply(pair, s0, Boot(r, wave)), events, n);
  }

  lemma MovedStaysReadable(pair: Pair, s0: State, r: nat, wave: Wave, events: seq<Event>, s: State, n: nat, id: Id, theirs: Keys)
    requires Startup(pair, s0, r, wave, Anything, events, s)
    requires Moved(pair, Apply(pair, s0, Boot(r, wave)), events, n, r, id) && Reads(theirs, KeysOf(pair, wave).current)
    ensures var after := RunFrom(pair, Apply(pair, s0, Boot(r, wave)), events[..n + 1]).value;
      id in after.rows && Open(theirs, after.rows[id]).Some?
  {
    var up := Apply(pair, s0, Boot(r, wave));
    StartupPrefix(pair, s0, r, wave, Anything, events, s, n);
    var at := RunFrom(pair, up, events[..n]).value;
    WaveOfStartup(pair, s0, r, wave, Anything, events[..n], at);
    assert events[..n + 1][..n] == events[..n];
    MovedIsReadableIff(pair, at, r, events[n].nonce, id, theirs);
  }

  /** A table of one row, with an idle replica serving. */
  function OneRow(stored: Stored, secret: Secret, wave: Wave): State {
    State(map[1 := stored], map[1 := secret], map[9 := Replica(wave, Switch, Serving)], Switch, false)
  }

  /** A startup that can read the one row and does not yet have it under its key runs to the end. */
  lemma OneRowStartup(pair: Pair, s0: State, wave: Wave, stored: Stored, secret: Secret) returns (events: seq<Event>, s: State)
    requires s0.rows == map[1 := stored] && 1 !in s0.replicas
    requires Open(KeysOf(pair, wave), stored) == Some(secret) && !UnderCurrent(KeysOf(pair, wave), stored)
    ensures var up := Apply(pair, s0, Boot(1, wave));
      && RunFrom(pair, up, events) == Some(s) && (forall i :: 0 <= i < |events| ==> !events[i].Boot?)
      && |events| == 5 && Moved(pair, up, events, 3, 1, 1)
      && Row(RunFrom(pair, up, events[..4]).value.rows, 1) == Row(s.rows, 1)
      && s.rows == map[1 := Sealed(KeysOf(pair, wave).current, 0, secret)]
      && s.replicas == s0.replicas[1 := Replica(wave, s0.stage, Serving)]
  {
    var up := Apply(pair, s0, Boot(1, wave));
    var before: seq<Event>, at: State;
    before, at := ReadOne(pair, up, wave, stored);
    MoveOne(pair, at, wave, stored, secret);
    var moved: seq<Event>, after: State;
    moved, after := More(pair, up, before, at, RewrapHead(1, 0));
    MovedLast(pair, up, before, at, after, 1, 1);
    OneOnPage(after.rows, [(1, after.rows[1])]);
    Completes(pair, after, 1);
    events, s := More(pair, up, moved, after, FetchPage(1, []));
    assert events[..4] == moved && events[..3] == before && moved[..3] == before && moved[..4] == moved;
  }

  lemma MoveOne(pair: Pair, s: State, wave: Wave, stored: Stored, secret: Secret)
    requires s.rows == map[1 := stored] && 1 in s.replicas && s.replicas[1].wave == wave
    requires s.replicas[1].phase == Rewrapping(1, [(1, stored)], 0)
    requires Open(KeysOf(pair, wave), stored) == Some(secret) && !UnderCurrent(KeysOf(pair, wave), stored)
    ensures var t := TryHead(pair, s, 1, 0);
      && t.rows == map[1 := Sealed(KeysOf(pair, wave).current, 0, secret)]
      && t == In(s, 1, Rewrapping(1, [], 0)).(rows := t.rows)
  {
    assert s.replicas[1].phase.page[1..] == [];
  }

  lemma OneOnPage(rows: Rows, page: seq<Entry>)
    requires |page| == 1 && page[0].0 == 1 && rows == map[1 := page[0].1]
    ensures IsPage(rows, -1, page) && IsPage(rows, 1, [])
  {
    assert page[0] in page;
    assert page == [page[0]];
  }

  lemma ReadOne(pair: Pair, up: State, wave: Wave, stored: Stored) returns (events: seq<Event>, s: State)
    requires up.rows == map[1 := stored] && Open(KeysOf(pair, wave), stored).Some?
    requires 1 in up.replicas && up.replicas[1].wave == wave && up.replicas[1].phase == Preflight(-1)
    ensures RunFrom(pair, up, events) == Some(s) && |events| == 3 && forall i :: 0 <= i < 3 ==> !events[i].Boot?
    ensures s == In(up, 1, Rewrapping(1, [(1, stored)], 0))
  {
    var page := [(1, stored)];
    OneOnPage(up.rows, page);
    PreflightPasses(pair, up, 1, page);
    events, s := ReadAll(pair, up, page);
    InTwice(up, 1, Rewrapping(-1, [], 0), Rewrapping(1, page, 0));
    events, s := More(pair, up, events, s, FetchPage(1, page));
  }

  /**
    * The exact condition for everybody else, over every run of every fleet: a completed startup
    * leaves a running replica able to read every row it moved if and only if the startup's
    * current key is the replica's current or previous key.
    */
  lemma NeverLocksOutIff(pair: Pair, keys: Keys, theirs: Keys)
    ensures NeverLocksOut(pair, keys, theirs) <==> Reads(theirs, keys.current)
  {
    if Reads(theirs, keys.current) {
      forall s0: State, r: nat, wave: Wave, events: seq<Event>, s: State, q: nat, n: nat, id: Id |
          Startup(pair, s0, r, wave, Anything, events, s) && LocksOut(pair, s0, r, wave, events, s, q, n, id)
        ensures !(KeysOf(pair, wave) == keys && KeysOf(pair, s.replicas[q].wave) == theirs)
      {
        if KeysOf(pair, wave) == keys {
          MovedStaysReadable(pair, s0, r, wave, events, s, n, id, theirs);
        }
      }
    } else {
      var wave, s0 := Misconfigured(keys), OneRow(Plain(5), 5, Misconfigured(theirs));
      var events, s := OneRowStartup(pair, s0, wave, Plain(5), 5);
      assert Startup(pair, s0, 1, wave, Anything, events, s);
      assert LocksOut(pair, s0, 1, wave, events, s, 9, 3, 1);
    }
  }

  /**
    * The case of a mistyped key: the row is under the old key, which the startup has as its
    * previous one, so the preflight passes; its current key is nobody else's. The startup
    * completes and serves, and the replica that was serving can no longer read the row.
    */
  lemma MistypedKeyLocksOut(pair: Pair, mistyped: Key) returns (s0: State, events: seq<Event>, s: State)
    requires mistyped != pair.oldKey && mistyped != pair.newKey
    ensures s0 == OneRow(Sealed(pair.oldKey, 3, 5), 5, OldThenNew)
    ensures Startup(pair, s0, 1, Misconfigured(Keys(mistyped, Some(pair.oldKey))), Anything, events, s)
    ensures LocksOut(pair, s0, 1, Misconfigured(Keys(mistyped, Some(pair.oldKey))), events, s, 9, 3, 1)
    ensures Locked(KeysOf(pair, OldThenNew), s.rows, 1) && !Locked(KeysOf(pair, OldThenNew), s0.rows, 1)
  {
    s0 := OneRow(Sealed(pair.oldKey, 3, 5), 5, OldThenNew);
    events, s := OneRowStartup(pair, s0, Misconfigured(Keys(mistyped, Some(pair.oldKey))), Sealed(pair.oldKey, 3, 5), 5);
  }
}
