/**
  * The staged procedure can be carried through: a run over all its stages, from a secret under
  * the old key to a replica that knows only the new key and reads it.
  */
module RolloutRun {
  import opened Options
  import opened SecretBox
  import opened SecretRewrap
  import opened KeyRotation
  import opened ForeignKeys

  /** Replica 1 has just been started, with one row in the table that it can read. */
  ghost predicate JustStarted(pair: Pair, s: State, stored: Stored, secret: Secret) {
    && s.rows == map[1 := stored] && 1 in s.replicas && s.replicas[1].phase == Preflight(-1)
    && Open(KeysOf(pair, s.replicas[1].wave), stored) == Some(secret)
  }

  /** What a startup makes of the row. */
  function Resulting(keys: Keys, stored: Stored, secret: Secret): Stored {
    if UnderCurrent(keys, stored) then stored else Sealed(keys.current, 0, secret)
  }

  /** It reads the row, moves it if need be, and serves. */
  lemma StartsUp(pair: Pair, s0: State, events: seq<Event>, s: State, stored: Stored, secret: Secret)
      returns (more: seq<Event>, t: State)
    requires Reaches(pair, s0, events, s) && JustStarted(pair, s, stored, secret)
    ensures Reaches(pair, s0, more, t)
    ensures t.rows == map[1 := Resulting(KeysOf(pair, s.replicas[1].wave), stored, secret)]
    ensures t.replicas == In(s, 1, Serving).replicas && t.stage == s.stage
    ensures t.converged == (s.converged || s.replicas[1].bootedIn.Convergence?)
  {
    var page := [(1, stored)];
    more, t := ReadsOne(pair, s0, events, s, stored, secret);
    HeadIsSettled(pair, t, stored, secret);
    more, t := ReachesMore(pair, s0, more, t, RewrapHead(1, 0));
    OneOnPage(t.rows, [(1, t.rows[1])]);
    more, t := ReachesMore(pair, s0, more, t, FetchPage(1, []));
  }

  lemma ReadsOne(pair: Pair, s0: State, events: seq<Event>, s: State, stored: Stored, secret: Secret)
      returns (more: seq<Event>, t: State)
    requires Reaches(pair, s0, events, s) && JustStarted(pair, s, stored, secret)
    ensures Reaches(pair, s0, more, t) && t == In(s, 1, Rewrapping(1, [(1, stored)], 0))
  {
    var page := [(1, stored)];
    OneOnPage(s.rows, page);
    PreflightPasses(pair, s, 1, page);
    more, t := ReachesMore(pair, s0, events, s, PreflightPage(1, page));
    more, t := ReachesMore(pair, s0, more, t, PreflightPage(1, []));
    InTwice(s, 1, Preflight(1), Rewrapping(-1, [], 0));
    Fetches(pair, t, 1, page);
    more, t := ReachesMore(pair, s0, more, t, FetchPage(1, page));
    InTwice(s, 1, Rewrapping(-1, [], 0), Rewrapping(1, page, 0));
  }

  lemma HeadIsSettled(pair: Pair, s: State, stored: Stored, secret: Secret)
    requires s.rows == map[1 := stored] && 1 in s.replicas
    requires s.replicas[1].phase == Rewrapping(1, [(1, stored)], 0)
    requires Open(KeysOf(pair, s.replicas[1].wave), stored) == Some(secret)
    ensures var t := TryHead(pair, s, 1, 0);
      && t.rows == map[1 := Resulting(KeysOf(pair, s.replicas[1].wave), stored, secret)]
      && t == In(s, 1, Rewrapping(1, [], 0)).(rows := t.rows)
  {
    assert s.replicas[1].phase.page[1..] == [];
  }

  /** Starting replica 1 with a wave of the stage, from a fleet of nobody, and running its startup. */
  lemma BootAndServe(pair: Pair, s0: State, events: seq<Event>, s: State, wave: Wave, stored: Stored, secret: Secret)
      returns (more: seq<Event>, t: State)
    requires Reaches(pair, s0, events, s) && s.replicas == map[] && Deployed(s.stage, wave)
    requires s.rows == map[1 := stored] && Open(KeysOf(pair, wave), stored) == Some(secret)
    ensures Reaches(pair, s0, more, t) && t.rows == map[1 := Resulting(KeysOf(pair, wave), stored, secret)]
    ensures t.stage == s.stage && t.converged == (s.converged || s.stage.Convergence?)
    ensures t.replicas == map[1 := Replica(wave, s.stage, Serving)]
  {
    more, t := ReachesMore(pair, s0, events, s, Boot(1, wave));
    more, t := StartsUp(pair, s0, more, t, stored, secret);
  }

  /** The replica is stopped and the operator moves on. */
  lemma StopAndAdvance(pair: Pair, s0: State, events: seq<Event>, s: State) returns (more: seq<Event>, t: State)
    requires Reaches(pair, s0, events, s) && 1 in s.replicas && s.replicas.Keys == {1} && !s.stage.Final?
    requires s.stage.Convergence? ==> s.converged
    ensures Reaches(pair, s0, more, t) && t == s.(replicas := map[], stage := Next(s.stage))
  {
    more, t := ReachesMore(pair, s0, events, s, Crash(1));
    assert t.replicas == map[];
    more, t := ReachesMore(pair, s0, more, t, NextStage);
  }

  /**
    * From a secret under the old key, through every stage, to a replica serving with the new
    * key alone: the row is under the new key and reads as it did.
    */
  lemma RolloutCompletes(pair: Pair) returns (s0: State, events: seq<Event>, s: State)
    requires pair.oldKey != pair.newKey
    ensures Reaches(pair, s0, events, s) && s0.rows == map[1 := Sealed(pair.oldKey, 3, 5)]
    ensures s.stage.Final? && s.replicas == map[1 := Replica(NewOnly, Final, Serving)]
    ensures s.rows == map[1 := Sealed(pair.newKey, 0, 5)]
  {
    s0 := State(map[1 := Sealed(pair.oldKey, 3, 5)], map[1 := 5], map[], Compatibility, false);
    assert Reaches(pair, s0, [], s0);
    events, s := BootAndServe(pair, s0, [], s0, OldThenNew, Sealed(pair.oldKey, 3, 5), 5);
    events, s := StopAndAdvance(pair, s0, events, s);
    events, s := BootAndServe(pair, s0, events, s, NewThenOld, Sealed(pair.oldKey, 3, 5), 5);
    events, s := StopAndAdvance(pair, s0, events, s);
    events, s := BootAndServe(pair, s0, events, s, NewThenOld, Sealed(pair.newKey, 0, 5), 5);
    events, s := StopAndAdvance(pair, s0, events, s);
    events, s := BootAndServe(pair, s0, events, s, NewOnly, Sealed(pair.newKey, 0, 5), 5);
  }
}
