/**
  * The staged rollout of a new data key over a fleet of replicas that boot, scan, serve,
  * write and crash in any order.
  *
  * Stage 1 teaches every replica to read both keys; stage 2 makes the new key current;
  * the convergence stage restarts replicas on the same pair; only then is the old key
  * dropped. An operator moves on when no replica of the earlier wave is left and, for the
  * last move, when a startup scan begun in the convergence stage has completed.
  */
module KeyRotation {
  import opened Options
  import opened SecretBox
  import opened SecretRewrap

  /** Key configurations in the order they are deployed, and one that is not part of the plan. */
  datatype Wave = OldOnly | OldThenNew | NewThenOld | NewOnly | Misconfigured(keys: Keys)

  datatype Stage = Compatibility | Switch | Convergence | Final

  /** A process scans (reading only), then rewraps page by page, then serves. */
  datatype Phase =
    | Preflight(cursor: int)
    | Rewrapping(cursor: int, page: seq<Entry>, lost: nat)
    | Rereading(cursor: int, page: seq<Entry>, lost: nat)
    | Serving

  datatype Replica = Replica(wave: Wave, bootedIn: Stage, phase: Phase)

  /** `written` is history: the last value the application stored under each id. */
  datatype State = State(
    rows: Rows,
    written: map<Id, Secret>,
    replicas: map<nat, Replica>,
    stage: Stage,
    converged: bool
  )

  datatype Event =
    | Boot(r: nat, wave: Wave)
    | PreflightPage(r: nat, page: seq<Entry>)
    | FetchPage(r: nat, page: seq<Entry>)
    | RewrapHead(r: nat, nonce: nat)
    | Reread(r: nat)
    | AppWrite(r: nat, id: Id, secret: Secret, nonce: nat)
    | AppDelete(r: nat, id: Id)
    | Crash(r: nat)
    | NextStage

  /** The two keys being exchanged. */
  datatype Pair = Pair(oldKey: Key, newKey: Key)

  function KeysOf(pair: Pair, wave: Wave): Keys {
    match wave
    case OldOnly => Keys(pair.oldKey, Option.None)
    case OldThenNew => Keys(pair.oldKey, Some(pair.newKey))
    case NewThenOld => Keys(pair.newKey, Some(pair.oldKey))
    case NewOnly => Keys(pair.newKey, Option.None)
    case Misconfigured(keys) => keys
  }

  /** The waves that may be running, and may be booted, in a stage. */
  predicate Deployed(stage: Stage, wave: Wave) {
    match stage
    case Compatibility => wave.OldOnly? || wave.OldThenNew?
    case Switch => wave.OldThenNew? || wave.NewThenOld?
    case Convergence => wave.NewThenOld?
    case Final => wave.NewThenOld? || wave.NewOnly?
  }

  function Next(stage: Stage): Stage {
    match stage
    case Compatibility => Switch
    case Switch => Convergence
    case _ => Final
  }

  /** What the operator checks before the next deploy. */
  ghost predicate MayAdvance(s: State) {
    && !s.stage.Final?
    && (forall r :: r in s.replicas ==> Deployed(Next(s.stage), s.replicas[r].wave))
    && (s.stage.Convergence? ==> s.converged)
  }

  /** What can happen at all, to replicas with any keys. */
  ghost predicate Possible(s: State, e: Event) {
    match e
    case NextStage => true
    case Boot(r, _) => r !in s.replicas
    case PreflightPage(r, page) =>
      r in s.replicas && s.replicas[r].phase.Preflight? && IsPage(s.rows, s.replicas[r].phase.cursor, page)
    case FetchPage(r, page) =>
      && r in s.replicas && s.replicas[r].phase.Rewrapping? && s.replicas[r].phase.page == []
      && IsPage(s.rows, s.replicas[r].phase.cursor, page)
    case RewrapHead(r, _) => r in s.replicas && s.replicas[r].phase.Rewrapping? && s.replicas[r].phase.page != []
    case Reread(r) => r in s.replicas && s.replicas[r].phase.Rereading? && s.replicas[r].phase.page != []
    case AppWrite(r, _, _, _) => r in s.replicas && s.replicas[r].phase.Serving?
    case AppDelete(r, _) => r in s.replicas && s.replicas[r].phase.Serving?
    case Crash(r) => r in s.replicas
  }

  /** What happens when the operator keeps to the procedure. */
  ghost predicate Enabled(pair: Pair, s: State, e: Event) {
    && Possible(s, e)
    && (e.NextStage? ==> MayAdvance(s))
    && (e.Boot? ==> Deployed(s.stage, e.wave))
  }

  /** The scan is done with the head of its page. */
  function DropHead(phase: Phase): Phase
    requires (phase.Rewrapping? || phase.Rereading?) && phase.page != []
  {
    Rewrapping(phase.cursor, phase.page[1..], 0)
  }

  function In(s: State, r: nat, phase: Phase): State
    requires r in s.replicas
  {
    s.(replicas := s.replicas[r := s.replicas[r].(phase := phase)])
  }

  function Down(s: State, r: nat): State {
    s.(replicas := s.replicas - {r})
  }

  /** One attempt at the head of the page: nothing to do, startup fails, or compare-and-swap. */
  function TryHead(pair: Pair, s: State, r: nat, nonce: nat): State
    requires r in s.replicas && s.replicas[r].phase.Rewrapping? && s.replicas[r].phase.page != []
  {
    var phase := s.replicas[r].phase;
    var (id, stored) := phase.page[0];
    if phase.lost == MAX_ATTEMPTS then Down(s, r)
    else match Rewrap(KeysOf(pair, s.replicas[r].wave), nonce, stored)
      case UpToDate => In(s, r, DropHead(phase))
      case Unreadable => Down(s, r)
      case Rewrapped(after) =>
        if id in s.rows && s.rows[id] == stored then
          In(s, r, DropHead(phase)).(rows := s.rows[id := after])
        else
          In(s, r, Rereading(phase.cursor, phase.page, phase.lost + 1))
  }

  /** After a lost swap: take the row as it is now, or drop it when it is gone. */
  function RereadHead(rows: Rows, phase: Phase): Phase
    requires phase.Rereading? && phase.page != []
  {
    var id := phase.page[0].0;
    if id in rows then Rewrapping(phase.cursor, phase.page[0 := (id, rows[id])], phase.lost) else DropHead(phase)
  }

  ghost function Apply(pair: Pair, s: State, e: Event): State
    requires Possible(s, e)
  {
    match e
    case NextStage => s.(stage := Next(s.stage))
    case Boot(r, wave) => s.(replicas := s.replicas[r := Replica(wave, s.stage, Preflight(-1))])
    case PreflightPage(r, page) =>
      if page == [] then In(s, r, Rewrapping(-1, [], 0))
      else if forall k :: 0 <= k < |page| ==> Open(KeysOf(pair, s.replicas[r].wave), page[k].1).Some?
      then In(s, r, Preflight(page[|page| - 1].0))
      else Down(s, r)
    case FetchPage(r, page) =>
      if page == [] then
        In(s, r, Serving).(converged := s.converged || s.replicas[r].bootedIn.Convergence?)
      else In(s, r, Rewrapping(page[|page| - 1].0, page, 0))
    case RewrapHead(r, nonce) => TryHead(pair, s, r, nonce)
    case Reread(r) => In(s, r, RereadHead(s.rows, s.replicas[r].phase))
    case AppWrite(r, id, secret, nonce) =>
      s.(rows := s.rows[id := Seal(KeysOf(pair, s.replicas[r].wave), nonce, secret)], written := s.written[id := secret])
    case AppDelete(r, id) => s.(rows := s.rows - {id}, written := s.written - {id})
    case Crash(r) => Down(s, r)
  }

  /** Before the rollout: old-key replicas serve rows that are plaintext or under the old key. */
  ghost predicate Init(pair: Pair, s: State) {
    && pair.oldKey != pair.newKey
    && s.stage.Compatibility? && !s.converged
    && (forall r :: r in s.replicas ==> s.replicas[r] == Replica(OldOnly, Compatibility, Serving))
    && s.rows.Keys == s.written.Keys
    && (forall id :: id in s.rows ==> Open(KeysOf(pair, OldOnly), s.rows[id]) == Some(s.written[id]))
  }

  ghost predicate Reaches(pair: Pair, s0: State, events: seq<Event>, s: State)
    decreases |events|
  {
    if events == [] then Init(pair, s0) && s == s0
    else exists before :: Steps(pair, s0, events, before, s)
  }

  ghost predicate Steps(pair: Pair, s0: State, events: seq<Event>, before: State, s: State)
    requires events != []
    decreases |events|, 0
  {
    var e := events[|events| - 1];
    Reaches(pair, s0, events[..|events| - 1], before) && Enabled(pair, before, e) && s == Apply(pair, before, e)
  }

  // ---------------------------------------------------------------- invariants

  /** The forms a stored secret can take in a stage. */
  predicate Allowed(pair: Pair, stage: Stage, stored: Stored) {
    match stage
    case Compatibility => stored.Plain? || (stored.Sealed? && stored.key == pair.oldKey)
    case Final => stored.Sealed? && stored.key == pair.newKey
    case _ => stored.Plain? || (stored.Sealed? && (stored.key == pair.oldKey || stored.key == pair.newKey))
  }

  ghost predicate RowsInv(pair: Pair, s: State) {
    && s.rows.Keys == s.written.Keys
    && (forall id :: id in s.rows ==> Allowed(pair, s.stage, s.rows[id]) && SecretOf(s.rows[id]) == s.written[id])
    && (forall r :: r in s.replicas ==> Deployed(s.stage, s.replicas[r].wave))
  }

  function SecretOf(stored: Stored): Secret {
    if stored.Malformed? then 0 else stored.secret
  }

  /** Under the key that will remain. */
  predicate New(pair: Pair, stored: Stored) {
    UnderCurrent(KeysOf(pair, NewThenOld), stored)
  }

  function PageOf(phase: Phase): seq<Entry> {
    if phase.Rewrapping? || phase.Rereading? then phase.page else []
  }

  /** Row `id` is still ahead in the page, read when it was not under the new key. */
  ghost predicate Pending(pair: Pair, page: seq<Entry>, id: Id) {
    exists k :: 0 <= k < |page| && page[k].0 == id && !New(pair, page[k].1)
  }

  /** Every row the scan has passed is under the new key, or is still pending in its page. */
  ghost predicate Swept(pair: Pair, rows: Rows, phase: Phase) {
    match phase
    case Preflight(_) => true
    case Serving => true
    case _ => forall id :: id in rows && id <= phase.cursor ==> New(pair, rows[id]) || Pending(pair, phase.page, id)
  }

  ghost predicate ConvergenceInv(pair: Pair, s: State) {
    && (s.stage.Compatibility? || s.stage.Switch? ==>
          !s.converged && forall r :: r in s.replicas ==> !s.replicas[r].bootedIn.Convergence?)
    && (s.stage.Convergence? ==> forall r :: r in s.replicas && s.replicas[r].bootedIn.Convergence? ==>
          Swept(pair, s.rows, s.replicas[r].phase))
    && (s.stage.Convergence? && s.converged ==> forall id :: id in s.rows ==> New(pair, s.rows[id]))
  }

  ghost predicate OpensPage(keys: Keys, page: seq<Entry>) {
    forall k :: 0 <= k < |page| ==> Open(keys, page[k].1).Some?
  }

  /** Pages hold only what their reader can open, so no startup fails on an unreadable row. */
  ghost predicate PagesInv(pair: Pair, s: State) {
    forall r :: r in s.replicas ==> OpensPage(KeysOf(pair, s.replicas[r].wave), PageOf(s.replicas[r].phase))
  }

  ghost predicate Inv(pair: Pair, s: State) {
    pair.oldKey != pair.newKey && RowsInv(pair, s) && PagesInv(pair, s) && ConvergenceInv(pair, s)
  }

  /** Whatever a stage allows in the table, every wave running in it can open. */
  lemma DeployedReadsStored(pair: Pair, stage: Stage, wave: Wave, stored: Stored)
    requires Deployed(stage, wave) && Allowed(pair, stage, stored)
    ensures Open(KeysOf(pair, wave), stored) == Some(SecretOf(stored))
  {}

  lemma RowsStep(pair: Pair, s: State, e: Event)
    requires Inv(pair, s) && Enabled(pair, s, e)
    ensures RowsInv(pair, Apply(pair, s, e))
  {
    if e.RewrapHead? {
      RewrapHeadWrites(pair, s, e.r, e.nonce);
      RewrapKeepsWaves(pair, s, e.r, e.nonce);
    } else if e.NextStage? {
      StageKeepsRows(pair, s);
    } else if e.AppWrite? || e.AppDelete? {
      AppKeepsRows(pair, s, e);
    } else {
      OthersLeaveRows(pair, s, e);
    }
  }

  lemma RewrapKeepsWaves(pair: Pair, s: State, r: nat, nonce: nat)
    requires RowsInv(pair, s) && Enabled(pair, s, RewrapHead(r, nonce))
    ensures var t := TryHead(pair, s, r, nonce); t.stage == s.stage && t.written == s.written
    ensures forall q :: q in TryHead(pair, s, r, nonce).replicas ==>
      q in s.replicas && TryHead(pair, s, r, nonce).replicas[q].wave == s.replicas[q].wave
  {}

  lemma AppKeepsRows(pair: Pair, s: State, e: Event)
    requires RowsInv(pair, s) && Enabled(pair, s, e) && (e.AppWrite? || e.AppDelete?)
    ensures RowsInv(pair, Apply(pair, s, e))
  {}

  lemma OthersLeaveRows(pair: Pair, s: State, e: Event)
    requires RowsInv(pair, s) && Enabled(pair, s, e)
    requires e.Boot? || e.PreflightPage? || e.FetchPage? || e.Reread? || e.Crash?
    ensures RowsInv(pair, Apply(pair, s, e))
  {}

  lemma StageKeepsRows(pair: Pair, s: State)
    requires Inv(pair, s) && MayAdvance(s)
    ensures RowsInv(pair, s.(stage := Next(s.stage)))
  {}

  /** A rewrap writes at most the head row, under its own current key, keeping the secret. */
  lemma RewrapHeadWrites(pair: Pair, s: State, r: nat, nonce: nat)
    requires RowsInv(pair, s) && Enabled(pair, s, RewrapHead(r, nonce))
    ensures var t := TryHead(pair, s, r, nonce);
      t.rows == s.rows ||
      (var id := s.replicas[r].phase.page[0].0;
       id in s.rows && t.rows == s.rows[id := Seal(KeysOf(pair, s.replicas[r].wave), nonce, s.written[id])])
  {
    var phase := s.replicas[r].phase;
    var (id, stored) := phase.page[0];
    RewrapKeepsSecret(KeysOf(pair, s.replicas[r].wave), nonce, stored);
  }

  /** Whether replica `r` is scanning a page in this event. */
  predicate OwnPage(e: Event, r: nat) {
    (e.RewrapHead? || e.FetchPage? || e.Reread?) && e.r == r
  }

  /** Nothing else moves a replica, except to where its rewrap has passed no row. */
  lemma OthersLeavePhase(pair: Pair, s: State, e: Event, r: nat)
    requires Possible(s, e) && !OwnPage(e, r) && r in Apply(pair, s, e).replicas
    ensures var t := Apply(pair, s, e);
      || (r in s.replicas && t.replicas[r] == s.replicas[r])
      || t.replicas[r].phase.Preflight?
      || t.replicas[r].phase == Rewrapping(-1, [], 0)
  {}

  lemma PagesStep(pair: Pair, s: State, e: Event)
    requires Inv(pair, s) && Enabled(pair, s, e)
    ensures PagesInv(pair, Apply(pair, s, e))
  {
    var t := Apply(pair, s, e);
    forall r | r in t.replicas
      ensures OpensPage(KeysOf(pair, t.replicas[r].wave), PageOf(t.replicas[r].phase))
    {
      if !OwnPage(e, r) {
        OthersLeavePhase(pair, s, e, r);
      } else if e.FetchPage? {
        RowsPageOpens(pair, s, s.replicas[r].wave, s.replicas[r].phase.cursor, e.page);
      } else if e.Reread? {
        RereadPageOpens(pair, s, r);
      } else {
        RewrapKeepsPage(pair, s, r, e.nonce);
      }
    }
  }

  /** A rewrap goes on with the page it had, or with the rest of it. */
  lemma RewrapKeepsPage(pair: Pair, s: State, r: nat, nonce: nat)
    requires Enabled(pair, s, RewrapHead(r, nonce)) && r in TryHead(pair, s, r, nonce).replicas
    ensures var after, page := TryHead(pair, s, r, nonce).replicas[r], s.replicas[r].phase.page;
      && after.wave == s.replicas[r].wave
      && (PageOf(after.phase) == page || PageOf(after.phase) == page[1..])
  {}

  lemma RowsPageOpens(pair: Pair, s: State, wave: Wave, cursor: int, page: seq<Entry>)
    requires RowsInv(pair, s) && Deployed(s.stage, wave) && IsPage(s.rows, cursor, page)
    ensures OpensPage(KeysOf(pair, wave), page)
  {
    forall k | 0 <= k < |page|
      ensures Open(KeysOf(pair, wave), page[k].1).Some?
    {
      DeployedReadsStored(pair, s.stage, wave, s.rows[page[k].0]);
    }
  }

  lemma RereadPageOpens(pair: Pair, s: State, r: nat)
    requires RowsInv(pair, s) && PagesInv(pair, s) && Enabled(pair, s, Reread(r))
    ensures OpensPage(KeysOf(pair, s.replicas[r].wave), RereadHead(s.rows, s.replicas[r].phase).page)
  {
    var id := s.replicas[r].phase.page[0].0;
    if id in s.rows {
      DeployedReadsStored(pair, s.stage, s.replicas[r].wave, s.rows[id]);
    }
  }

  /** In the convergence stage every write is under the new key. */
  lemma WritesAreNew(pair: Pair, s: State, e: Event, id: Id)
    requires Inv(pair, s) && Enabled(pair, s, e) && s.stage.Convergence?
    requires var t := Apply(pair, s, e); id in t.rows && (id !in s.rows || t.rows[id] != s.rows[id])
    ensures New(pair, Apply(pair, s, e).rows[id])
  {
    if e.RewrapHead? {
      RewrapHeadWrites(pair, s, e.r, e.nonce);
    }
  }

  /** Rows that change in the convergence stage change to the new key: scans stay as far as they were. */
  lemma SweptUnderWrites(pair: Pair, rows: Rows, rows': Rows, phase: Phase)
    requires Swept(pair, rows, phase)
    requires forall id :: id in rows' && (id !in rows || rows'[id] != rows[id]) ==> New(pair, rows'[id])
    ensures Swept(pair, rows', phase)
  {}

  lemma SweptStep(pair: Pair, s: State, e: Event, r: nat)
    requires Inv(pair, s) && Enabled(pair, s, e) && s.stage.Convergence?
    requires var t := Apply(pair, s, e); r in t.replicas && t.replicas[r].bootedIn.Convergence?
    ensures Swept(pair, Apply(pair, s, e).rows, Apply(pair, s, e).replicas[r].phase)
  {
    if OwnPage(e, r) {
      SweptOwnPage(pair, s, e, r);
    } else {
      OthersLeavePhase(pair, s, e, r);
      if r in s.replicas && Apply(pair, s, e).replicas[r] == s.replicas[r] {
        SweptByOthers(pair, s, e, s.replicas[r].phase);
      }
    }
  }

  lemma SweptOwnPage(pair: Pair, s: State, e: Event, r: nat)
    requires Inv(pair, s) && Enabled(pair, s, e) && s.stage.Convergence? && OwnPage(e, r)
    requires var t := Apply(pair, s, e); r in t.replicas && t.replicas[r].bootedIn.Convergence?
    ensures Swept(pair, Apply(pair, s, e).rows, Apply(pair, s, e).replicas[r].phase)
  {
    if e.RewrapHead? {
      SweptRewrap(pair, s, r, e.nonce);
    } else if e.FetchPage? {
      SweptFetch(pair, s.rows, s.replicas[r].phase, e.page);
    } else {
      SweptReread(pair, s.rows, s.replicas[r].phase);
    }
  }

  lemma SweptByOthers(pair: Pair, s: State, e: Event, phase: Phase)
    requires Inv(pair, s) && Enabled(pair, s, e) && s.stage.Convergence? && Swept(pair, s.rows, phase)
    ensures Swept(pair, Apply(pair, s, e).rows, phase)
  {
    var rows := Apply(pair, s, e).rows;
    forall id | id in rows && (id !in s.rows || rows[id] != s.rows[id])
      ensures New(pair, rows[id])
    {
      WritesAreNew(pair, s, e, id);
    }
    SweptUnderWrites(pair, s.rows, rows, phase);
  }

  lemma SweptRewrap(pair: Pair, s: State, r: nat, nonce: nat)
    requires Enabled(pair, s, RewrapHead(r, nonce)) && s.replicas[r].wave.NewThenOld?
    requires Swept(pair, s.rows, s.replicas[r].phase) && r in TryHead(pair, s, r, nonce).replicas
    ensures Swept(pair, TryHead(pair, s, r, nonce).rows, TryHead(pair, s, r, nonce).replicas[r].phase)
  {
    var t, page := TryHead(pair, s, r, nonce), s.replicas[r].phase.page;
    if PageOf(t.replicas[r].phase) != page {
      forall id | id in t.rows && id <= t.replicas[r].phase.cursor && !New(pair, t.rows[id])
        ensures Pending(pair, page[1..], id)
      {
        TailKeepsPending(pair, page, id);
      }
    }
  }

  lemma SweptReread(pair: Pair, rows: Rows, phase: Phase)
    requires phase.Rereading? && phase.page != [] && Swept(pair, rows, phase)
    ensures Swept(pair, rows, RereadHead(rows, phase))
  {
    forall id | id in rows && id <= phase.cursor && !New(pair, rows[id])
      ensures Pending(pair, RereadHead(rows, phase).page, id)
    {
      RereadKeepsPending(pair, rows, phase, id);
    }
  }

  lemma SweptFetch(pair: Pair, rows: Rows, phase: Phase, page: seq<Entry>)
    requires phase.Rewrapping? && phase.page == [] && Swept(pair, rows, phase) && IsPage(rows, phase.cursor, page)
    ensures page != [] ==> Swept(pair, rows, Rewrapping(page[|page| - 1].0, page, 0))
  {
    if page != [] {
      forall id | id in rows && id <= page[|page| - 1].0 && !New(pair, rows[id])
        ensures Pending(pair, page, id)
      {
        assert id <= phase.cursor ==> Pending(pair, phase.page, id);
        FetchedPageCovers(pair, rows, phase.cursor, page, id);
      }
    }
  }

  lemma FetchedPageCovers(pair: Pair, rows: Rows, cursor: int, page: seq<Entry>, id: Id)
    requires IsPage(rows, cursor, page) && page != []
    requires id in rows && cursor < id <= page[|page| - 1].0 && !New(pair, rows[id])
    ensures Pending(pair, page, id)
  {
    assert id in Ids(page);
    var entry :| entry in page && entry.0 == id;
    var k :| 0 <= k < |page| && page[k] == entry;
    assert !New(pair, page[k].1);
  }

  lemma TailKeepsPending(pair: Pair, page: seq<Entry>, id: Id)
    requires page != [] && Pending(pair, page, id) && (page[0].0 != id || New(pair, page[0].1))
    ensures Pending(pair, page[1..], id)
  {
    var k :| 0 <= k < |page| && page[k].0 == id && !New(pair, page[k].1);
    assert page[1..][k - 1] == page[k];
  }

  lemma RereadKeepsPending(pair: Pair, rows: Rows, phase: Phase, id: Id)
    requires phase.Rereading? && phase.page != [] && id in rows && !New(pair, rows[id])
    requires Pending(pair, phase.page, id)
    ensures Pending(pair, RereadHead(rows, phase).page, id)
  {
    if phase.page[0].0 in rows {
      var k :| 0 <= k < |phase.page| && phase.page[k].0 == id && !New(pair, phase.page[k].1);
      var after := RereadHead(rows, phase).page;
      assert after[k].0 == id && !New(pair, after[k].1);
    } else {
      TailKeepsPending(pair, phase.page, id);
    }
  }

  lemma ConvergenceStep(pair: Pair, s: State, e: Event)
    requires Inv(pair, s) && Enabled(pair, s, e)
    ensures ConvergenceInv(pair, Apply(pair, s, e))
  {
    var t := Apply(pair, s, e);
    StagesStep(pair, s, e);
    if s.stage.Convergence? && t.stage.Convergence? {
      forall r | r in t.replicas && t.replicas[r].bootedIn.Convergence?
        ensures Swept(pair, t.rows, t.replicas[r].phase)
      {
        SweptStep(pair, s, e, r);
      }
      forall id | t.converged && id in t.rows
        ensures New(pair, t.rows[id])
      {
        ConvergedStep(pair, s, e, id);
      }
    }
  }

  /** Before the convergence stage nothing was started in it. */
  ghost predicate NoneStarted(s: State) {
    forall r :: r in s.replicas ==> !s.replicas[r].bootedIn.Convergence?
  }

  lemma NoneStartedStep(pair: Pair, s: State, e: Event)
    requires Inv(pair, s) && Enabled(pair, s, e)
    requires s.stage.Compatibility? || s.stage.Switch?
    ensures NoneStarted(Apply(pair, s, e))
  {}

  lemma NoneCountedStep(pair: Pair, s: State, e: Event)
    requires Inv(pair, s) && Enabled(pair, s, e)
    requires s.stage.Compatibility? || s.stage.Switch?
    ensures !Apply(pair, s, e).converged
  {}

  lemma StagesOnlyAdvance(pair: Pair, s: State, e: Event)
    requires Enabled(pair, s, e)
    ensures Apply(pair, s, e).stage == if e.NextStage? then Next(s.stage) else s.stage
  {}

  /** Nothing is started in the convergence stage, and no scan counts, before the stage begins. */
  lemma StagesStep(pair: Pair, s: State, e: Event)
    requires Inv(pair, s) && Enabled(pair, s, e)
    ensures var t := Apply(pair, s, e);
      && (t.stage.Compatibility? || t.stage.Switch? ==> !t.converged && NoneStarted(t))
      && (t.stage.Convergence? && !s.stage.Convergence? ==> !t.converged && NoneStarted(t))
  {
    StagesOnlyAdvance(pair, s, e);
    if s.stage.Compatibility? || s.stage.Switch? {
      NoneStartedStep(pair, s, e);
      NoneCountedStep(pair, s, e);
    }
  }

  /** Once a scan has counted, no row is under the old key, and none comes back. */
  lemma ConvergedStep(pair: Pair, s: State, e: Event, id: Id)
    requires Inv(pair, s) && Enabled(pair, s, e) && s.stage.Convergence?
    requires Apply(pair, s, e).stage.Convergence? && Apply(pair, s, e).converged && id in Apply(pair, s, e).rows
    ensures New(pair, Apply(pair, s, e).rows[id])
  {
    var t := Apply(pair, s, e);
    if id !in s.rows || t.rows[id] != s.rows[id] {
      WritesAreNew(pair, s, e, id);
    } else if !s.converged {
      assert e.FetchPage? && e.page == [] && Swept(pair, s.rows, s.replicas[e.r].phase);
      assert id !in Ids(e.page);
    }
  }

  lemma {:induction false} ReachableInv(pair: Pair, s0: State, events: seq<Event>, s: State)
    requires Reaches(pair, s0, events, s)
    ensures Inv(pair, s)
    decreases |events|
  {
    if events != [] {
      var before :| Steps(pair, s0, events, before, s);
      var e := events[|events| - 1];
      ReachableInv(pair, s0, events[..|events| - 1], before);
      RowsStep(pair, before, e);
      PagesStep(pair, before, e);
      ConvergenceStep(pair, before, e);
    }
  }

  // ---------------------------------------------------------------- main results

  /**
    * Throughout the rollout, every running replica, serving or starting, opens every stored
    * secret and reads the value the application last wrote: rewrapping is invisible.
    */
  lemma EveryReplicaReadsLastWrite(pair: Pair, s0: State, events: seq<Event>, s: State, r: nat)
    requires Reaches(pair, s0, events, s) && r in s.replicas
    ensures s.rows.Keys == s.written.Keys
    ensures forall id :: id in s.rows ==> Open(KeysOf(pair, s.replicas[r].wave), s.rows[id]) == Some(s.written[id])
  {
    ReachableInv(pair, s0, events, s);
    forall id | id in s.rows
      ensures Open(KeysOf(pair, s.replicas[r].wave), s.rows[id]) == Some(s.written[id])
    {
      DeployedReadsStored(pair, s.stage, s.replicas[r].wave, s.rows[id]);
    }
  }

  /** A startup never goes down for want of a key: it fails only when it keeps losing the swap. */
  lemma StartupFailsOnlyOnContention(pair: Pair, s0: State, events: seq<Event>, s: State, e: Event)
    requires Reaches(pair, s0, events, s) && Enabled(pair, s, e)
    requires e.PreflightPage? || e.FetchPage? || e.RewrapHead? || e.Reread?
    ensures e.r !in Apply(pair, s, e).replicas ==> e.RewrapHead? && s.replicas[e.r].phase.lost == 4
  {
    ReachableInv(pair, s0, events, s);
    if e.PreflightPage? {
      RowsPageOpens(pair, s, s.replicas[e.r].wave, s.replicas[e.r].phase.cursor, e.page);
    } else if e.RewrapHead? {
      assert Open(KeysOf(pair, s.replicas[e.r].wave), PageOf(s.replicas[e.r].phase)[0].1).Some?;
    }
  }

  /** One scan begun and completed in the convergence stage leaves no secret under the old key. */
  lemma OneConvergenceScanSuffices(pair: Pair, s0: State, events: seq<Event>, s: State)
    requires Reaches(pair, s0, events, s)
    requires (s.stage.Convergence? && s.converged) || s.stage.Final?
    ensures forall id :: id in s.rows ==> UnderCurrent(KeysOf(pair, NewOnly), s.rows[id])
  {
    ReachableInv(pair, s0, events, s);
  }

  /** Dropping the old key is safe exactly when no stored secret is under it. */
  lemma DropIsSafeIff(pair: Pair, s0: State, events: seq<Event>, s: State)
    requires Reaches(pair, s0, events, s)
    ensures s.rows.Keys == s.written.Keys
    ensures (forall id :: id in s.rows ==> Open(KeysOf(pair, NewOnly), s.rows[id]) == Some(s.written[id]))
       <==> (forall id :: id in s.rows && s.rows[id].Sealed? ==> s.rows[id].key != pair.oldKey)
  {
    ReachableInv(pair, s0, events, s);
    forall id | id in s.rows
      ensures Open(KeysOf(pair, NewOnly), s.rows[id]) == Some(s.written[id]) <==>
              !(s.rows[id].Sealed? && s.rows[id].key == pair.oldKey)
    {
      assert Allowed(pair, s.stage, s.rows[id]) && SecretOf(s.rows[id]) == s.written[id];
    }
  }

  lemma ReachesMore(pair: Pair, s0: State, events: seq<Event>, s: State, e: Event) returns (more: seq<Event>, t: State)
    requires Reaches(pair, s0, events, s) && Enabled(pair, s, e)
    ensures t == Apply(pair, s, e) && more == events + [e] && Reaches(pair, s0, more, t)
  {
    more, t := events + [e], Apply(pair, s, e);
    assert more[..|more| - 1] == events;
    assert Steps(pair, s0, more, s, t);
  }

  /**
    * Why one successful scan before convergence is not enough: a step-1 replica still running
    * writes under the old key after a new replica's scan has passed and that replica serves.
    */
  lemma EarlyDropLosesASecret(pair: Pair) returns (s0: State, events: seq<Event>, s: State)
    requires pair.oldKey != pair.newKey
    ensures Reaches(pair, s0, events, s) && s.stage.Switch?
    ensures 2 in s.replicas && s.replicas[2].wave.NewThenOld? && s.replicas[2].phase.Serving?
    ensures 7 in s.rows && Open(KeysOf(pair, NewOnly), s.rows[7]).None?
  {
    s0 := State(map[], map[], map[], Compatibility, false);
    events, s := ReachesMore(pair, s0, [], s0, Boot(1, OldThenNew));
    events, s := EmptyScan(pair, s0, events, s, 1);
    events, s := ReachesMore(pair, s0, events, s, NextStage);
    events, s := ReachesMore(pair, s0, events, s, Boot(2, NewThenOld));
    events, s := EmptyScan(pair, s0, events, s, 2);
    events, s := ReachesMore(pair, s0, events, s, AppWrite(1, 7, 9, 0));
  }

  /** Replica `r` starts up against an empty table. */
  lemma EmptyScan(pair: Pair, s0: State, events: seq<Event>, s: State, r: nat) returns (more: seq<Event>, t: State)
    requires Reaches(pair, s0, events, s) && s.rows == map[] && !s.stage.Convergence?
    requires r in s.replicas && s.replicas[r].phase == Preflight(-1) && !s.replicas[r].bootedIn.Convergence?
    ensures Reaches(pair, s0, more, t) && t == In(s, r, Serving)
  {
    more, t := ReachesMore(pair, s0, events, s, PreflightPage(r, []));
    more, t := ReachesMore(pair, s0, more, t, FetchPage(r, []));
  }

  /** Attempts are counted row by row: whenever the scan turns to another row, none is lost yet. */
  lemma NextRowStartsAfresh(pair: Pair, s: State, e: Event, r: nat)
    requires Possible(s, e) && r in s.replicas && r in Apply(pair, s, e).replicas
    requires PageOf(Apply(pair, s, e).replicas[r].phase) != [] &&
      |PageOf(Apply(pair, s, e).replicas[r].phase)| != |PageOf(s.replicas[r].phase)|
    ensures Apply(pair, s, e).replicas[r].phase.lost == 0
  {}
}
