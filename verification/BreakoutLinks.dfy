/**
  * One user's connection to the breakout events: it is lost at any moment, and on the way back
  * the client subscribes first and is sent the snapshot later, so that what happens in between
  * queues up and is delivered after a snapshot that already contains it.
  */
module BreakoutLinks {
  import opened Options
  import opened Breakout

  datatype Conn = Offline | Joining(queue: seq<ClientEvent>) | Online

  /** `blind` is history: the client joined on a draft, and nothing was announced since it subscribed. */
  datatype Link = Link(server: Server, view: View, conn: Conn, blind: bool)

  /** Of what is to be sent, `n` events get through; the connection breaks unless that is all. */
  datatype Step =
    | Do(c: Command, n: nat)
    | Lose
    | Subscribe
    | SendSnapshot(n: nat)

  function Delivered(l: Link, events: seq<ClientEvent>, n: nat, blind: bool): Link {
    if n >= |events| then l.(view := SeenAll(l.view, events), conn := Online, blind := blind)
    else l.(view := SeenAll(l.view, events[..n]), conn := Offline)
  }

  function Next(l: Link, step: Step, user: User, whep: RoomId -> string): Link {
    match step
    case Lose => l.(conn := Offline)
    case Subscribe => l.(conn := Joining([]))
    case SendSnapshot(n) =>
      if l.conn.Joining? then
        Delivered(l, Hydration(l.server, user, whep) + l.conn.queue, n, Drafting(l.server) && l.conn.queue == [])
      else l
    case Do(c, n) =>
      var events, after := Sent(l.server, c, user, whep), l.(server := After(l.server, c));
      match l.conn
      case Offline => after
      case Joining(queue) => after.(conn := Joining(queue + events))
      case Online => Delivered(after, events, n, l.blind && events == [])
  }

  function Reached(steps: seq<Step>, user: User, whep: RoomId -> string): Link {
    if steps == [] then Link(Server(false, []), View(false, [], None), Online, false)
    else Next(Reached(steps[..|steps| - 1], user, whep), steps[|steps| - 1], user, whep)
  }

  // ---------------------------------------------------------------- what is queued

  /** After a close, and before another open, nobody is told a room. */
  predicate Tidy(events: seq<ClientEvent>) {
    LastReset(events) == Some(false) ==> LastMine(events) == Some(None)
  }

  /** What a queue says about the server it was collected from. */
  ghost predicate QueueInv(s: Server, queue: seq<ClientEvent>, user: User, whep: RoomId -> string) {
    && (s.open ==> LastReset(queue) != Some(false))
    && (LastReset(queue) == Some(true) && !s.open ==> Drafting(s))
    && (queue != [] ==> LastRooms(queue) == Some(s.rooms))
    && (queue != [] && RoomFor(s, user).Some? ==> LastMine(queue) == Some(OnRecord(s, user, whep)))
    && (forall k :: 0 <= k <= |queue| ==> Tidy(queue[..k]))
  }

  lemma OnRecordMeansListed(s: Server, user: User)
    ensures RoomFor(s, user).Some? ==> s.open && Listed(s.rooms, user)
    ensures s.open && Listed(s.rooms, user) ==> RoomFor(s, user).Some?
  {
    if s.open && RoomFor(s, user).Some? {
      var room := RoomListing(s.rooms, user).value;
      assert room in s.rooms && user in room.members;
    }
  }

  lemma LayoutSays(e: ClientEvent)
    requires e.Opened? || e.Updated? || e.Closed?
    ensures LastMine([e]) == if e.Closed? then Some(None) else None
  {
    assert [e][..0] == [];
  }

  /** A prefix of what one command sends: the layout event alone, or everything. */
  lemma SentPrefixSays(s: Server, c: Command, user: User, whep: RoomId -> string, k: nat)
    requires k <= |Sent(s, c, user, whep)|
    ensures var part := Sent(s, c, user, whep)[..k];
      && (LastReset(part) == Some(false) ==> LastMine(part) == Some(None))
      && (LastMine(part).Some? && LastMine(part).value.Some? ==> After(s, c).open && (LastReset(part) == Some(true) || s.open))
  {
    var sent := Sent(s, c, user, whep);
    if Accepted(s, c) {
      SentSays(s, c, user, whep);
      AfterIs(s, c);
      if k == |sent| {
        assert sent[..k] == sent;
      } else if k == 1 {
        assert sent[..k] == [sent[0]];
        LayoutSays(sent[0]);
      } else {
        assert k == 0 && sent[..k] == [];
      }
    }
  }

  lemma QueueStep(s: Server, queue: seq<ClientEvent>, c: Command, user: User, whep: RoomId -> string)
    requires QueueInv(s, queue, user, whep)
    ensures QueueInv(After(s, c), queue + Sent(s, c, user, whep), user, whep)
  {
    var sent, after := Sent(s, c, user, whep), After(s, c);
    AfterIs(s, c);
    if Accepted(s, c) {
      SentSays(s, c, user, whep);
      LastOfBoth(queue, sent);
      OnRecordMeansListed(after, user);
      forall k | 0 <= k <= |queue + sent|
        ensures Tidy((queue + sent)[..k])
      {
        QueuePrefixIsTidy(s, queue, c, user, whep, k);
      }
    } else {
      assert queue + sent == queue;
    }
  }

  lemma QueuePrefixIsTidy(s: Server, queue: seq<ClientEvent>, c: Command, user: User, whep: RoomId -> string, k: nat)
    requires QueueInv(s, queue, user, whep) && k <= |queue + Sent(s, c, user, whep)|
    ensures Tidy((queue + Sent(s, c, user, whep))[..k])
  {
    var sent := Sent(s, c, user, whep);
    PrefixOfBoth(queue, sent, k);
    if k > |queue| {
      var part := sent[..k - |queue|];
      assert queue[..|queue|] == queue;
      SentPrefixSays(s, c, user, whep, k - |queue|);
      TidyTogether(s.open, queue, part);
    }
  }

  lemma PrefixOfBoth<T>(a: seq<T>, b: seq<T>, k: nat)
    requires k <= |a + b|
    ensures (a + b)[..k] == if k <= |a| then a[..k] else a + b[..k - |a|]
  {}

  lemma TidyTogether(open: bool, queue: seq<ClientEvent>, part: seq<ClientEvent>)
    requires Tidy(queue) && Tidy(part)
    requires open ==> LastReset(queue) != Some(false)
    requires LastMine(part).Some? && LastMine(part).value.Some? ==> LastReset(part) == Some(true) || open
    ensures Tidy(queue + part)
  {
    LastOfBoth(queue, part);
  }

  // ---------------------------------------------------------------- a connected client

  ghost predicate OnlineInv(s: Server, v: View, blind: bool) {
    && (s.open ==> v.open)
    && (v.open && !s.open ==> Drafting(s))
    && (blind ==> Drafting(s) && !v.open && v.rooms == [])
    && (!blind ==> v.rooms == s.rooms)
  }

  ghost predicate LinkInv(l: Link, user: User, whep: RoomId -> string) {
    && (l.server.open ==> l.server.rooms != [])
    && match l.conn
       case Offline => true
       case Joining(queue) => QueueInv(l.server, queue, user, whep)
       case Online => OnlineInv(l.server, l.view, l.blind)
  }

  lemma OnlineStep(s: Server, v: View, blind: bool, c: Command, user: User, whep: RoomId -> string)
    requires OnlineInv(s, v, blind)
    ensures var sent := Sent(s, c, user, whep); OnlineInv(After(s, c), SeenAll(v, sent), blind && sent == [])
  {
    AfterIs(s, c);
    if Accepted(s, c) {
      SentSays(s, c, user, whep);
      SeenAllIs(v, Sent(s, c, user, whep));
    }
  }

  /** The view of a client that got its snapshot and its whole queue. */
  lemma JoinedIs(v: View, s: Server, queue: seq<ClientEvent>, user: User, whep: RoomId -> string)
    ensures var w, hydrated := SeenAll(v, Hydration(s, user, whep) + queue), Hydrated(v, s, user, whep);
      && w.open == Or(LastReset(queue), s.open)
      && w.rooms == Or(LastRooms(queue), if s.open then s.rooms else [])
      && w.myRoom == Or(LastMine(queue), hydrated.myRoom)
  {
    SeenAllConcat(v, Hydration(s, user, whep), queue);
    HydratedIs(v, s, user, whep);
    SeenAllIs(Hydrated(v, s, user, whep), queue);
  }

  lemma LinkStep(l: Link, step: Step, user: User, whep: RoomId -> string)
    requires LinkInv(l, user, whep)
    ensures LinkInv(Next(l, step, user, whep), user, whep)
  {
    match step {
      case Lose =>
      case Subscribe =>
      case SendSnapshot(n) =>
        if l.conn.Joining? {
          JoinedIs(l.view, l.server, l.conn.queue, user, whep);
        }
      case Do(c, n) =>
        AfterIs(l.server, c);
        match l.conn {
          case Offline =>
          case Joining(queue) => QueueStep(l.server, queue, c, user, whep);
          case Online => OnlineStep(l.server, l.view, l.blind, c, user, whep);
        }
    }
  }

  lemma {:induction false} ReachedInv(steps: seq<Step>, user: User, whep: RoomId -> string)
    ensures LinkInv(Reached(steps, user, whep), user, whep)
  {
    if steps != [] {
      var front := steps[..|steps| - 1];
      ReachedInv(front, user, whep);
      LinkStep(Reached(front, user, whep), steps[|steps| - 1], user, whep);
    }
  }

  /**
    * Over every run, whatever was lost and whatever happened while joining: a connected client
    * is open whenever the server is, and open otherwise only while a draft is pending; its
    * rooms are the server's, or none exactly if the server has none or it joined on a draft and
    * nothing was announced since it subscribed.
    */
  lemma ConnectedView(steps: seq<Step>, user: User, whep: RoomId -> string)
    ensures var l := Reached(steps, user, whep);
      l.conn.Online? ==>
        && (l.server.open ==> l.view.open && l.view.rooms == l.server.rooms)
        && (l.view.open ==> l.server.open || Drafting(l.server))
        && (l.view.rooms == l.server.rooms <==> !l.blind)
        && (l.view.rooms == [] <==> l.server.rooms == [] || l.blind)
  {
    ReachedInv(steps, user, whep);
  }

  // ---------------------------------------------------------------- what holds throughout a run

  /** A question about a state of the run that holds at its beginning. */
  type Property = Link -> bool

  /** A step after which the property may be gone. */
  type Breaks = (Link, Step) -> bool

  ghost predicate HoldsAfter(p: Property, steps: seq<Step>, n: nat, user: User, whep: RoomId -> string)
    requires n <= |steps|
  {
    p(Reached(steps[..n], user, whep))
  }

  ghost predicate Throughout(p: Property, steps: seq<Step>, user: User, whep: RoomId -> string) {
    forall n: nat :: n <= |steps| ==> HoldsAfter(p, steps, n, user, whep)
  }

  ghost predicate BreaksAt(b: Breaks, steps: seq<Step>, n: nat, user: User, whep: RoomId -> string)
    requires n < |steps|
  {
    b(Reached(steps[..n], user, whep), steps[n])
  }

  ghost predicate NeverBreaks(b: Breaks, steps: seq<Step>, user: User, whep: RoomId -> string) {
    forall n: nat :: n < |steps| ==> !BreaksAt(b, steps, n, user, whep)
  }

  /** Where the property holds, a step keeps it exactly if it does not break it. */
  ghost predicate BrokenExactlyBy(p: Property, b: Breaks, user: User, whep: RoomId -> string) {
    && p(Reached([], user, whep))
    && forall l, step :: LinkInv(l, user, whep) && p(l) ==> (p(Next(l, step, user, whep)) <==> !b(l, step))
  }

  lemma HoldsOneMore(p: Property, steps: seq<Step>, user: User, whep: RoomId -> string)
    requires steps != []
    ensures Throughout(p, steps, user, whep) <==>
            Throughout(p, steps[..|steps| - 1], user, whep) && HoldsAfter(p, steps, |steps|, user, whep)
  {
    var front := steps[..|steps| - 1];
    forall n: nat | n <= |front|
      ensures HoldsAfter(p, front, n, user, whep) <==> HoldsAfter(p, steps, n, user, whep)
    {
      assert front[..n] == steps[..n];
    }
  }

  lemma BreaksOneMore(b: Breaks, steps: seq<Step>, user: User, whep: RoomId -> string)
    requires steps != []
    ensures NeverBreaks(b, steps, user, whep) <==>
            NeverBreaks(b, steps[..|steps| - 1], user, whep) && !BreaksAt(b, steps, |steps| - 1, user, whep)
  {
    var front := steps[..|steps| - 1];
    forall n: nat | n < |front|
      ensures BreaksAt(b, front, n, user, whep) <==> BreaksAt(b, steps, n, user, whep)
    {
      assert front[..n] == steps[..n];
    }
  }

  /** Such a property holds throughout a run if and only if no step of the run breaks it. */
  lemma {:induction false} ThroughoutIff(p: Property, b: Breaks, steps: seq<Step>, user: User, whep: RoomId -> string)
    requires BrokenExactlyBy(p, b, user, whep)
    ensures Throughout(p, steps, user, whep) <==> NeverBreaks(b, steps, user, whep)
  {
    if steps == [] {
      assert steps[..0] == [];
    } else {
      var front, last := steps[..|steps| - 1], steps[|steps| - 1];
      assert steps[..|steps|] == steps;
      ThroughoutIff(p, b, front, user, whep);
      HoldsOneMore(p, steps, user, whep);
      BreaksOneMore(b, steps, user, whep);
      ReachedInv(front, user, whep);
      if Throughout(p, front, user, whep) {
        assert HoldsAfter(p, front, |front|, user, whep) && front[..|front|] == front;
      }
    }
  }

  // ---------------------------------------------------------------- closed and yet in a room

  predicate NotMisplaced(l: Link) {
    l.view.open || l.view.myRoom == None
  }

  /**
    * The snapshot is closed, none of the queued events delivered after it opens or closes, and
    * the last of them about the client's own room names one.
    */
  predicate Misplaces(l: Link, step: Step) {
    step.SendSnapshot? && step.n > 0 && l.conn.Joining? && !l.server.open &&
    var queue := l.conn.queue;
    var part := queue[..if step.n - 1 < |queue| then step.n - 1 else |queue|];
    LastReset(part) == None && LastMine(part).Some? && LastMine(part).value.Some?
  }

  lemma SnapshotMisplacesIff(l: Link, n: nat, user: User, whep: RoomId -> string)
    requires LinkInv(l, user, whep) && NotMisplaced(l) && l.conn.Joining?
    ensures NotMisplaced(Next(l, SendSnapshot(n), user, whep)) <==> !Misplaces(l, SendSnapshot(n))
  {
    var hydration, queue := Hydration(l.server, user, whep), l.conn.queue;
    var m := if n < |hydration + queue| then n else |hydration + queue|;
    PrefixOfBoth(hydration, queue, m);
    assert (hydration + queue)[..|hydration + queue|] == hydration + queue;
    if m < |hydration| {
      HydrationBegins(l.view, l.server, m, user, whep);
    } else {
      var part := queue[..m - |hydration|];
      assert hydration[..|hydration|] + [] == hydration && queue[..0] == [];
      PartOfQueueMisplacesIff(l.view, l.server, part, user, whep);
      assert Tidy(part);
    }
  }

  lemma HydrationBegins(v: View, s: Server, m: nat, user: User, whep: RoomId -> string)
    requires m < |Hydration(s, user, whep)|
    ensures var w := SeenAll(v, Hydration(s, user, whep)[..m]);
      if m == 0 then w == v else w == Seen(v, Snapshot(s.open, s.rooms)) && s.open
  {
    if m > 0 {
      assert Hydration(s, user, whep)[..1] == [Snapshot(s.open, s.rooms)];
      SeenOneOrTwo(v, Snapshot(s.open, s.rooms), Snapshot(s.open, s.rooms));
    }
  }

  lemma PartOfQueueMisplacesIff(v: View, s: Server, part: seq<ClientEvent>, user: User, whep: RoomId -> string)
    requires Tidy(part)
    ensures var w := SeenAll(v, Hydration(s, user, whep) + part);
      w.open || w.myRoom == None <==>
      !(!s.open && LastReset(part) == None && LastMine(part).Some? && LastMine(part).value.Some?)
  {
    JoinedIs(v, s, part, user, whep);
    HydratedIs(v, s, user, whep);
  }

  lemma DoNeverMisplaces(l: Link, c: Command, n: nat, user: User, whep: RoomId -> string)
    requires LinkInv(l, user, whep) && NotMisplaced(l)
    ensures NotMisplaced(Next(l, Do(c, n), user, whep))
  {
    if l.conn.Online? {
      var sent := Sent(l.server, c, user, whep);
      var k := if n < |sent| then n else |sent|;
      assert sent[..|sent|] == sent;
      SentPrefixSays(l.server, c, user, whep, k);
      SeenAllIs(l.view, sent[..k]);
    }
  }

  /**
    * A closed client has no assignment, throughout a run, if and only if no snapshot of the run
    * is closed while events queued before it, with no open or close among them, still name a room.
    */
  lemma ClosedMeansUnassignedIff(steps: seq<Step>, user: User, whep: RoomId -> string)
    ensures Throughout(NotMisplaced, steps, user, whep) <==> NeverBreaks(Misplaces, steps, user, whep)
  {
    forall l, step | LinkInv(l, user, whep) && NotMisplaced(l)
      ensures NotMisplaced(Next(l, step, user, whep)) <==> !Misplaces(l, step)
    {
      match step {
        case Do(c, n) => DoNeverMisplaces(l, c, n, user, whep);
        case SendSnapshot(n) =>
          if l.conn.Joining? {
            SnapshotMisplacesIff(l, n, user, whep);
          }
        case Lose =>
        case Subscribe =>
      }
    }
    ThroughoutIff(NotMisplaced, Misplaces, steps, user, whep);
  }

  // ---------------------------------------------------------------- the user's own assignment

  predicate Right(l: Link, user: User, whep: RoomId -> string) {
    l.conn.Online? ==> l.view.myRoom == OnRecord(l.server, user, whep)
  }

  /**
    * The client is left believing in a room that it is not in: a draft that does not list it is
    * announced to it, or it joins a layout that does not list it while the queued events, or
    * failing these its own memory and an open snapshot, say that it has a room.
    */
  predicate Forgets(l: Link, step: Step, user: User, whep: RoomId -> string) {
    match step
    case Lose => false
    case Subscribe => false
    case SendSnapshot(n) =>
      && l.conn.Joining? && n >= |Hydration(l.server, user, whep) + l.conn.queue| && RoomFor(l.server, user).None?
      && Or(LastMine(l.conn.queue), if l.server.open then l.view.myRoom else None).Some?
    case Do(c, n) =>
      && l.conn.Online? && n > 0 && Accepted(l.server, c) && c.Draft? && !Listed(c.rooms, user)
      && l.view.myRoom.Some?
  }

  lemma SnapshotForgetsIff(l: Link, n: nat, user: User, whep: RoomId -> string)
    requires LinkInv(l, user, whep) && l.conn.Joining?
    ensures Right(Next(l, SendSnapshot(n), user, whep), user, whep) <==> !Forgets(l, SendSnapshot(n), user, whep)
  {
    JoinedIs(l.view, l.server, l.conn.queue, user, whep);
    HydratedIs(l.view, l.server, user, whep);
  }

  lemma DoForgetsIff(l: Link, c: Command, n: nat, user: User, whep: RoomId -> string)
    requires LinkInv(l, user, whep) && Right(l, user, whep)
    ensures Right(Next(l, Do(c, n), user, whep), user, whep) <==> !Forgets(l, Do(c, n), user, whep)
  {
    if l.conn.Online? && Accepted(l.server, c) {
      var sent, after := Sent(l.server, c, user, whep), After(l.server, c);
      SentSays(l.server, c, user, whep);
      SeenAllIs(l.view, sent);
      OnRecordMeansListed(after, user);
      OnRecordMeansListed(l.server, user);
      if c.Assign? && c.user != user && OnRecord(l.server, user, whep).Some? {
        var room := RoomListing(l.server.rooms, user).value;
        AssignKeepsOthersListed(l.server.rooms, c.user, c.room, room, user);
      }
    }
  }

  lemma AssignKeepsOthersListed(rooms: seq<Room>, user: User, target: Option<RoomId>, room: Room, other: User)
    requires room in rooms && other in room.members && other != user
    ensures Listed(Assigned(rooms, user, target), other)
  {
    var k :| 0 <= k < |rooms| && rooms[k] == room;
    WithoutMembers(room.members, user);
    var after := Assigned(rooms, user, target);
    assert AllWithout(rooms, user)[k].members <= after[k].members;
    assert after[k] in after && other in after[k].members;
  }

  /**
    * Over every run: whenever the client is connected it knows its own assignment, if and only
    * if no step of the run forgets it.
    */
  lemma RightThroughoutIff(steps: seq<Step>, user: User, whep: RoomId -> string)
    ensures Throughout(l => Right(l, user, whep), steps, user, whep) <==>
            NeverBreaks((l, step) => Forgets(l, step, user, whep), steps, user, whep)
  {
    forall l, step | LinkInv(l, user, whep) && Right(l, user, whep)
      ensures Right(Next(l, step, user, whep), user, whep) <==> !Forgets(l, step, user, whep)
    {
      match step {
        case Do(c, n) => DoForgetsIff(l, c, n, user, whep);
        case SendSnapshot(n) =>
          if l.conn.Joining? {
            SnapshotForgetsIff(l, n, user, whep);
          }
        case Lose =>
        case Subscribe =>
      }
    }
    ThroughoutIff(l => Right(l, user, whep), (l, step) => Forgets(l, step, user, whep), steps, user, whep);
  }

  /** On a snapshot with nothing queued: the assignment on record is restored unless a remembered one remains. */
  lemma HydratedAssignmentIff(steps: seq<Step>, user: User, whep: RoomId -> string)
    ensures var l := Reached(steps, user, whep); var s := l.server;
      Hydrated(l.view, s, user, whep).myRoom == OnRecord(s, user, whep) <==>
      !(s.open && RoomFor(s, user).None? && l.view.myRoom.Some?)
  {
    var l := Reached(steps, user, whep);
    HydratedIs(l.view, l.server, user, whep);
  }

  // ---------------------------------------------------------------- runs that go wrong

  lemma More(steps: seq<Step>, step: Step, user: User, whep: RoomId -> string) returns (more: seq<Step>, l: Link)
    ensures more == steps + [step]
    ensures l == Reached(more, user, whep) == Next(Reached(steps, user, whep), step, user, whep)
  {
    more := steps + [step];
    assert more[..|more| - 1] == steps;
    l := Reached(more, user, whep);
  }

  /** An open layout of one room, for a client that was there from the beginning. */
  lemma OneRoom(members: seq<User>, user: User, whep: RoomId -> string) returns (steps: seq<Step>, l: Link)
    requires members == [] || members == [user]
    ensures l == Reached(steps, user, whep)
    ensures l == Link(Server(true, [Room(1, "A", members)]),
                      View(true, [Room(1, "A", members)], if members == [] then None else Some(MyAssignment(1, "A", whep(1)))),
                      Online, false)
  {
    var rooms := [Room(1, "A", members)];
    var s0 := Server(false, []);
    steps, l := More([], Do(Draft(rooms), 2), user, whep);
    SentSays(s0, Draft(rooms), user, whep);
    SeenAllIs(View(false, [], None), Sent(s0, Draft(rooms), user, whep));
    assert l == Link(Server(false, rooms), View(false, rooms, None), Online, false);
    var drafted := l;
    steps, l := More(steps, Do(Open, 2), user, whep);
    SentSays(drafted.server, Open, user, whep);
    SeenAllIs(drafted.view, Sent(drafted.server, Open, user, whep));
    assert rooms[0] in rooms;
    assert members == [] ==> !Listed(rooms, user);
    OnRecordMeansListed(l.server, user);
  }

  /** Moved to the main room while away: back again, it still believes to be in room 1. */
  lemma ReturnsToAStaleRoom(user: User, whep: RoomId -> string) returns (steps: seq<Step>, l: Link)
    ensures l == Reached(steps, user, whep) && l.conn.Online? && l.server.open
    ensures OnRecord(l.server, user, whep) == None && l.view.myRoom.Some?
  {
    var before: Link;
    steps, before := OneRoom([user], user, whep);
    var rooms := before.server.rooms;
    steps, l := More(steps, Lose, user, whep);
    steps, l := More(steps, Do(Assign(user, None), 0), user, whep);
    WithoutMembers(rooms[0].members, user);
    assert l.server.rooms == AllWithout(rooms, user) && |l.server.rooms| == 1;
    assert RoomListing(l.server.rooms, user) == None;
    steps, l := More(steps, Subscribe, user, whep);
    var joining := l;
    steps, l := More(steps, SendSnapshot(2), user, whep);
    JoinedIs(joining.view, joining.server, [], user, whep);
    HydratedIs(joining.view, joining.server, user, whep);
  }

  /** Nor need it ever disconnect: a new draft without it leaves it in its old room. */
  lemma StaysInAStaleRoom(user: User, whep: RoomId -> string) returns (steps: seq<Step>, l: Link)
    ensures l == Reached(steps, user, whep) && l.conn.Online? && Drafting(l.server) && l.view.open
    ensures OnRecord(l.server, user, whep) == None && l.view.myRoom.Some?
  {
    var before: Link;
    steps, before := OneRoom([user], user, whep);
    var draft := Draft([Room(2, "B", [])]);
    assert !Listed(draft.rooms, user);
    SentSays(before.server, draft, user, whep);
    SeenAllIs(before.view, Sent(before.server, draft, user, whep));
    steps, l := More(steps, Do(draft, 2), user, whep);
  }

  /**
    * Closed and in a room: the client subscribes to an open layout, is assigned a room, and a new
    * draft closes the layout, all before its snapshot is taken. The snapshot is closed, and the
    * queued assignment comes after it.
    */
  lemma JoinsClosedInARoom(user: User, whep: RoomId -> string) returns (steps: seq<Step>, l: Link)
    ensures l == Reached(steps, user, whep) && l.conn.Online?
    ensures !l.view.open && l.view.myRoom.Some?
  {
    steps, l := OneRoom([], user, whep);
    steps, l := More(steps, Subscribe, user, whep);
    var open, assign, draft := l, Assign(user, Some(1)), Draft([Room(2, "B", [])]);
    steps, l := More(steps, Do(assign, 0), user, whep);
    steps, l := More(steps, Do(draft, 0), user, whep);
    TwoWhileJoining(open, assign, draft, user, whep);
    AssignedThenDropped(open.server, assign, draft, user, whep);
    var all := |Hydration(l.server, user, whep) + l.conn.queue|;
    JoinsMisplaced(l, all, user, whep);
    steps, l := More(steps, SendSnapshot(all), user, whep);
  }

  lemma JoinsMisplaced(l: Link, all: nat, user: User, whep: RoomId -> string)
    requires l.conn.Joining? && !l.server.open && all == |Hydration(l.server, user, whep) + l.conn.queue|
    requires var queue := l.conn.queue; LastReset(queue) == None && LastMine(queue).Some? && LastMine(queue).value.Some?
    ensures var t := Next(l, SendSnapshot(all), user, whep); t.conn.Online? && !t.view.open && t.view.myRoom.Some?
  {
    JoinedIs(l.view, l.server, l.conn.queue, user, whep);
  }

  lemma TwoWhileJoining(l: Link, c: Command, d: Command, user: User, whep: RoomId -> string)
    requires l.conn == Joining([])
    ensures var once := After(l.server, c);
      Next(Next(l, Do(c, 0), user, whep), Do(d, 0), user, whep) ==
      l.(server := After(once, d), conn := Joining(Sent(l.server, c, user, whep) + Sent(once, d, user, whep)))
  {
    assert [] + Sent(l.server, c, user, whep) == Sent(l.server, c, user, whep);
  }

  lemma AssignedThenDropped(s: Server, assign: Command, draft: Command, user: User, whep: RoomId -> string)
    requires s == Server(true, [Room(1, "A", [])])
    requires assign == Assign(user, Some(1)) && draft == Draft([Room(2, "B", [])])
    ensures var queue := Sent(s, assign, user, whep) + Sent(After(s, assign), draft, user, whep);
      LastReset(queue) == None && LastMine(queue).Some? && LastMine(queue).value.Some?
    ensures !After(After(s, assign), draft).open
  {
    assert s.rooms[0] in s.rooms;
    assert AllWithout(s.rooms, user)[0] in AllWithout(s.rooms, user);
    FirstRoomExists(AllWithout(s.rooms, user), 1);
    var placed := After(s, assign);
    assert user in placed.rooms[0].members && placed.rooms[0] in placed.rooms;
    OnRecordMeansListed(placed, user);
    SentSays(s, assign, user, whep);
    assert !Listed(draft.rooms, user);
    SentSays(placed, draft, user, whep);
    LastOfBoth(Sent(s, assign, user, whep), Sent(placed, draft, user, whep));
  }
}
