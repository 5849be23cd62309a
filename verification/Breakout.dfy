/**
  * Breakout rooms: the server's layout, the events it sends, and the client state they drive.
  *
  * A layout is first drafted (created or auto-split, which announces it while breakouts are
  * closed) and then opened. A client that loses its connection misses events; when it
  * reconnects it receives a snapshot of the layout and, if it is assigned to a room, its
  * assignment.
  */
module Breakout {
  import opened Options

  type User = nat
  type RoomId = nat

  datatype Room = Room(id: RoomId, name: string, members: seq<User>)

  datatype MyAssignment = MyAssignment(roomId: RoomId, roomName: string, whepUrl: string)

  // ---------------------------------------------------------------- the client

  datatype ClientEvent =
    | Opened(rooms: seq<Room>)
    | Updated(rooms: seq<Room>)
    | Closed
    | Snapshot(open: bool, rooms: seq<Room>)
    | Assignment(roomId: Option<RoomId>, roomName: string, whepUrl: string)

  datatype View = View(open: bool, rooms: seq<Room>, myRoom: Option<MyAssignment>)

  function Seen(v: View, e: ClientEvent): View {
    match e
    case Opened(rooms) => v.(open := true, rooms := rooms)
    case Updated(rooms) => v.(rooms := rooms)
    case Closed => View(false, [], None)
    case Snapshot(open, rooms) => View(open, if open then rooms else [], if open then v.myRoom else None)
    case Assignment(roomId, roomName, whepUrl) =>
      v.(myRoom := if roomId.Some? then Some(MyAssignment(roomId.value, roomName, whepUrl)) else None)
  }

  function SeenAll(v: View, events: seq<ClientEvent>): View {
    if events == [] then v else Seen(SeenAll(v, events[..|events| - 1]), events[|events| - 1])
  }

  class BreakoutClientState {
    var open: bool
    var rooms: seq<Room>
    var myRoom: Option<MyAssignment>

    function Value(): View
      reads this
    {
      View(open, rooms, myRoom)
    }

    constructor ()
      ensures Value() == View(false, [], None)
    {
      open, rooms, myRoom := false, [], None;
    }

    method OnOpened(rooms: seq<Room>)
      modifies this
      ensures Value() == Seen(old(Value()), Opened(rooms))
    {
      open := true;
      this.rooms := rooms;
    }

    method OnUpdated(rooms: seq<Room>)
      modifies this
      ensures Value() == Seen(old(Value()), Updated(rooms))
    {
      this.rooms := rooms;
    }

    method OnClosed()
      modifies this
      ensures Value() == Seen(old(Value()), Closed)
    {
      open := false;
      rooms := [];
      myRoom := None;
    }

    method OnSnapshot(open: bool, rooms: seq<Room>)
      modifies this
      ensures Value() == Seen(old(Value()), Snapshot(open, rooms))
    {
      this.open := open;
      this.rooms := if open then rooms else [];
      if !open {
        myRoom := None;
      }
    }

    /** Returns the feed to subscribe to, or None for the main room. */
    method OnMyAssignment(roomId: Option<RoomId>, roomName: string, whepUrl: string) returns (feed: Option<string>)
      modifies this
      ensures Value() == Seen(old(Value()), Assignment(roomId, roomName, whepUrl))
      ensures feed == if myRoom.Some? then Some(myRoom.value.whepUrl) else None
    {
      match roomId {
        case Some(id) =>
          myRoom := Some(MyAssignment(id, roomName, whepUrl));
          feed := Some(whepUrl);
        case None =>
          myRoom := None;
          feed := None;
      }
    }

    method Receive(e: ClientEvent)
      modifies this
      ensures Value() == Seen(old(Value()), e)
    {
      match e {
        case Opened(rooms) => OnOpened(rooms);
        case Updated(rooms) => OnUpdated(rooms);
        case Closed => OnClosed();
        case Snapshot(open, rooms) => OnSnapshot(open, rooms);
        case Assignment(roomId, roomName, whepUrl) =>
          var feed := OnMyAssignment(roomId, roomName, whepUrl);
      }
    }

    /** Handling events one by one, in order, gives the view that the lemmas are about. */
    method Follow(events: seq<ClientEvent>)
      modifies this
      ensures Value() == SeenAll(old(Value()), events)
    {
      for i := 0 to |events|
        invariant Value() == SeenAll(old(Value()), events[..i])
      {
        assert events[..i + 1][..i] == events[..i];
        Receive(events[i]);
      }
      assert events[..|events|] == events;
    }
  }

  // ---------------------------------------------------------------- the server

  datatype Server = Server(open: bool, rooms: seq<Room>)

  /** Drafts carry at least one room. */
  datatype Command =
    | Draft(rooms: seq<Room>)
    | Assign(user: User, room: Option<RoomId>)
    | Open
    | Close

  predicate HasRoom(rooms: seq<Room>, id: RoomId) {
    exists r <- rooms :: r.id == id
  }

  /** Commands the server refuses leave no trace. */
  predicate Accepted(s: Server, c: Command) {
    match c
    case Draft(rooms) => rooms != []
    case Assign(_, room) => s.rooms != [] && (room.Some? ==> HasRoom(s.rooms, room.value))
    case Open => s.rooms != []
    case Close => true
  }

  function Without(members: seq<User>, user: User): seq<User> {
    if members == [] then []
    else if members[0] == user then Without(members[1..], user)
    else [members[0]] + Without(members[1..], user)
  }

  function FirstRoom(rooms: seq<Room>, id: RoomId): (k: nat)
    ensures k <= |rooms| && (k < |rooms| ==> rooms[k].id == id)
  {
    if rooms == [] || rooms[0].id == id then 0 else 1 + FirstRoom(rooms[1..], id)
  }

  function AllWithout(rooms: seq<Room>, user: User): seq<Room> {
    seq(|rooms|, i requires 0 <= i < |rooms| => rooms[i].(members := Without(rooms[i].members, user)))
  }

  /** The user leaves every room, then joins the first with the target id. */
  function Assigned(rooms: seq<Room>, user: User, room: Option<RoomId>): (after: seq<Room>)
    ensures |after| == |rooms|
  {
    var left := AllWithout(rooms, user);
    if room.None? then left
    else
      var k := FirstRoom(left, room.value);
      if k < |left| then left[k := left[k].(members := left[k].members + [user])] else left
  }

  function After(s: Server, c: Command): Server {
    if !Accepted(s, c) then s
    else match c
      case Draft(rooms) => Server(false, rooms)
      case Assign(user, room) => s.(rooms := Assigned(s.rooms, user, room))
      case Open => s.(open := true)
      case Close => Server(false, [])
  }

  /** The first room listing the user; nobody is in a room while breakouts are closed. */
  function RoomFor(s: Server, user: User): Option<Room> {
    if s.open then RoomListing(s.rooms, user) else None
  }

  function RoomListing(rooms: seq<Room>, user: User): (r: Option<Room>)
    ensures r.Some? ==> user in r.value.members && r.value in rooms
    ensures r.None? ==> forall room <- rooms :: user !in room.members
  {
    if rooms == [] then None
    else if user in rooms[0].members then Some(rooms[0])
    else RoomListing(rooms[1..], user)
  }

  function AssignmentEvent(s: Server, user: User, whep: RoomId -> string): ClientEvent {
    match RoomFor(s, user)
    case Some(room) => Assignment(Some(room.id), room.name, whep(room.id))
    case None => Assignment(None, "", "")
  }

  /** The assignment the server has on record for a user. */
  function OnRecord(s: Server, user: User, whep: RoomId -> string): Option<MyAssignment> {
    match RoomFor(s, user)
    case Some(room) => Some(MyAssignment(room.id, room.name, whep(room.id)))
    case None => None
  }

  predicate Listed(rooms: seq<Room>, user: User) {
    exists r <- rooms :: user in r.members
  }

  /** What one command sends to one user: the new layout, then perhaps an assignment. */
  function Sent(s: Server, c: Command, user: User, whep: RoomId -> string): seq<ClientEvent> {
    var after := After(s, c);
    if !Accepted(s, c) then []
    else if c.Close? then
      [Closed] + if Listed(s.rooms, user) then [Assignment(None, "", "")] else []
    else
      var layout := if c.Open? then Opened(after.rooms) else Updated(after.rooms);
      var notified := Listed(after.rooms, user) || (c.Assign? && c.user == user);
      [layout] + if notified then [AssignmentEvent(after, user, whep)] else []
  }

  /** What a reconnecting user receives. */
  function Hydration(s: Server, user: User, whep: RoomId -> string): seq<ClientEvent> {
    [Snapshot(s.open, s.rooms)] + if RoomFor(s, user).Some? then [AssignmentEvent(s, user, whep)] else []
  }

  function Run(commands: seq<Command>): Server {
    if commands == [] then Server(false, [])
    else After(Run(commands[..|commands| - 1]), commands[|commands| - 1])
  }

  /** Everything a user who never lost the connection has been sent. */
  function Stream(commands: seq<Command>, user: User, whep: RoomId -> string): seq<ClientEvent> {
    if commands == [] then []
    else
      var before := commands[..|commands| - 1];
      Stream(before, user, whep) + Sent(Run(before), commands[|commands| - 1], user, whep)
  }

  /** The view of a client that missed nothing. */
  function FullView(commands: seq<Command>, user: User, whep: RoomId -> string): View {
    SeenAll(View(false, [], None), Stream(commands, user, whep))
  }

  // ---------------------------------------------------------------- what a sequence of events does

  function Or<T>(o: Option<T>, t: T): T {
    if o.Some? then o.value else t
  }

  /** Whether the last open, close or snapshot among the events leaves a client open. */
  function LastReset(events: seq<ClientEvent>): Option<bool> {
    if events == [] then None
    else match events[|events| - 1]
      case Opened(_) => Some(true)
      case Closed => Some(false)
      case Snapshot(open, _) => Some(open)
      case _ => LastReset(events[..|events| - 1])
  }

  /** The rooms according to the last event that carries any. */
  function LastRooms(events: seq<ClientEvent>): Option<seq<Room>> {
    if events == [] then None
    else match events[|events| - 1]
      case Opened(rooms) => Some(rooms)
      case Updated(rooms) => Some(rooms)
      case Closed => Some([])
      case Snapshot(open, rooms) => Some(if open then rooms else [])
      case Assignment(_, _, _) => LastRooms(events[..|events| - 1])
  }

  /** The client's own room according to the last event that has a say in it. */
  function LastMine(events: seq<ClientEvent>): Option<Option<MyAssignment>> {
    if events == [] then None
    else match events[|events| - 1]
      case Assignment(roomId, roomName, whepUrl) =>
        Some(if roomId.Some? then Some(MyAssignment(roomId.value, roomName, whepUrl)) else None)
      case Closed => Some(None)
      case Snapshot(open, _) => if open then LastMine(events[..|events| - 1]) else Some(None)
      case _ => LastMine(events[..|events| - 1])
  }

  /** Three questions settle what a client sees after a sequence of events. */
  lemma {:induction false} SeenAllIs(v: View, events: seq<ClientEvent>)
    ensures SeenAll(v, events) ==
      View(Or(LastReset(events), v.open), Or(LastRooms(events), v.rooms), Or(LastMine(events), v.myRoom))
  {
    if events != [] {
      SeenAllIs(v, events[..|events| - 1]);
    }
  }

  lemma {:induction false} LastOfBoth(a: seq<ClientEvent>, b: seq<ClientEvent>)
    ensures LastReset(a + b) == if LastReset(b).Some? then LastReset(b) else LastReset(a)
    ensures LastRooms(a + b) == if LastRooms(b).Some? then LastRooms(b) else LastRooms(a)
    ensures LastMine(a + b) == if LastMine(b).Some? then LastMine(b) else LastMine(a)
  {
    if b == [] {
      assert a + b == a;
    } else {
      LastOfBoth(a, b[..|b| - 1]);
      assert (a + b)[..|a + b| - 1] == a + b[..|b| - 1];
    }
  }

  lemma LastOfTwo(e: ClientEvent, f: ClientEvent)
    ensures LastReset([e, f]) == if LastReset([f]).Some? then LastReset([f]) else LastReset([e])
    ensures LastRooms([e, f]) == if LastRooms([f]).Some? then LastRooms([f]) else LastRooms([e])
    ensures LastMine([e, f]) == if LastMine([f]).Some? then LastMine([f]) else LastMine([e])
  {
    LastOfBoth([e], [f]);
    assert [e] + [f] == [e, f];
  }

  /** Users that a command tells about their own room. */
  predicate Notified(s: Server, c: Command, user: User) {
    Listed(After(s, c).rooms, user) || (c.Assign? && c.user == user)
  }

  /** What an accepted command announces: the new rooms, perhaps a reset, and to some their room. */
  lemma SentSays(s: Server, c: Command, user: User, whep: RoomId -> string)
    requires Accepted(s, c)
    ensures var sent, after := Sent(s, c, user, whep), After(s, c);
      && sent != []
      && LastReset(sent) == (if c.Open? then Some(true) else if c.Close? then Some(false) else None)
      && LastRooms(sent) == Some(after.rooms)
      && LastMine(sent) == (if c.Close? then Some(None)
                            else if Notified(s, c, user) then Some(OnRecord(after, user, whep)) else None)
  {
    var sent := Sent(s, c, user, whep);
    if |sent| == 2 {
      assert sent == [sent[0], sent[1]];
      LastOfTwo(sent[0], sent[1]);
    } else {
      assert sent == [sent[0]];
    }
  }

  /** A command does not change whether breakouts are open, except by its kind. */
  lemma AfterIs(s: Server, c: Command)
    ensures Accepted(s, c) ==>
      After(s, c).open == (if c.Open? then true else if c.Assign? then s.open else false)
    ensures Accepted(s, c) && !c.Close? ==> After(s, c).rooms != []
    ensures !Accepted(s, c) ==> After(s, c) == s
  {}

  // ---------------------------------------------------------------- what a connected client knows

  lemma {:induction false} SeenAllConcat(v: View, a: seq<ClientEvent>, b: seq<ClientEvent>)
    ensures SeenAll(v, a + b) == SeenAll(SeenAll(v, a), b)
  {
    if b == [] {
      assert a + b == a;
    } else {
      SeenAllConcat(v, a, b[..|b| - 1]);
      assert (a + b)[..|a + b| - 1] == a + b[..|b| - 1];
    }
  }
  lemma SeenOneOrTwo(v: View, e: ClientEvent, f: ClientEvent)
    ensures SeenAll(v, [e]) == Seen(v, e) && SeenAll(v, [e, f]) == Seen(Seen(v, e), f)
  {
    assert [e][..0] == [] && [e, f][..1] == [e];
  }

  /** The view keeps the server's rooms; it counts as open unless a draft is pending or all is closed. */
  ghost predicate InStep(s: Server, v: View) {
    && v.rooms == s.rooms
    && (s.open ==> v.open && s.rooms != [])
    && (v.open && !s.open ==> s.rooms != [])
    && (!v.open ==> v.myRoom == None)
  }

  lemma CommandKeepsInStep(s: Server, v: View, c: Command, user: User, whep: RoomId -> string)
    requires InStep(s, v)
    ensures InStep(After(s, c), SeenAll(v, Sent(s, c, user, whep)))
  {
    AfterIs(s, c);
    if Accepted(s, c) {
      SentSays(s, c, user, whep);
      SeenAllIs(v, Sent(s, c, user, whep));
    }
  }

  lemma {:induction false} ConnectedClientInStep(commands: seq<Command>, user: User, whep: RoomId -> string)
    ensures InStep(Run(commands), FullView(commands, user, whep))
  {
    if commands != [] {
      var before, c := commands[..|commands| - 1], commands[|commands| - 1];
      ConnectedClientInStep(before, user, whep);
      CommandKeepsInStep(Run(before), FullView(before, user, whep), c, user, whep);
      SeenAllConcat(View(false, [], None), Stream(before, user, whep), Sent(Run(before), c, user, whep));
    }
  }

  // ---------------------------------------------------------------- hydration against replay

  predicate SameLayout(a: View, b: View) {
    a.open == b.open && a.rooms == b.rooms
  }

  function Hydrated(d: View, s: Server, user: User, whep: RoomId -> string): View {
    SeenAll(d, Hydration(s, user, whep))
  }

  lemma HydratedIs(d: View, s: Server, user: User, whep: RoomId -> string)
    ensures var h := Hydrated(d, s, user, whep);
      && h.open == s.open && h.rooms == (if s.open then s.rooms else [])
      && h.myRoom == match RoomFor(s, user)
                     case Some(room) => Some(MyAssignment(room.id, room.name, whep(room.id)))
                     case None => if s.open then d.myRoom else None
  {
    var events := Hydration(s, user, whep);
    if RoomFor(s, user).Some? {
      SeenOneOrTwo(d, events[0], events[1]);
      assert events == [events[0], events[1]];
    } else {
      SeenOneOrTwo(d, events[0], events[0]);
      assert events == [events[0]];
    }
  }

  /** The server holds a layout it has announced and not opened. */
  predicate Drafting(s: Server) {
    !s.open && s.rooms != []
  }

  /**
    * Whatever a client missed, hydration gives it the layout of one that missed nothing,
    * exactly when the server is not holding a draft: a snapshot leaves drafts out.
    */
  lemma HydrationEqualsReplayIff(commands: seq<Command>, d: View, user: User, whep: RoomId -> string)
    ensures SameLayout(Hydrated(d, Run(commands), user, whep), FullView(commands, user, whep)) <==> !Drafting(Run(commands))
  {
    ConnectedClientInStep(commands, user, whep);
    HydratedIs(d, Run(commands), user, whep);
  }

  /** Drafting over open rooms closes the server's breakouts while every connected client stays open. */
  lemma RedraftLeavesClientsOpen(commands: seq<Command>, rooms: seq<Room>, user: User, whep: RoomId -> string)
    requires Run(commands).open && rooms != []
    ensures Drafting(Run(commands + [Draft(rooms)]))
    ensures FullView(commands + [Draft(rooms)], user, whep).open
  {
    var s, c := Run(commands), Draft(rooms);
    assert (commands + [c])[..|commands + [c]| - 1] == commands;
    SeenAllConcat(View(false, [], None), Stream(commands, user, whep), Sent(s, c, user, whep));
    ConnectedClientInStep(commands, user, whep);
    CommandKeepsOpen(s, FullView(commands, user, whep), c, user, whep);
  }

  lemma CommandKeepsOpen(s: Server, v: View, c: Command, user: User, whep: RoomId -> string)
    requires v.open && !c.Close?
    ensures SeenAll(v, Sent(s, c, user, whep)).open
  {
    if Accepted(s, c) {
      SentSays(s, c, user, whep);
      SeenAllIs(v, Sent(s, c, user, whep));
    }
  }

  /** Equal layouts stay equal after every later event. */
  lemma {:induction false} AgreementLasts(a: View, b: View, events: seq<ClientEvent>)
    requires SameLayout(a, b)
    ensures SameLayout(SeenAll(a, events), SeenAll(b, events))
  {
    if events != [] {
      AgreementLasts(a, b, events[..|events| - 1]);
    }
  }

  predicate Resets(e: ClientEvent) {
    e.Opened? || e.Closed? || e.Snapshot?
  }

  /**
    * Two clients that receive the same events agree afterwards exactly when they agreed
    * before, or some event carried the whole layout, or only the rooms differed and were updated.
    */
  lemma {:induction false} AgreeAfterIff(a: View, b: View, events: seq<ClientEvent>)
    ensures SameLayout(SeenAll(a, events), SeenAll(b, events)) <==>
      || SameLayout(a, b)
      || (exists e <- events :: Resets(e))
      || (a.open == b.open && exists e <- events :: e.Updated?)
    ensures SeenAll(a, events).open == SeenAll(b, events).open <==>
      a.open == b.open || exists e <- events :: Resets(e)
  {
    if events != [] {
      var front, last := events[..|events| - 1], events[|events| - 1];
      AgreeAfterIff(a, b, front);
      assert events == front + [last];
      assert (exists e <- events :: Resets(e)) <==> (exists e <- front :: Resets(e)) || Resets(last);
      assert (exists e <- events :: e.Updated?) <==> (exists e <- front :: e.Updated?) || last.Updated?;
    }
  }

  /** Nothing in a draft outlives the next open or close: then every hydrated client has caught up. */
  lemma CaughtUpAtNextOpenOrClose(commands: seq<Command>, d: View, c: Command, user: User, whep: RoomId -> string)
    requires Accepted(Run(commands), c) && (c.Open? || c.Close?)
    ensures var s := Run(commands);
      SameLayout(SeenAll(Hydrated(d, s, user, whep), Sent(s, c, user, whep)), FullView(commands + [c], user, whep))
  {
    var s, v := Run(commands), FullView(commands, user, whep);
    assert (commands + [c])[..|commands + [c]| - 1] == commands;
    SeenAllConcat(View(false, [], None), Stream(commands, user, whep), Sent(s, c, user, whep));
    var sent := Sent(s, c, user, whep);
    assert Resets(sent[0]) && sent[0] in sent;
    AgreeAfterIff(Hydrated(d, s, user, whep), v, sent);
  }

  // ---------------------------------------------------------------- hydration and what follows

  function RunFrom(s: Server, commands: seq<Command>): Server {
    if commands == [] then s else After(RunFrom(s, commands[..|commands| - 1]), commands[|commands| - 1])
  }

  /** What a connected user is sent from a given state on. */
  function StreamFrom(s: Server, commands: seq<Command>, user: User, whep: RoomId -> string): seq<ClientEvent> {
    if commands == [] then []
    else
      var before := commands[..|commands| - 1];
      StreamFrom(s, before, user, whep) + Sent(RunFrom(s, before), commands[|commands| - 1], user, whep)
  }

  lemma RunOneMore(commands: seq<Command>, c: Command)
    ensures Run(commands + [c]) == After(Run(commands), c)
  {
    assert (commands + [c])[..|commands + [c]| - 1] == commands;
  }

  lemma RunFromOneMore(s: Server, commands: seq<Command>, c: Command)
    ensures RunFrom(s, commands + [c]) == After(RunFrom(s, commands), c)
  {
    assert (commands + [c])[..|commands + [c]| - 1] == commands;
  }

  lemma StreamFromOneMore(s: Server, commands: seq<Command>, c: Command, user: User, whep: RoomId -> string)
    ensures StreamFrom(s, commands + [c], user, whep) ==
            StreamFrom(s, commands, user, whep) + Sent(RunFrom(s, commands), c, user, whep)
  {
    assert (commands + [c])[..|commands + [c]| - 1] == commands;
  }

  lemma OneCommandMore(commands: seq<Command>, c: Command, user: User, whep: RoomId -> string)
    ensures FullView(commands + [c], user, whep) == SeenAll(FullView(commands, user, whep), Sent(Run(commands), c, user, whep))
  {
    assert (commands + [c])[..|commands + [c]| - 1] == commands;
    SeenAllConcat(View(false, [], None), Stream(commands, user, whep), Sent(Run(commands), c, user, whep));
  }

  lemma Snoc(commands: seq<Command>, later: seq<Command>) returns (front: seq<Command>, c: Command)
    requires later != []
    ensures |front| == |later| - 1 && later == front + [c] && commands + later == commands + front + [c]
  {
    front, c := later[..|later| - 1], later[|later| - 1];
  }

  lemma {:induction false} RunSplits(commands: seq<Command>, later: seq<Command>)
    ensures Run(commands + later) == RunFrom(Run(commands), later)
    decreases |later|
  {
    if later == [] {
      assert commands + later == commands;
    } else {
      var front, c := Snoc(commands, later);
      RunSplits(commands, front);
      RunOneMore(commands + front, c);
      RunFromOneMore(Run(commands), front, c);
    }
  }

  lemma {:induction false} FullViewSplits(commands: seq<Command>, later: seq<Command>, user: User, whep: RoomId -> string)
    ensures FullView(commands + later, user, whep) ==
            SeenAll(FullView(commands, user, whep), StreamFrom(Run(commands), later, user, whep))
    decreases |later|
  {
    if later == [] {
      assert commands + later == commands;
    } else {
      var front, c := Snoc(commands, later);
      var s, v := Run(commands), FullView(commands, user, whep);
      FullViewSplits(commands, front, user, whep);
      RunSplits(commands, front);
      OneCommandMore(commands + front, c, user, whep);
      StreamFromOneMore(s, front, c, user, whep);
      SeenAllConcat(v, StreamFrom(s, front, user, whep), Sent(RunFrom(s, front), c, user, whep));
    }
  }

  /** Some accepted command of the sequence opens or closes breakouts. */
  predicate Switched(s: Server, commands: seq<Command>) {
    commands != [] &&
    var front, c := commands[..|commands| - 1], commands[|commands| - 1];
    Switched(s, front) || (Accepted(RunFrom(s, front), c) && (c.Open? || c.Close?))
  }

  /** What a stream amounts to, and that an empty one means that nothing happened. */
  lemma {:induction false} StreamSays(s: Server, commands: seq<Command>, user: User, whep: RoomId -> string)
    ensures var stream := StreamFrom(s, commands, user, whep);
      && (LastReset(stream).Some? <==> Switched(s, commands))
      && (LastRooms(stream) == if stream == [] then None else Some(RunFrom(s, commands).rooms))
      && (stream == [] ==> RunFrom(s, commands) == s)
  {
    if commands != [] {
      var front, c := commands[..|commands| - 1], commands[|commands| - 1];
      StreamSays(s, front, user, whep);
      var at := RunFrom(s, front);
      LastOfBoth(StreamFrom(s, front, user, whep), Sent(at, c, user, whep));
      AfterIs(at, c);
      if Accepted(at, c) {
        SentSays(at, c, user, whep);
      } else {
        assert StreamFrom(s, front, user, whep) + [] == StreamFrom(s, front, user, whep);
      }
    }
  }

  /**
    * A client subscribes after `commands`; while it is joining, `during` are carried out and
    * their events queue up for it; then it gets a snapshot of the layout as it is by now, the
    * queue, and what `later` sends.
    */
  function Joined(d: View, commands: seq<Command>, during: seq<Command>, later: seq<Command>,
                  user: User, whep: RoomId -> string): View {
    SeenAll(Hydrated(d, Run(commands + during), user, whep), StreamFrom(Run(commands), during + later, user, whep))
  }

  /**
    * Hydration against replay, whatever was missed before and whatever happened while joining
    * and since: the client has the layout of one that missed nothing if and only if breakouts
    * were opened or closed since it subscribed, or the snapshot agreed with that client about
    * being open, and something was announced since or the server held no draft to begin with.
    */
  lemma HydratedAgreesLaterIff(commands: seq<Command>, during: seq<Command>, later: seq<Command>, d: View,
                               user: User, whep: RoomId -> string)
    ensures var s, all := Run(commands), during + later;
      SameLayout(Joined(d, commands, during, later, user, whep), FullView(commands + all, user, whep)) <==>
        || Switched(s, all)
        || (Run(commands + during).open == FullView(commands, user, whep).open &&
            (StreamFrom(s, all, user, whep) != [] || !Drafting(s)))
  {
    var s, at, all := Run(commands), Run(commands + during), during + later;
    var stream := StreamFrom(s, all, user, whep);
    FullViewSplits(commands, all, user, whep);
    RunSplits(commands, during);
    RunSplits(commands, all);
    StreamSays(s, all, user, whep);
    HydratedIs(d, at, user, whep);
    SeenAllIs(Hydrated(d, at, user, whep), stream);
    SeenAllIs(FullView(commands, user, whep), stream);
    ConnectedClientInStep(commands, user, whep);
    if stream == [] {
      EmptyFront(s, during, later, user, whep);
    }
  }

  /** Nothing announced in the whole means nothing announced while joining. */
  lemma EmptyFront(s: Server, during: seq<Command>, later: seq<Command>, user: User, whep: RoomId -> string)
    requires StreamFrom(s, during + later, user, whep) == []
    ensures RunFrom(s, during) == s
    decreases |later|
  {
    if later == [] {
      assert during + later == during;
      StreamSays(s, during, user, whep);
    } else {
      assert (during + later)[..|during + later| - 1] == during + later[..|later| - 1];
      EmptyFront(s, during, later[..|later| - 1], user, whep);
    }
  }

  // ---------------------------------------------------------------- assignment

  predicate UniqueIds(rooms: seq<Room>) {
    forall i, j :: 0 <= i < j < |rooms| ==> rooms[i].id != rooms[j].id
  }

  lemma {:induction false} WithoutMembers(members: seq<User>, user: User)
    ensures forall u :: u in Without(members, user) <==> u in members && u != user
  {
    if members != [] {
      WithoutMembers(members[1..], user);
    }
  }

  lemma {:induction false} FirstRoomExists(rooms: seq<Room>, id: RoomId)
    requires HasRoom(rooms, id)
    ensures FirstRoom(rooms, id) < |rooms|
  {
    if rooms[0].id != id {
      var r :| r in rooms && r.id == id;
      assert r in rooms[1..];
      FirstRoomExists(rooms[1..], id);
    }
  }

  /** Assigning moves one user to exactly the target room and nobody else anywhere. */
  lemma AssignMovesOneUser(s: Server, user: User, room: Option<RoomId>, k: int, other: User)
    requires Accepted(s, Assign(user, room)) && UniqueIds(s.rooms) && 0 <= k < |s.rooms|
    ensures var after := After(s, Assign(user, room));
      && |after.rooms| == |s.rooms| && after.open == s.open
      && after.rooms[k].id == s.rooms[k].id && after.rooms[k].name == s.rooms[k].name
      && (user in after.rooms[k].members <==> room == Some(s.rooms[k].id))
      && (other != user ==> (other in after.rooms[k].members <==> other in s.rooms[k].members))
  {
    WithoutMembers(s.rooms[k].members, user);
    if room.Some? {
      var left := AllWithout(s.rooms, user);
      var r :| r in s.rooms && r.id == room.value;
      var m :| 0 <= m < |s.rooms| && s.rooms[m] == r;
      assert left[m] in left;
      FirstRoomExists(left, room.value);
      var j := FirstRoom(left, room.value);
      assert left[j].id == s.rooms[j].id;
      assert k == j <==> room.value == s.rooms[k].id;
      var after := Assigned(s.rooms, user, room);
      assert after[k].members == if k == j then left[k].members + [user] else left[k].members;
    }
  }

  // ---------------------------------------------------------------- what the teacher can do

  /** Removing a user keeps the others in their order, however often the user occurs. */
  lemma {:induction false} WithoutKeepsOrder(a: seq<User>, user: User, b: seq<User>)
    ensures Without(a + b, user) == Without(a, user) + Without(b, user)
    ensures user !in a ==> Without(a, user) == a
    ensures Without([user], user) == []
  {
    if a == [] {
      assert a + b == b;
    } else {
      assert (a + b)[1..] == a[1..] + b;
      WithoutKeepsOrder(a[1..], user, b);
      assert a == [a[0]] + a[1..];
    }
  }

  /** The member lists after an assignment: the user comes last in the target room and is gone elsewhere. */
  lemma AssignedMembers(s: Server, user: User, room: Option<RoomId>, k: int)
    requires Accepted(s, Assign(user, room)) && UniqueIds(s.rooms) && 0 <= k < |s.rooms|
    ensures After(s, Assign(user, room)).rooms[k].members ==
      Without(s.rooms[k].members, user) + if room == Some(s.rooms[k].id) then [user] else []
  {
    AssignMovesOneUser(s, user, room, k, user);
    if room.Some? {
      var left := AllWithout(s.rooms, user);
      var r :| r in s.rooms && r.id == room.value;
      var m :| 0 <= m < |s.rooms| && s.rooms[m] == r;
      assert left[m] in left;
      FirstRoomExists(left, room.value);
      var j := FirstRoom(left, room.value);
      assert left[j].id == s.rooms[j].id;
    }
  }

  /** Drafted or open, any room of the layout can be assigned, and once open it is where the user is. */
  lemma AssignedThenOpened(s: Server, user: User, id: RoomId)
    requires HasRoom(s.rooms, id) && UniqueIds(s.rooms)
    ensures var after := After(After(s, Assign(user, Some(id))), Open);
      && after.open && RoomFor(after, user).Some? && RoomFor(after, user).value.id == id
  {
    var r :| r in s.rooms && r.id == id;
    var placed := After(s, Assign(user, Some(id)));
    assert Accepted(s, Assign(user, Some(id)));
    var m :| 0 <= m < |s.rooms| && s.rooms[m] == r;
    AssignMovesOneUser(s, user, Some(id), m, user);
    assert placed.rooms[m] in placed.rooms;
    forall room | room in placed.rooms && user in room.members
      ensures room.id == id
    {
      var k :| 0 <= k < |placed.rooms| && placed.rooms[k] == room;
      AssignMovesOneUser(s, user, Some(id), k, user);
    }
  }

  /** Closing is always possible, and tells everybody, and those in a room that they are not any more. */
  lemma ClosingTellsEverybody(s: Server, user: User, whep: RoomId -> string)
    ensures After(s, Close) == Server(false, [])
    ensures Sent(s, Close, user, whep) ==
      if exists r <- s.rooms :: user in r.members then [Closed, Assignment(None, "", "")] else [Closed]
  {}

  /** What is refused changes nothing and tells nobody; it is what lacks a layout, or names a room that is not in it. */
  lemma RefusedIff(s: Server, c: Command, user: User, whep: RoomId -> string)
    ensures Sent(s, c, user, whep) == [] <==>
      || (c.Draft? && c.rooms == [])
      || (c.Open? && s.rooms == [])
      || (c.Assign? && s.rooms == [])
      || (c.Assign? && c.room.Some? && forall i :: 0 <= i < |s.rooms| ==> s.rooms[i].id != c.room.value)
    ensures Sent(s, c, user, whep) == [] ==> After(s, c) == s
  {
    if c.Assign? && c.room.Some? {
      assert forall i :: 0 <= i < |s.rooms| ==> s.rooms[i] in s.rooms;
    }
    if Accepted(s, c) {
      SentSays(s, c, user, whep);
    }
  }
}
