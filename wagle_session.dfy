/**
 * One client connection of the newer server, from the first line it sends
 * to its disconnection. A session first waits for a CONNECT message that
 * names its user; once the name is accepted it files the user into a room
 * of its own called "General" and then handles chat lines and room
 * commands one line at a time.
 *
 * Each handler is a method over the session's own fields, the process-wide
 * set of names in use and the shared room registry. What arrives on the
 * socket is the `input` parameter (the line without its newline, or a read
 * error); what is written to sockets is appended to an outbox. An
 * exception that escapes a handler, and the null dereference on
 * disconnection, put the session in phase Aborted. The model stops there.
 * In the server, the escaping exception leaves io_context.run() on a
 * thread without a handler, so std::terminate ends the whole process.
 * The null dereference is undefined behaviour.
 */
module WagleSession {
  import opened Text
  import opened Delivery
  import opened WagleMessage
  import opened WagleRoom
  import opened WagleRegistry

  /** Where a session is in its life. Dropped: the session stopped reading
      without any cleanup (a read error or a first line that is not
      CONNECT). Closed: the disconnection cleanup ran. Aborted: an
      exception escaped a handler, or the cleanup dereferenced a null room. */
  datatype Phase = AwaitingName | Active | Dropped | Closed | Aborted(what: Bytes)

  /** One completed read: the line std::getline extracted, or an error. */
  datatype Input = Received(line: Bytes) | ReadFailed

  /** What std::stoi's exceptions say. */
  function StoiFailure(): Bytes { Ascii("stoi") }

  /** What the cleanup's getRoom(...)->getUserCount() does on a null room. */
  function NullRoom(): Bytes { Ascii("null room") }

  function EmptyNameError(): Bytes { Ascii("Username cannot be empty") }

  function NameInUseError(): Bytes { Ascii("Username already in use") }

  /** The name of the room every accepted user is first put in. */
  function DefaultRoomName(): Bytes { [0x47, 0x65, 0x6E, 0x65, 0x72, 0x61, 0x6C] }

  function UsernameRefusal(why: Bytes): (m: Message)
    ensures m.Is(UsernameError) && m.sender == Server() && m.content == why && m.roomId == []
  {
    Message3(UsernameError, Server(), why)
  }

  function Confirmation(): (m: Message)
    ensures m.Is(Connect) && m.sender == Server() && m.roomId == []
  {
    Message3(Connect, Server(), Ascii("Connection successful"))
  }

  function CreatedReply(name: Bytes, roomId: Bytes): (m: Message)
    ensures m.Is(RoomCreate) && m.sender == Server() && m.roomId == roomId
  {
    Message4(RoomCreate, Server(), Ascii("Room created: ") + name, roomId)
  }

  function JoinedReply(name: Bytes, roomId: Bytes): (m: Message)
    ensures m.Is(RoomJoin) && m.sender == Server() && m.roomId == roomId
  {
    Message4(RoomJoin, Server(), Ascii("Joined room: ") + name, roomId)
  }

  function LeftReply(name: Bytes, roomId: Bytes): (m: Message)
    ensures m.Is(RoomLeave) && m.sender == Server() && m.roomId == roomId
  {
    Message4(RoomLeave, Server(), Ascii("Left room: ") + name, roomId)
  }

  function JoinFailedReply(): (m: Message)
    ensures m.Is(RoomError) && m.sender == Server() && m.roomId == []
  {
    Message3(RoomError, Server(), Ascii("Failed to join room"))
  }

  function ListReply(text: Bytes): (m: Message)
    ensures m.Is(RoomList) && m.sender == Server() && m.content == text && m.roomId == []
  {
    Message3(RoomList, Server(), text)
  }

  /** The message a chat line becomes: the session's own user name as the
      sender, whatever sender the client wrote. */
  function RoomChat(username: Bytes, content: Bytes, roomId: Bytes): (m: Message)
    ensures m.Is(RoomMessage) && m.sender == username && m.content == content && m.roomId == roomId
  {
    Message4(RoomMessage, username, content, roomId)
  }

  // ---------------------------------------------------------------------
  // Screening the first line
  // ---------------------------------------------------------------------

  /** How readUsername treats one read. */
  datatype Screening =
    | Lost                                  // read error: logged, nothing more
    | Throws(what: Bytes)                   // the kind field is not a number
    | Ignored                               // a message other than CONNECT
    | Refused(name: Bytes, why: Bytes)      // USERNAME_ERROR, then read again
    | Accepted(name: Bytes)

  /** The checks readUsername makes on a line, given the names in use. */
  function Screen(input: Input, active: set<Bytes>): (s: Screening)
    ensures input.ReadFailed? <==> s.Lost?
    ensures s.Throws? <==> input.Received? && Deserialize(input.line).Err?
    ensures s.Refused? || s.Accepted? <==>
      input.Received? && Deserialize(input.line).Ok? && Deserialize(input.line).value.Is(Connect)
    ensures s.Refused? || s.Accepted? ==> s.name == Deserialize(input.line).value.sender
    ensures s.Accepted? ==> s.name != [] && s.name !in active
    ensures s.Refused? ==>
      ((s.name == [] && s.why == EmptyNameError())
       || (s.name != [] && s.name in active && s.why == NameInUseError()))
  {
    match input
    case ReadFailed => Lost
    case Received(line) =>
      match Deserialize(line)
      case Err(_) => Throws(StoiFailure())
      case Ok(msg) =>
        if !msg.Is(Connect) then Ignored
        else if msg.sender == [] then Refused([], EmptyNameError())
        else if msg.sender in active then Refused(msg.sender, NameInUseError())
        else Accepted(msg.sender)
  }

  /** A client that sends CONNECT under a name gets in exactly when the
      name is non-empty and not in use. */
  lemma ConnectScreening(m: Message, active: set<Bytes>)
    requires m.Is(Connect) && WireSafe(m)
    ensures var wire := Serialize(m);
      Screen(Received(wire[..|wire| - 1]), active)
        == if m.sender == [] then Refused([], EmptyNameError())
           else if m.sender in active then Refused(m.sender, NameInUseError())
           else Accepted(m.sender)
  {
    RoundTrip(m);
  }

  /** Two logins screened one after the other, the second against the
      names including the first, never accept the same name. */
  lemma NoSecondAcceptance(a: Input, b: Input, active: set<Bytes>)
    requires Screen(a, active).Accepted?
    ensures Screen(b, active + {Screen(a, active).name}) != Screen(a, active)
  {
    var first := Screen(a, active);
    var second := Screen(b, active + {first.name});
    if second.Accepted? {
      assert second.name !in active + {first.name};
    }
  }

  // ---------------------------------------------------------------------
  // The room list text
  // ---------------------------------------------------------------------

  /** One line of a ROOM_LIST reply: `<name> (<count> users)` and a newline. */
  function ListEntry(name: Bytes, count: nat): Bytes
  {
    name + Ascii(" (") + Decimal(count) + Ascii(" users)") + [Newline]
  }

  /** The ROOM_LIST text for `rooms`: their entries, in that order. */
  function ListText(rooms: seq<ChatRoom>): (text: Bytes)
    reads set r | r in rooms
    ensures rooms == [] <==> text == []
  {
    if rooms == [] then []
    else
      var last := rooms[|rooms| - 1];
      ListText(rooms[..|rooms| - 1]) + ListEntry(last.name, |last.users|)
  }

  /** The loop that builds the ROOM_LIST text. */
  method RoomListText(rooms: seq<ChatRoom>) returns (text: Bytes)
    ensures text == ListText(rooms)
  {
    text := [];
    for i := 0 to |rooms|
      invariant text == ListText(rooms[..i])
    {
      assert rooms[..i + 1][..i] == rooms[..i];
      text := text + ListEntry(rooms[i].name, rooms[i].UserCount());
    }
    assert rooms[..|rooms|] == rooms;
  }

  function NewlineCount(s: Bytes): (n: nat)
    ensures n <= |s|
  {
    if s == [] then 0 else (if s[0] == Newline then 1 else 0) + NewlineCount(s[1..])
  }

  lemma {:induction false} NewlineCountAppend(a: Bytes, b: Bytes)
    ensures NewlineCount(a + b) == NewlineCount(a) + NewlineCount(b)
  {
    if a == [] {
      assert a + b == b;
    } else {
      assert (a + b)[0] == a[0] && (a + b)[1..] == a[1..] + b;
      NewlineCountAppend(a[1..], b);
    }
  }

  lemma {:induction false} NoNewlineNoCount(s: Bytes)
    requires Newline !in s
    ensures NewlineCount(s) == 0
  {
    if s != [] {
      NoNewlineNoCount(s[1..]);
    }
  }

  lemma EntryHasOneNewline(name: Bytes, count: nat)
    requires Newline !in name
    ensures NewlineCount(ListEntry(name, count)) == 1
  {
    var open, close := Ascii(" ("), Ascii(" users)");
    assert Newline !in open && Newline !in close;
    DecimalHasNoNewline(count);
    NoNewlineNoCount(name);
    NoNewlineNoCount(open);
    NoNewlineNoCount(Decimal(count));
    NoNewlineNoCount(close);
    NewlineCountAppend(name, open);
    NewlineCountAppend(name + open, Decimal(count));
    NewlineCountAppend(name + open + Decimal(count), close);
    NewlineCountAppend(name + open + Decimal(count) + close, [Newline]);
  }

  /** When no room name holds a newline, the list text has one line per
      room. */
  lemma {:induction false} ListTextLines(rooms: seq<ChatRoom>)
    requires forall r | r in rooms :: Newline !in r.name
    ensures NewlineCount(ListText(rooms)) == |rooms|
  {
    if rooms != [] {
      var last := rooms[|rooms| - 1];
      ListTextLines(rooms[..|rooms| - 1]);
      EntryHasOneNewline(last.name, |last.users|);
      NewlineCountAppend(ListText(rooms[..|rooms| - 1]), ListEntry(last.name, |last.users|));
    }
  }

  // ---------------------------------------------------------------------
  // What a new room's first member reads
  // ---------------------------------------------------------------------

  /** Entering a room nobody else is in, the newcomer is not shown its own
      arrival: it reads only the count 1, and nobody else reads anything. */
  lemma FreshRoomGreeting(out: Outbox<Message>, roomId: Bytes, user: User, v: UserId)
    ensures Inbox(JoinWrites(out, {user.id}, roomId, user, [JoinNotice(roomId, user.name)]), v)
         == if v == user.id then Inbox(out, v) + [UserCountNotice(roomId, 1)] else Inbox(out, v)
  {
    JoinWritesInboxes(out, {user.id}, roomId, user, [JoinNotice(roomId, user.name)], v);
    assert Replay([JoinNotice(roomId, user.name)], user.name) == [];
  }

  /** The writes of ROOM_CREATE for a room `rid` named `name` that only
      `user` is in: the join writes, then the creation reply, the join
      reply and the room list `list`, to the user. */
  function CreateWrites(out: Outbox<Message>, user: User, rid: Bytes, name: Bytes, list: Bytes)
    : Outbox<Message>
  {
    Send(Send(Send(JoinWrites(out, {user.id}, rid, user, [JoinNotice(rid, user.name)]),
                   user.id, CreatedReply(name, rid)),
              user.id, JoinedReply(name, rid)),
         user.id, ListReply(list))
  }

  /** A room id is eight hex digits, so the empty id names no room. */
  lemma EmptyIdNamesNoRoom(m: RoomManager)
    requires m.Valid()
    ensures [] !in m.rooms
  {
  }

  // ---------------------------------------------------------------------
  // The session
  // ---------------------------------------------------------------------

  /** createRoom followed by addUserToRoom on the new room, as both
      readUsername and ROOM_CREATE do: a fresh public room filed under the
      id the draws spell, holding the user alone, whose history is the
      user's arrival notice. */
  method OpenRoom(manager: RoomManager, name: Bytes, draws: seq<nibble>, now: int,
                  user: User, out: Outbox<Message>)
    returns (room: ChatRoom, out': Outbox<Message>)
    requires manager.Valid() && |draws| == 8
    modifies manager`rooms, manager`userRooms
    ensures manager.Valid()
    ensures fresh(room) && room.id == RoomIdOf(draws)
    ensures manager.rooms == old(manager.rooms)[room.id := room]
    ensures room.name == name && !room.isPrivate && room.users == {user.id}
    ensures room.recentMessages == [JoinNotice(room.id, user.name)]
    ensures manager.userRooms
         == old(manager.userRooms)[user.name := Linked(old(manager.userRooms), user.name) + {room.id}]
    ensures out' == JoinWrites(out, {user.id}, room.id, user, [JoinNotice(room.id, user.name)])
  {
    room := manager.CreateRoom(name, false, draws, now);
    ghost var nobody: set<UserId> := {};
    assert nobody + {user.id} == {user.id};
    var joined;
    joined, out' := manager.AddUserToRoom(room.id, user, out);
  }

  /** The process-wide set of user names in use. */
  class ActiveUsernames {
    var names: set<Bytes>

    constructor ()
      ensures names == {}
    {
      names := {};
    }
  }

  /** The kinds readMessage hands to handleRoomCommand. */
  predicate IsRoomCommand(m: Message)
  {
    m.Is(RoomCreate) || m.Is(RoomDelete) || m.Is(RoomJoin) || m.Is(RoomLeave)
    || m.Is(RoomList) || m.Is(RoomInfo)
  }

  /** The kinds readMessage does something for. */
  predicate IsHandled(m: Message)
  {
    m.Is(ChatMsg) || m.Is(RoomCreate) || m.Is(RoomJoin) || m.Is(RoomLeave) || m.Is(RoomList)
  }

  class Session {
    /** The connection: the handle under which the user's socket is known. */
    const id: UserId
    const manager: RoomManager
    const active: ActiveUsernames
    var phase: Phase
    var username: Bytes
    /** The room chat lines go to; empty when in none. */
    var currentRoomId: Bytes

    /** The user_ object of an accepted session. */
    function Handle(): (u: User)
      reads this
      ensures u.id == id && u.name == username
    {
      User(id, username)
    }

    constructor (id: UserId, manager: RoomManager, active: ActiveUsernames)
      ensures this.id == id && this.manager == manager && this.active == active
      ensures phase == AwaitingName && username == [] && currentRoomId == []
    {
      this.id := id;
      this.manager := manager;
      this.active := active;
      phase := AwaitingName;
      username := [];
      currentRoomId := [];
    }

    /** Moves the session to phase `p`; the registry is not touched. */
    method SetPhase(p: Phase)
      requires manager.Valid()
      modifies this`phase
      ensures phase == p && manager.Valid()
    {
      phase := p;
    }

    /** Takes this session's user name out of the set of names in use;
        the registry is not touched. */
    method Release()
      requires manager.Valid()
      modifies active`names
      ensures active.names == old(active.names) - {username} && manager.Valid()
    {
      active.names := active.names - {username};
    }

    /** Makes `rid` the current room; the registry is not touched. */
    method SetCurrentRoom(rid: Bytes)
      requires manager.Valid()
      modifies this`currentRoomId
      ensures currentRoomId == rid && manager.Valid()
    {
      currentRoomId := rid;
    }

    /** Records `name` as this session's user name and as in use, and
        makes the session active; the registry is not touched. */
    method Register(name: Bytes)
      requires manager.Valid()
      modifies this`username, this`phase, active`names
      ensures username == name && phase == Active && active.names == old(active.names) + {name}
      ensures manager.Valid()
    {
      username := name;
      active.names := active.names + {name};
      phase := Active;
    }

    /** readUsername's handler for one read, with the confirmation's
        completion handler run right after it. A refused name is answered
        with USERNAME_ERROR and the session reads again. An accepted name
        is recorded as in use, confirmed, and its user is put in a new room
        called "General" (a new one per user, public) that becomes the
        current room. */
    method ReadUsername(input: Input, draws: seq<nibble>, now: int, out: Outbox<Message>)
      returns (out': Outbox<Message>)
      requires manager.Valid() && phase == AwaitingName && |draws| == 8
      modifies this`phase, this`username, this`currentRoomId, active`names, manager`rooms, manager`userRooms
      ensures manager.Valid()
      ensures var s := Screen(input, old(active.names));
        (s.Lost? || s.Ignored? ==>
           phase == Dropped && username == old(username) && currentRoomId == old(currentRoomId)
           && active.names == old(active.names) && out' == out
           && manager.rooms == old(manager.rooms) && manager.userRooms == old(manager.userRooms))
        && (s.Throws? ==>
           phase == Aborted(s.what) && username == old(username) && currentRoomId == old(currentRoomId)
           && active.names == old(active.names) && out' == out
           && manager.rooms == old(manager.rooms) && manager.userRooms == old(manager.userRooms))
        && (s.Refused? ==>
           phase == AwaitingName && username == s.name && currentRoomId == old(currentRoomId)
           && active.names == old(active.names) && out' == Send(out, id, UsernameRefusal(s.why))
           && manager.rooms == old(manager.rooms) && manager.userRooms == old(manager.userRooms))
        && (s.Accepted? ==>
           var rid := RoomIdOf(draws);
           phase == Active && username == s.name && currentRoomId == rid
           && active.names == old(active.names) + {s.name}
           && rid in manager.rooms && fresh(manager.rooms[rid])
           && manager.rooms == old(manager.rooms)[rid := manager.rooms[rid]]
           && manager.rooms[rid].name == DefaultRoomName() && !manager.rooms[rid].isPrivate
           && manager.rooms[rid].users == {id}
           && manager.rooms[rid].recentMessages == [JoinNotice(rid, s.name)]
           && manager.userRooms == old(manager.userRooms)[s.name := Linked(old(manager.userRooms), s.name) + {rid}]
           && out' == JoinWrites(Send(out, id, Confirmation()), {id}, rid, User(id, s.name),
                                 [JoinNotice(rid, s.name)]))
    {
      var s := Screen(input, active.names);
      match s
      case Lost =>
        phase := Dropped;
        out' := out;
      case Ignored =>
        phase := Dropped;
        out' := out;
      case Throws(what) =>
        phase := Aborted(what);
        out' := out;
      case Refused(name, why) =>
        username := name;
        out' := Send(out, id, UsernameRefusal(why));
      case Accepted(name) =>
        out' := Admit(name, draws, now, out);
    }

    /** What readUsername does for an accepted name: record it as in use,
        confirm it, and put the user in a new public room "General", which
        becomes the current room. */
    method Admit(name: Bytes, draws: seq<nibble>, now: int, out: Outbox<Message>)
      returns (out': Outbox<Message>)
      requires manager.Valid() && |draws| == 8
      modifies this`phase, this`username, this`currentRoomId, active`names, manager`rooms, manager`userRooms
      ensures manager.Valid()
      ensures phase == Active
      ensures username == name
      ensures currentRoomId == RoomIdOf(draws)
      ensures active.names == old(active.names) + {name}
      ensures currentRoomId in manager.rooms && fresh(manager.rooms[currentRoomId])
      ensures manager.rooms == old(manager.rooms)[currentRoomId := manager.rooms[currentRoomId]]
      ensures var room := manager.rooms[currentRoomId];
        room.name == DefaultRoomName() && !room.isPrivate && room.users == {id}
      ensures manager.rooms[currentRoomId].recentMessages == [JoinNotice(currentRoomId, name)]
      ensures manager.userRooms == old(manager.userRooms)[name := Linked(old(manager.userRooms), name) + {currentRoomId}]
      ensures out' == JoinWrites(Send(out, id, Confirmation()), {id}, currentRoomId, User(id, name),
                                 [JoinNotice(currentRoomId, name)])
    {
      Register(name);
      SetCurrentRoom(RoomIdOf(draws));
      var room;
      room, out' := OpenRoom(manager, DefaultRoomName(), draws, now, User(id, name), Send(out, id, Confirmation()));
    }

    /** The greeting an accepted user reads: the confirmation and then the
        member count 1 of its new room. */
    lemma AcceptedGreeting(out: Outbox<Message>, rid: Bytes, name: Bytes, v: UserId)
      ensures Inbox(JoinWrites(Send(out, id, Confirmation()), {id}, rid, User(id, name),
                               [JoinNotice(rid, name)]), v)
           == if v == id then Inbox(out, v) + [Confirmation(), UserCountNotice(rid, 1)]
              else Inbox(out, v)
    {
      var sent := Send(out, id, Confirmation());
      FreshRoomGreeting(sent, rid, User(id, name), v);
      if v == id {
        AppendTwo(Inbox(out, v), Confirmation(), UserCountNotice(rid, 1));
      }
    }

    /** handleChatMessage: a chat line goes to the current room, if there
        is one and it is still filed, as a ROOM_MESSAGE from this session's
        user; it is stored in the room's history. */
    method HandleChatMessage(msg: Message, out: Outbox<Message>) returns (out': Outbox<Message>)
      requires manager.Valid()
      modifies manager.Filed(currentRoomId)`recentMessages
      ensures manager.Valid()
      ensures currentRoomId == [] || currentRoomId !in manager.rooms ==> out' == out
      ensures currentRoomId != [] && currentRoomId in manager.rooms ==>
        var room := manager.rooms[currentRoomId];
        room.users == old(room.users)
        && room.recentMessages == Recent(old(room.recentMessages) + [RoomChat(username, msg.content, currentRoomId)])
        && out' == SendAll(out, room.users, RoomChat(username, msg.content, currentRoomId))
    {
      out' := out;
      if currentRoomId != [] {
        var room := manager.GetRoom(currentRoomId);
        if room.Some? {
          out' := room.value.Broadcast(RoomChat(username, msg.content, currentRoomId), out);
        }
      }
    }

    /** ROOM_CREATE: a new public room named by the content is filed under
        a fresh id, the user enters it and it becomes the current room (the
        room the user was in is not left). The user is then sent the
        creation reply, the join reply and the list of public rooms. */
    method CreateAndEnter(name: Bytes, draws: seq<nibble>, now: int, out: Outbox<Message>)
      returns (out': Outbox<Message>)
      requires manager.Valid() && |draws| == 8
      modifies this`currentRoomId, manager`rooms, manager`userRooms
      ensures manager.Valid()
      ensures currentRoomId == RoomIdOf(draws)
      ensures currentRoomId in manager.rooms && fresh(manager.rooms[currentRoomId])
      ensures manager.rooms == old(manager.rooms)[currentRoomId := manager.rooms[currentRoomId]]
      ensures var room := manager.rooms[currentRoomId];
        room.name == name && !room.isPrivate && room.users == {id}
      ensures manager.rooms[currentRoomId].recentMessages == [JoinNotice(currentRoomId, username)]
      ensures manager.userRooms
           == old(manager.userRooms)[username := Linked(old(manager.userRooms), username) + {currentRoomId}]
      ensures out' == CreateWrites(out, User(id, username), currentRoomId, name,
                                   ListText(manager.PublicAmong(Ascending(manager.rooms.Keys))))
    {
      SetCurrentRoom(RoomIdOf(draws));
      var room;
      room, out' := OpenRoom(manager, name, draws, now, User(id, username), out);
      out' := Send(Send(out', id, CreatedReply(name, room.id)), id, JoinedReply(name, room.id));
      out' := SendRoomList(out');
    }

    /** ROOM_JOIN: an unknown id is answered with ROOM_ERROR. A full room
        throws out of the session (after the registry recorded the link).
        Otherwise the user enters the room, it becomes the current room
        (the previous one is not left) and the join reply follows. */
    method Enter(target: Bytes, out: Outbox<Message>) returns (out': Outbox<Message>)
      requires manager.Valid()
      modifies this`currentRoomId, this`phase, manager`userRooms,
               manager.Filed(target)`users, manager.Filed(target)`recentMessages
      ensures manager.Valid()
      ensures phase == old(phase) || phase.Aborted?
      ensures target !in manager.rooms ==> currentRoomId == old(currentRoomId) && phase == old(phase)
      ensures target !in manager.rooms ==>
        manager.userRooms == old(manager.userRooms) && out' == Send(out, id, JoinFailedReply())
      ensures target in manager.rooms ==>
        manager.userRooms == old(manager.userRooms)[username := Linked(old(manager.userRooms), username) + {target}]
      ensures target in manager.rooms && old(manager.rooms[target].Full()) ==>
        phase == Aborted(Ascii("Chat room is full")) && currentRoomId == old(currentRoomId) && out' == out
      ensures target in manager.rooms && old(manager.rooms[target].Full()) ==>
        manager.rooms[target].users == old(manager.rooms[target].users)
        && manager.rooms[target].recentMessages == old(manager.rooms[target].recentMessages)
      ensures target in manager.rooms && !old(manager.rooms[target].Full()) ==>
        phase == old(phase) && currentRoomId == target
      ensures target in manager.rooms && !old(manager.rooms[target].Full()) ==>
        manager.rooms[target].users == old(manager.rooms[target].users) + {id}
      ensures target in manager.rooms && !old(manager.rooms[target].Full()) ==>
        manager.rooms[target].recentMessages == Recent(old(manager.rooms[target].recentMessages) + [JoinNotice(target, username)])
      ensures target in manager.rooms && !old(manager.rooms[target].Full()) ==>
        var room := manager.rooms[target];
        out' == Send(JoinWrites(out, room.users, target, User(id, username), room.recentMessages),
                     id, JoinedReply(room.name, target))
    {
      var r;
      r, out' := manager.AddUserToRoom(target, User(id, username), out);
      match r
      case Exception(what) =>
        SetPhase(Aborted(what));
      case Value(joined) =>
        if joined {
          SetCurrentRoom(target);
          var room := manager.GetRoom(currentRoomId);
          out' := Send(out', id, JoinedReply(room.value.name, currentRoomId));
        } else {
          out' := Send(out', id, JoinFailedReply());
        }
    }

    /** ROOM_LEAVE: when the current room is filed the user leaves it, is
        sent the leave reply, and has no current room any more; otherwise
        nothing happens. */
    method LeaveCurrentRoom(out: Outbox<Message>) returns (out': Outbox<Message>)
      requires manager.Valid()
      modifies this`currentRoomId, manager`userRooms, manager.Filed(currentRoomId)`users,
               manager.Filed(currentRoomId)`recentMessages
      ensures manager.Valid()
      ensures old(currentRoomId) !in manager.rooms ==>
        currentRoomId == old(currentRoomId) && manager.userRooms == old(manager.userRooms) && out' == out
      ensures old(currentRoomId) in manager.rooms ==>
        currentRoomId == [] && manager.userRooms == Unlink(old(manager.userRooms), username, old(currentRoomId))
      ensures old(currentRoomId) in manager.rooms ==>
        manager.rooms[old(currentRoomId)].users == old(manager.rooms[currentRoomId].users) - {id}
      ensures old(currentRoomId) in manager.rooms && id in old(manager.rooms[currentRoomId].users) ==>
        var rid := old(currentRoomId);
        var room := manager.rooms[rid];
        room.recentMessages == Recent(old(room.recentMessages) + [LeaveNotice(rid, username)])
        && out' == Send(LeaveWrites(out, room.users, rid, username), id, LeftReply(room.name, rid))
      ensures old(currentRoomId) in manager.rooms && id !in old(manager.rooms[currentRoomId].users) ==>
        var rid := old(currentRoomId);
        var room := manager.rooms[rid];
        room.recentMessages == old(room.recentMessages) && out' == Send(out, id, LeftReply(room.name, rid))
    {
      var removed;
      removed, out' := manager.RemoveUserFromRoom(currentRoomId, User(id, username), out);
      if removed {
        var room := manager.GetRoom(currentRoomId);
        out' := Send(out', id, LeftReply(room.value.name, currentRoomId));
        SetCurrentRoom([]);
      }
    }

    /** ROOM_LIST: the list of public rooms, to this user only. */
    method SendRoomList(out: Outbox<Message>) returns (out': Outbox<Message>)
      requires manager.Valid()
      ensures out' == Send(out, id, ListReply(ListText(manager.PublicAmong(Ascending(manager.rooms.Keys)))))
    {
      var rooms := manager.GetPublicRooms();
      var text := RoomListText(rooms);
      out' := Send(out, id, ListReply(text));
    }

    /** handleRoomCommand: ROOM_CREATE, ROOM_JOIN, ROOM_LEAVE and ROOM_LIST
        run their handlers; ROOM_DELETE, ROOM_INFO and every other kind do
        nothing. */
    method HandleRoomCommand(msg: Message, draws: seq<nibble>, now: int, out: Outbox<Message>)
      returns (out': Outbox<Message>)
      requires manager.Valid() && |draws| == 8
      modifies this`currentRoomId, this`phase, manager`rooms, manager`userRooms,
               manager.Filed(msg.content)`users, manager.Filed(msg.content)`recentMessages,
               manager.Filed(currentRoomId)`users, manager.Filed(currentRoomId)`recentMessages
      ensures manager.Valid()
      ensures phase == old(phase) || (msg.Is(RoomJoin) && phase.Aborted?)
      ensures !msg.Is(RoomJoin) ==> phase == old(phase)
      ensures !(msg.Is(RoomCreate) || msg.Is(RoomJoin) || msg.Is(RoomLeave) || msg.Is(RoomList)) ==> out' == out
      ensures !(msg.Is(RoomCreate) || msg.Is(RoomJoin) || msg.Is(RoomLeave)) ==> currentRoomId == old(currentRoomId)
      ensures msg.Is(RoomCreate) ==> currentRoomId == RoomIdOf(draws)
      ensures msg.Is(RoomList) ==>
        out' == Send(out, id, ListReply(ListText(manager.PublicAmong(Ascending(manager.rooms.Keys)))))
      ensures !(msg.Is(RoomCreate) || msg.Is(RoomJoin) || msg.Is(RoomLeave) || msg.Is(RoomList)) ==>
        manager.rooms == old(manager.rooms) && manager.userRooms == old(manager.userRooms)
    {
      assert Ordinal(RoomCreate) == 6 && Ordinal(RoomJoin) == 8 && Ordinal(RoomLeave) == 9 && Ordinal(RoomList) == 10;
      out' := out;
      if msg.Is(RoomCreate) {
        out' := CreateAndEnter(msg.content, draws, now, out);
      } else if msg.Is(RoomJoin) {
        out' := Enter(msg.content, out);
      } else if msg.Is(RoomLeave) {
        out' := LeaveCurrentRoom(out);
      } else if msg.Is(RoomList) {
        out' := SendRoomList(out);
      }
    }

    /** The cleanup readMessage runs when a read fails: the name is
        released, the user leaves the current room if there is one, and
        the status window is updated with the current room's member count,
        which dereferences a null room when the current room id names no
        room (it is empty after ROOM_LEAVE). */
    method Disconnect(out: Outbox<Message>) returns (out': Outbox<Message>)
      requires manager.Valid()
      modifies this`phase, active`names, manager`userRooms, manager.Filed(currentRoomId)`users,
               manager.Filed(currentRoomId)`recentMessages
      ensures manager.Valid()
      ensures active.names == old(active.names) - {username}
      ensures currentRoomId !in manager.rooms ==>
        phase == Aborted(NullRoom()) && manager.userRooms == old(manager.userRooms) && out' == out
      ensures currentRoomId == [] ==> phase == Aborted(NullRoom())
      ensures currentRoomId in manager.rooms ==>
        phase == Closed && manager.userRooms == Unlink(old(manager.userRooms), username, currentRoomId)
      ensures currentRoomId in manager.rooms ==>
        manager.rooms[currentRoomId].users == old(manager.rooms[currentRoomId].users) - {id}
      ensures currentRoomId in manager.rooms && id in old(manager.rooms[currentRoomId].users) ==>
        var room := manager.rooms[currentRoomId];
        room.recentMessages == Recent(old(room.recentMessages) + [LeaveNotice(currentRoomId, username)])
        && out' == LeaveWrites(out, room.users, currentRoomId, username)
      ensures currentRoomId in manager.rooms && id !in old(manager.rooms[currentRoomId].users) ==>
        var room := manager.rooms[currentRoomId];
        room.recentMessages == old(room.recentMessages) && out' == out
    {
      Release();
      out' := out;
      if currentRoomId != [] {
        var removed;
        removed, out' := manager.RemoveUserFromRoom(currentRoomId, User(id, username), out);
      }
      EmptyIdNamesNoRoom(manager);
      if manager.GetRoom(currentRoomId).None? {
        SetPhase(Aborted(NullRoom()));
      } else {
        SetPhase(Closed);
      }
    }

    /** readMessage's handler for one read. A read error runs the cleanup;
        a line whose kind is not a number throws out of the session; a chat
        line and a room command run their handlers; any other kind is
        ignored. The session then reads again, unless it was aborted. */
    method ReadMessage(input: Input, draws: seq<nibble>, now: int, out: Outbox<Message>)
      returns (out': Outbox<Message>)
      requires manager.Valid() && phase == Active && |draws| == 8
      modifies this`phase, this`currentRoomId, active`names, manager`rooms, manager`userRooms
      modifies manager.Filed(currentRoomId)`users, manager.Filed(currentRoomId)`recentMessages
      modifies if input.Received? && Deserialize(input.line).Ok?
               then manager.Filed(Deserialize(input.line).value.content) else {}`users
      modifies if input.Received? && Deserialize(input.line).Ok?
               then manager.Filed(Deserialize(input.line).value.content) else {}`recentMessages
      ensures manager.Valid()
      ensures input.ReadFailed? ==> phase == Closed || phase == Aborted(NullRoom())
      ensures input.ReadFailed? ==> active.names == old(active.names) - {username}
      ensures input.ReadFailed? ==> currentRoomId == old(currentRoomId) && manager.rooms == old(manager.rooms)
      ensures input.ReadFailed? && currentRoomId !in manager.rooms ==>
        phase == Aborted(NullRoom()) && manager.userRooms == old(manager.userRooms) && out' == out
      ensures input.ReadFailed? && currentRoomId == [] ==> phase == Aborted(NullRoom())
      ensures input.ReadFailed? && currentRoomId in manager.rooms ==>
        phase == Closed && manager.userRooms == Unlink(old(manager.userRooms), username, currentRoomId)
      ensures input.ReadFailed? && currentRoomId in manager.rooms ==>
        manager.rooms[currentRoomId].users == old(manager.rooms[currentRoomId].users) - {id}
      ensures input.ReadFailed? && currentRoomId in manager.rooms && id in old(manager.rooms[currentRoomId].users) ==>
        var room := manager.rooms[currentRoomId];
        room.recentMessages == Recent(old(room.recentMessages) + [LeaveNotice(currentRoomId, username)])
        && out' == LeaveWrites(out, room.users, currentRoomId, username)
      ensures input.ReadFailed? && currentRoomId in manager.rooms && id !in old(manager.rooms[currentRoomId].users) ==>
        var room := manager.rooms[currentRoomId];
        room.recentMessages == old(room.recentMessages) && out' == out
      ensures input.Received? && Deserialize(input.line).Err? ==>
        phase == Aborted(StoiFailure()) && out' == out && currentRoomId == old(currentRoomId)
      ensures input.Received? && Deserialize(input.line).Err? ==>
        manager.rooms == old(manager.rooms) && manager.userRooms == old(manager.userRooms)
      ensures input.Received? ==> active.names == old(active.names)
      ensures input.Received? && Deserialize(input.line).Ok? ==>
        phase == Active || (Deserialize(input.line).value.Is(RoomJoin) && phase.Aborted?)
      ensures input.Received? && Deserialize(input.line).Ok? && !IsHandled(Deserialize(input.line).value) ==>
        out' == out && currentRoomId == old(currentRoomId)
      ensures input.Received? && Deserialize(input.line).Ok? && !IsHandled(Deserialize(input.line).value) ==>
        manager.rooms == old(manager.rooms) && manager.userRooms == old(manager.userRooms)
    {
      match input
      case ReadFailed =>
        out' := Disconnect(out);
      case Received(line) =>
        var decoded := Deserialize(line);
        if decoded.Err? {
          SetPhase(Aborted(StoiFailure()));
          return out;
        }
        out' := Dispatch(decoded.value, draws, now, out);
    }

    /** The switch in readMessage's read handler: a chat line goes to
        handleChatMessage, the six room-command kinds to handleRoomCommand,
        and every other kind is dropped. */
    method Dispatch(msg: Message, draws: seq<nibble>, now: int, out: Outbox<Message>)
      returns (out': Outbox<Message>)
      requires manager.Valid() && phase == Active && |draws| == 8
      modifies this`phase, this`currentRoomId, manager`rooms, manager`userRooms
      modifies manager.Filed(currentRoomId)`users, manager.Filed(currentRoomId)`recentMessages
      modifies manager.Filed(msg.content)`users, manager.Filed(msg.content)`recentMessages
      ensures manager.Valid()
      ensures phase == Active || (msg.Is(RoomJoin) && phase.Aborted?)
      ensures !IsHandled(msg) ==> out' == out && currentRoomId == old(currentRoomId)
      ensures !IsHandled(msg) ==>
        manager.rooms == old(manager.rooms) && manager.userRooms == old(manager.userRooms)
      ensures msg.Is(ChatMsg) && currentRoomId != [] && currentRoomId in manager.rooms ==>
        out' == SendAll(out, manager.rooms[currentRoomId].users, RoomChat(username, msg.content, currentRoomId))
      ensures msg.Is(RoomList) ==>
        out' == Send(out, id, ListReply(ListText(manager.PublicAmong(Ascending(manager.rooms.Keys)))))
    {
      assert Ordinal(ChatMsg) == 2 && Ordinal(RoomCreate) == 6 && Ordinal(RoomDelete) == 7
          && Ordinal(RoomJoin) == 8 && Ordinal(RoomLeave) == 9 && Ordinal(RoomList) == 10
          && Ordinal(RoomInfo) == 11;
      if msg.Is(ChatMsg) {
        out' := HandleChatMessage(msg, out);
      } else if IsRoomCommand(msg) {
        out' := HandleRoomCommand(msg, draws, now, out);
      } else {
        out' := out;
      }
    }
  }
}
