/**
 * The newer ChatRoom: a set of member handles, a capacity check on entry,
 * join and leave notices, a user-count broadcast after every change of
 * membership, and a history of the last 100 messages that a joining member
 * is sent, minus the notices of its own arrival.
 */
module WagleRoom {
  import opened Text
  import opened Delivery
  import opened WagleMessage

  function Server(): Bytes { Ascii("SERVER") }

  function JoinedSuffix(): Bytes { Ascii(" has joined the chat.") }

  function LeftSuffix(): Bytes { Ascii(" has left the chat.") }

  /** The notice sent to the other members when `name` enters room `roomId`. */
  function JoinNotice(roomId: Bytes, name: Bytes): (m: Message)
    ensures m.Is(Connect) && m.sender == Server() && m.roomId == roomId
  {
    Message4(Connect, Server(), name + JoinedSuffix(), roomId)
  }

  function LeaveNotice(roomId: Bytes, name: Bytes): (m: Message)
    ensures m.Is(Disconnect) && m.sender == Server() && m.roomId == roomId
  {
    Message4(Disconnect, Server(), name + LeftSuffix(), roomId)
  }

  /** The member count, as std::to_string writes it. */
  function UserCountNotice(roomId: Bytes, count: nat): (m: Message)
    ensures m.Is(UserCount) && m.sender == Server() && m.roomId == roomId
  {
    Message4(UserCount, Server(), Decimal(count), roomId)
  }

  /** A client reading the count notice with std::stoi gets the count back. */
  lemma UserCountReadsBack(roomId: Bytes, count: nat)
    ensures Stoi(UserCountNotice(roomId, count).content)
         == if count < 0x8000_0000 then Ok(count) else Err(OutOfRange)
  {
    StoiNat(count);
  }

  /** What the replay filter leaves out: a CONNECT message whose content
      is exactly the joiner's own arrival notice, from any room. */
  predicate IsOwnJoin(m: Message, name: Bytes)
  {
    m.Is(Connect) && m.content == name + JoinedSuffix()
  }

  /** The history a joiner named `name` is sent, in history order. */
  function Replay(history: seq<Message>, name: Bytes): (r: seq<Message>)
    ensures |r| <= |history|
  {
    if history == [] then []
    else
      var last := history[|history| - 1];
      Replay(history[..|history| - 1], name) + (if IsOwnJoin(last, name) then [] else [last])
  }

  /** The replay holds exactly the messages of the history that are not
      the joiner's own arrival notices. */
  lemma {:induction false} ReplayMembers(history: seq<Message>, name: Bytes, m: Message)
    ensures m in Replay(history, name) <==> m in history && !IsOwnJoin(m, name)
  {
    if history != [] {
      var front, last := history[..|history| - 1], history[|history| - 1];
      assert history == front + [last];
      ReplayMembers(front, name, m);
    }
  }

  /** A joiner never sees the notice of its own arrival, nor of any
      earlier arrival under the same name. */
  lemma {:induction false} ReplayOmitsOwnArrival(history: seq<Message>, roomId: Bytes, name: Bytes)
    ensures JoinNotice(roomId, name) !in Replay(history, name)
  {
    ReplayMembers(history, name, JoinNotice(roomId, name));
  }

  /** Replay keeps the history's order: it is the history with the
      joiner's own arrival notices removed. */
  lemma {:induction false} ReplayAppend(a: seq<Message>, b: seq<Message>, name: Bytes)
    ensures Replay(a + b, name) == Replay(a, name) + Replay(b, name)
    decreases |b|
  {
    if b == [] {
      assert a + b == a;
    } else {
      var b', last := b[..|b| - 1], b[|b| - 1];
      assert (a + b)[..|a + b| - 1] == a + b' && (a + b)[|a + b| - 1] == last;
      ReplayAppend(a, b', name);
      var tail := if IsOwnJoin(last, name) then [] else [last];
      calc {
        Replay(a + b, name);
        Replay(a + b', name) + tail;
        Replay(a, name) + Replay(b', name) + tail;
        Replay(a, name) + (Replay(b', name) + tail);
        Replay(a, name) + Replay(b, name);
      }
    }
  }

  /** The writes of a successful join, given the members and the history
      after it: the arrival notice to everyone but the newcomer, the
      filtered history to the newcomer, then the count to everyone. */
  function JoinWrites(out: Outbox<Message>, members: set<UserId>, roomId: Bytes,
                      user: User, history: seq<Message>): Outbox<Message>
  {
    SendAll(
      SendSeq(SendAll(out, members - {user.id}, JoinNotice(roomId, user.name)),
              user.id, Replay(history, user.name)),
      members, UserCountNotice(roomId, |members|))
  }

  /** What each socket reads after a join: the newcomer its history and
      the count, every other member the arrival notice and the count, and
      nobody outside the room anything. */
  lemma JoinWritesInboxes(out: Outbox<Message>, members: set<UserId>, roomId: Bytes,
                          user: User, history: seq<Message>, v: UserId)
    requires user.id in members
    ensures var r := JoinWrites(out, members, roomId, user, history);
      Inbox(r, v) == if v == user.id then Inbox(out, v) + Replay(history, user.name)
                                           + [UserCountNotice(roomId, |members|)]
                     else if v in members then
                       Inbox(out, v) + [JoinNotice(roomId, user.name), UserCountNotice(roomId, |members|)]
                     else Inbox(out, v)
  {
    GreetInboxes(out, members, user.id, JoinNotice(roomId, user.name), Replay(history, user.name),
                 UserCountNotice(roomId, |members|), v);
  }

  /** The writes of a leave, given the members that remain. */
  function LeaveWrites(out: Outbox<Message>, members: set<UserId>, roomId: Bytes, name: Bytes)
    : Outbox<Message>
  {
    SendAll(SendAll(out, members, LeaveNotice(roomId, name)), members, UserCountNotice(roomId, |members|))
  }

  /** After a leave every remaining member reads the departure notice and
      the new count; the one who left, and everyone outside the room, reads
      nothing more. */
  lemma LeaveWritesInboxes(out: Outbox<Message>, members: set<UserId>, roomId: Bytes, name: Bytes,
                           v: UserId)
    ensures Inbox(LeaveWrites(out, members, roomId, name), v)
         == if v in members
            then Inbox(out, v) + [LeaveNotice(roomId, name), UserCountNotice(roomId, |members|)]
            else Inbox(out, v)
  {
    TwoBroadcastsInboxes(out, members, LeaveNotice(roomId, name), UserCountNotice(roomId, |members|), v);
  }

  /** Join only adds a member when the room is not full, and adding one
      handle to a set below a positive capacity stays within it: a join
      that starts below a positive cap ends within it. (A cap lowered
      later by setMaxUsers can still be below the member count.) */
  lemma AddRespectsCap(users: set<UserId>, u: UserId, max: nat)
    requires max == 0 || |users| < max
    ensures max == 0 || |users + {u}| <= max
  {
    if u in users {
      assert users + {u} == users;
    } else {
      assert |users + {u}| == |users| + 1;
    }
  }

  class ChatRoom {
    const id: Bytes
    const name: Bytes
    var isPrivate: bool
    /** 0 means no limit. */
    var maxUsers: nat
    /** Seconds since the epoch when the room was made. */
    const createdTime: int
    var users: set<UserId>
    /** The last MaxRecentMessages messages stored, oldest first. */
    var recentMessages: seq<Message>

    /** time(nullptr) is the `now` argument. */
    constructor (id: Bytes, name: Bytes, isPrivate: bool, now: int)
      ensures this.id == id && this.name == name && this.isPrivate == isPrivate
      ensures maxUsers == 0 && createdTime == now
      ensures users == {} && recentMessages == []
    {
      this.id := id;
      this.name := name;
      this.isPrivate := isPrivate;
      maxUsers := 0;
      createdTime := now;
      users := {};
      recentMessages := [];
    }

    function UserCount(): (n: nat)
      reads this
      ensures n == |users|
    {
      |users|
    }

    method SetMaxUsers(max: nat)
      modifies this`maxUsers
      ensures maxUsers == max
    {
      maxUsers := max;
    }

    method SetPrivate(isPrivate: bool)
      modifies this`isPrivate
      ensures this.isPrivate == isPrivate
    {
      this.isPrivate := isPrivate;
    }

    predicate Full()
      reads this
    {
      maxUsers > 0 && |users| >= maxUsers
    }

    /** broadcast: store the message, then write it to every member. */
    method Broadcast(msg: Message, out: Outbox<Message>) returns (out': Outbox<Message>)
      modifies this`recentMessages
      ensures recentMessages == Recent(old(recentMessages) + [msg])
      ensures out' == SendAll(out, users, msg)
    {
      recentMessages := Append(recentMessages, msg);
      out' := Deliver(out, users, msg);
    }

    /** broadcastUserCount: the member count to every member; not stored. */
    method BroadcastUserCount(out: Outbox<Message>) returns (out': Outbox<Message>)
      ensures out' == SendAll(out, users, UserCountNotice(id, |users|))
    {
      out' := Deliver(out, users, UserCountNotice(id, |users|));
    }

    /** join. A full room throws and changes nothing. Otherwise the user
        becomes a member (again, if it already was one), the other members
        get the arrival notice, the notice is stored, the user is sent the
        history except its own arrival notices, and everyone gets the new
        member count. */
    method Join(user: User, out: Outbox<Message>) returns (r: Except<()>, out': Outbox<Message>)
      modifies this`users, this`recentMessages
      ensures old(maxUsers > 0 && |users| >= maxUsers) ==>
        (r == Exception(Ascii("Chat room is full"))
         && users == old(users) && recentMessages == old(recentMessages) && out' == out)
      ensures !old(maxUsers > 0 && |users| >= maxUsers) ==>
        (r.Value?
         && users == old(users) + {user.id}
         && recentMessages == Recent(old(recentMessages) + [JoinNotice(id, user.name)])
         && out' == JoinWrites(out, users, id, user, recentMessages))
    {
      if maxUsers > 0 && |users| >= maxUsers {
        return Exception(Ascii("Chat room is full")), out;
      }
      var members := users + {user.id};
      var joinMsg := JoinNotice(id, user.name);
      out' := Deliver(out, members - {user.id}, joinMsg);
      var history := Append(recentMessages, joinMsg);
      out' := ReplayTo(out', user.id, history, user.name);
      users, recentMessages := members, history;
      out' := BroadcastUserCount(out');
      r := Value(());
    }

    /** leave. A non-member is ignored; otherwise the user stops being a
        member, the departure notice is broadcast (and stored) and the new
        count is sent to those who remain. */
    method Leave(user: User, out: Outbox<Message>) returns (out': Outbox<Message>)
      modifies this`users, this`recentMessages
      ensures user.id !in old(users) ==>
        (users == old(users) && recentMessages == old(recentMessages) && out' == out)
      ensures user.id in old(users) ==>
        (users == old(users) - {user.id}
         && recentMessages == Recent(old(recentMessages) + [LeaveNotice(id, user.name)])
         && out' == LeaveWrites(out, users, id, user.name))
    {
      if user.id !in users {
        return out;
      }
      users := users - {user.id};
      out' := Broadcast(LeaveNotice(id, user.name), out);
      out' := BroadcastUserCount(out');
    }
  }

  /** The replay loop: each stored message, in order, that is not the
      joiner's own arrival notice is written to the joiner. */
  method ReplayTo(out: Outbox<Message>, u: UserId, history: seq<Message>, name: Bytes)
    returns (out': Outbox<Message>)
    ensures out' == SendSeq(out, u, Replay(history, name))
  {
    out' := out;
    for i := 0 to |history|
      invariant out' == SendSeq(out, u, Replay(history[..i], name))
    {
      ghost var seen := Replay(history[..i], name);
      assert history[..i + 1][..i] == history[..i];
      assert Replay(history[..i + 1], name)
          == seen + (if IsOwnJoin(history[i], name) then [] else [history[i]]);
      if !IsOwnJoin(history[i], name) {
        SendSeqStep(out, u, seen, history[i]);
        out' := Send(out', u, history[i]);
      } else {
        assert seen + [] == seen;
      }
    }
    assert history[..|history|] == history;
  }
}
