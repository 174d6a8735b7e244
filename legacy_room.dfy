/**
 * The older ChatRoom: a set of member handles and a history of the last
 * 100 messages. Joining broadcasts the arrival to every member, the
 * newcomer included, and then sends the newcomer the whole history, which
 * by then ends with that same notice. There is no capacity limit and no
 * user-count message.
 */
module LegacyRoom {
  import opened Text
  import opened Delivery
  import opened LegacyMessage

  function Server(): Bytes { Ascii("SERVER") }

  function JoinNotice(name: Bytes): (m: Message)
    ensures m.Is(Connect) && m.sender == Server()
  {
    Message3(Connect, Server(), name + Ascii(" has joined the chat."))
  }

  function LeaveNotice(name: Bytes): (m: Message)
    ensures m.Is(Disconnect) && m.sender == Server()
  {
    Message3(Disconnect, Server(), name + Ascii(" has left the chat."))
  }

  /** The refusal sent to a newcomer whose name is taken. Its kind is
      REJECT_DUPLICATE_NAME, which this generation's MessageType does not
      declare, so its ordinal is a parameter. */
  function RejectNotice(rejectKind: int32): (m: Message)
    ensures m.kind == rejectKind && m.sender == Server()
  {
    Message(rejectKind, Server(), Ascii("Nickname already in use."))
  }

  class ChatRoom {
    var users: set<UserId>
    /** The last MaxRecentMessages messages stored, oldest first. */
    var recentMessages: seq<Message>

    /** std::make_shared<ChatRoom>(): no members, no history. */
    constructor ()
      ensures users == {} && recentMessages == []
    {
      users := {};
      recentMessages := [];
    }

    /** The member count the registry reports for this room. */
    function UserCount(): (n: nat)
      reads this
      ensures n == |users|
    {
      |users|
    }

    /** broadcast: store the message, then write it to every member. */
    method Broadcast(msg: Message, out: Outbox<Message>) returns (out': Outbox<Message>)
      modifies this`recentMessages
      ensures recentMessages == Recent(old(recentMessages) + [msg])
      ensures out' == SendAll(out, users, msg)
    {
      recentMessages := Append(recentMessages, msg);
      out' := Deliver(out, users, msg);
    }

    /** join. `nameTaken` is what isNameTaken answers for the user's name.
        A taken name gets the refusal and nothing else changes. Otherwise
        the user becomes a member, the arrival is broadcast to all members
        and stored, and the whole stored history is written to the user. */
    method Join(user: User, nameTaken: bool, rejectKind: int32, out: Outbox<Message>)
      returns (joined: bool, out': Outbox<Message>)
      modifies this`users, this`recentMessages
      ensures joined == !nameTaken
      ensures nameTaken ==>
        (users == old(users) && recentMessages == old(recentMessages)
         && out' == Send(out, user.id, RejectNotice(rejectKind)))
      ensures !nameTaken ==>
        (users == old(users) + {user.id}
         && recentMessages == Recent(old(recentMessages) + [JoinNotice(user.name)])
         && out' == SendSeq(SendAll(out, users, JoinNotice(user.name)), user.id, recentMessages))
    {
      if nameTaken {
        return false, Send(out, user.id, RejectNotice(rejectKind));
      }
      users := users + {user.id};
      out' := Broadcast(JoinNotice(user.name), out);
      out' := SendHistory(out', user.id, recentMessages);
      joined := true;
    }

    /** leave: the user stops being a member (if it was one) and the
        departure is broadcast to those who remain, and stored, in every
        case. */
    method Leave(user: User, out: Outbox<Message>) returns (out': Outbox<Message>)
      modifies this`users, this`recentMessages
      ensures users == old(users) - {user.id}
      ensures recentMessages == Recent(old(recentMessages) + [LeaveNotice(user.name)])
      ensures out' == SendAll(out, users, LeaveNotice(user.name))
    {
      users := users - {user.id};
      out' := Broadcast(LeaveNotice(user.name), out);
    }
  }

  /** The history loop of join: every stored message, in order, to `u`. */
  method SendHistory(out: Outbox<Message>, u: UserId, history: seq<Message>)
    returns (out': Outbox<Message>)
    ensures out' == SendSeq(out, u, history)
  {
    out' := out;
    for i := 0 to |history|
      invariant out' == SendSeq(out, u, history[..i])
    {
      assert history[..i + 1] == history[..i] + [history[i]];
      SendSeqStep(out, u, history[..i], history[i]);
      out' := Send(out', u, history[i]);
    }
    assert history[..|history|] == history;
  }

  /** What a successful join writes to the newcomer: its own arrival
      notice from the broadcast, then the history, which ends with the same
      notice, so the newcomer reads its arrival twice: right after the
      broadcast and again as the last message of the replay. */
  lemma JoinerReadsOwnArrivalTwice(out: Outbox<Message>, users: set<UserId>, u: UserId,
                                   history: seq<Message>, name: Bytes)
    requires u in users
    ensures var inbox := Inbox(SendSeq(SendAll(out, users, JoinNotice(name)), u,
                                       Recent(history + [JoinNotice(name)])), u);
      inbox == Inbox(out, u) + [JoinNotice(name)] + Recent(history + [JoinNotice(name)])
      && inbox[|inbox| - 1] == JoinNotice(name)
      && inbox[|Inbox(out, u)|] == JoinNotice(name)
  {
    var j := JoinNotice(name);
    var h := Recent(history + [j]);
    var sent := SendAll(out, users, j);
    assert Inbox(sent, u) == Inbox(out, u) + [j];
    var inbox := Inbox(SendSeq(sent, u, h), u);
    assert inbox == Inbox(sent, u) + h;
    assert h[|h| - 1] == j;
    assert inbox[|inbox| - 1] == h[|h| - 1];
    assert inbox[|Inbox(out, u)|] == Inbox(sent, u)[|Inbox(out, u)|];
  }
}
