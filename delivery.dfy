/**
 * What a room writes to its members' sockets, and the bounded history it
 * keeps. A member is a handle to a connected user (the shared_ptr<User>
 * the rooms hold); the handle owns the socket, so a socket write is an
 * append to that handle's outbox. Every write is modelled as a successful
 * append: the newer room's writes catch and log their failures, but other
 * writes would throw on failure, and that case is not modelled.
 */
module Delivery {
  import opened Text

  /** The identity of a User object: rooms compare members by pointer. */
  type UserId = nat

  datatype User = User(id: UserId, name: Bytes)

  /** Everything written so far to each user's socket, oldest first. */
  type Outbox<M> = map<UserId, seq<M>>

  /** What the std::exception a call raised says, or the value it returned. */
  datatype Except<T> = Value(value: T) | Exception(what: Bytes)

  function Inbox<M>(out: Outbox<M>, u: UserId): seq<M>
  {
    if u in out then out[u] else []
  }

  /** One write of `m` to u's socket. */
  function Send<M>(out: Outbox<M>, u: UserId, m: M): (r: Outbox<M>)
    ensures Inbox(r, u) == Inbox(out, u) + [m]
    ensures forall v | v != u :: Inbox(r, v) == Inbox(out, v)
  {
    out[u := Inbox(out, u) + [m]]
  }

  /** Writes of `ms`, in order, to u's socket. */
  function SendSeq<M>(out: Outbox<M>, u: UserId, ms: seq<M>): (r: Outbox<M>)
    ensures Inbox(r, u) == Inbox(out, u) + ms
    ensures forall v | v != u :: Inbox(r, v) == Inbox(out, v)
  {
    if ms == [] then out else out[u := Inbox(out, u) + ms]
  }

  /** One write of `m` to the socket of every user in `to`. */
  function SendAll<M>(out: Outbox<M>, to: set<UserId>, m: M): (r: Outbox<M>)
    ensures forall v :: Inbox(r, v) == if v in to then Inbox(out, v) + [m] else Inbox(out, v)
  {
    map v | v in out.Keys + to :: if v in to then Inbox(out, v) + [m] else out[v]
  }

  lemma SendAllStep<M>(out: Outbox<M>, done: set<UserId>, u: UserId, m: M)
    requires u !in done
    ensures SendAll(out, done + {u}, m) == Send(SendAll(out, done, m), u, m)
  {
    var a := SendAll(out, done + {u}, m);
    var b := Send(SendAll(out, done, m), u, m);
    assert a.Keys == b.Keys;
    forall v | v in a.Keys ensures a[v] == b[v] {
      assert a[v] == Inbox(a, v) && b[v] == Inbox(b, v);
    }
  }

  lemma SendSeqStep<M>(out: Outbox<M>, u: UserId, ms: seq<M>, m: M)
    ensures SendSeq(out, u, ms + [m]) == Send(SendSeq(out, u, ms), u, m)
  {
    assert Inbox(out, u) + (ms + [m]) == Inbox(out, u) + ms + [m];
    if ms == [] {
      assert ms + [m] == [m];
    }
  }

  /** Inboxes after a write of `notice` to all of `members` but `u`, then
      the writes of `ms` to `u`, then a write of `last` to all members. */
  lemma {:induction false} GreetInboxes<M>(out: Outbox<M>, members: set<UserId>, u: UserId,
                                           notice: M, ms: seq<M>, last: M, v: UserId)
    requires u in members
    ensures var r := SendAll(SendSeq(SendAll(out, members - {u}, notice), u, ms), members, last);
      Inbox(r, v) == if v == u then Inbox(out, v) + ms + [last]
                     else if v in members then Inbox(out, v) + [notice, last]
                     else Inbox(out, v)
  {
    var a := SendAll(out, members - {u}, notice);
    var b := SendSeq(a, u, ms);
    var c := SendAll(b, members, last);
    assert Inbox(c, v) == if v in members then Inbox(b, v) + [last] else Inbox(b, v);
    if v == u {
      assert Inbox(b, v) == Inbox(a, v) + ms;
      assert Inbox(a, v) == Inbox(out, v);
    } else {
      assert Inbox(b, v) == Inbox(a, v);
      assert Inbox(a, v) == if v in members then Inbox(out, v) + [notice] else Inbox(out, v);
    }
  }

  lemma AppendTwo<M>(s: seq<M>, a: M, b: M)
    ensures s + [a] + [b] == s + [a, b]
  {
  }

  /** Inboxes after two writes to all of `members`: `first`, then `second`. */
  lemma TwoBroadcastsInboxes<M>(out: Outbox<M>, members: set<UserId>, first: M, second: M, v: UserId)
    ensures Inbox(SendAll(SendAll(out, members, first), members, second), v)
         == if v in members then Inbox(out, v) + [first, second] else Inbox(out, v)
  {
    var a := SendAll(out, members, first);
    assert Inbox(SendAll(a, members, second), v) == if v in members then Inbox(a, v) + [second] else Inbox(a, v);
  }

  /** The write loop every broadcast runs: one write of `m` to each user in
      `to`, in the set's iteration order, with failures swallowed. */
  method Deliver<M>(out: Outbox<M>, to: set<UserId>, m: M) returns (out': Outbox<M>)
    ensures out' == SendAll(out, to, m)
  {
    out' := out;
    var pending := to;
    while pending != {}
      invariant pending <= to
      invariant out' == SendAll(out, to - pending, m)
      decreases pending
    {
      var u :| u in pending;
      SendAllStep(out, to - pending, u, m);
      assert to - pending + {u} == to - (pending - {u});
      out' := Send(out', u, m);
      pending := pending - {u};
    }
    assert to - pending == to;
  }

  // ---------------------------------------------------------------------
  // Recent-message history
  // ---------------------------------------------------------------------

  /** MAX_RECENT_MESSAGES of both ChatRoom generations. */
  const MaxRecentMessages: nat := 100

  /** The last MaxRecentMessages entries of `log`, oldest first. */
  function Recent<M>(log: seq<M>): (h: seq<M>)
    ensures |h| <= MaxRecentMessages
    ensures |h| == if |log| < MaxRecentMessages then |log| else MaxRecentMessages
    ensures h == log[|log| - |h|..]
  {
    if |log| <= MaxRecentMessages then log else log[|log| - MaxRecentMessages..]
  }

  /** Trimming after every append keeps exactly the latest entries of
      everything ever appended. */
  lemma RecentAppend<M>(log: seq<M>, m: M)
    ensures Recent(Recent(log) + [m]) == Recent(log + [m])
  {
    var h := Recent(log);
    var l := log + [m];
    if |log| >= MaxRecentMessages {
      assert Recent(h + [m]) == (h + [m])[1..];
      assert (h + [m])[1..] == l[|l| - MaxRecentMessages..];
    }
  }

  /** push_back followed by pop_front while the deque is longer than
      MAX_RECENT_MESSAGES. */
  method Append<M>(history: seq<M>, m: M) returns (trimmed: seq<M>)
    ensures trimmed == Recent(history + [m])
  {
    var all := history + [m];
    trimmed := all;
    ghost var dropped := 0;
    while |trimmed| > MaxRecentMessages
      invariant dropped <= |all|
      invariant trimmed == all[dropped..]
      invariant dropped > 0 ==> |trimmed| >= MaxRecentMessages
    {
      trimmed := trimmed[1..];
      dropped := dropped + 1;
    }
  }
}
