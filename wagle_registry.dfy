/**
 * The newer ChatRoomManager: rooms keyed by a random 8-character
 * lowercase hex id, and for each user name the set of room ids it was
 * added to. The id draws of the random generator and the clock are
 * parameters. Listing iterates an unordered_map in the source, whose order
 * is unspecified; the model lists rooms in ascending id order.
 */
module WagleRegistry {
  import opened Text
  import opened Delivery
  import opened WagleMessage
  import opened WagleRoom

  /** One draw of uniform_int_distribution<>(0, 15). */
  type nibble = x: int | 0 <= x < 16

  /** "0123456789abcdef"[d] */
  function HexDigit(d: nibble): (b: byte)
    ensures IsHexDigit(b)
  {
    if d < 10 then 0x30 + d else 0x61 + (d - 10)
  }

  predicate IsHexDigit(b: byte)
  {
    0x30 <= b <= 0x39 || 0x61 <= b <= 0x66
  }

  predicate IsRoomId(s: Bytes)
  {
    |s| == 8 && forall i | 0 <= i < 8 :: IsHexDigit(s[i])
  }

  /** The hex digits the draws spell, in draw order. */
  function HexDigits(draws: seq<nibble>): (s: Bytes)
    ensures |s| == |draws|
    ensures forall i | 0 <= i < |draws| :: s[i] == HexDigit(draws[i])
  {
    if draws == [] then [] else HexDigits(draws[..|draws| - 1]) + [HexDigit(draws[|draws| - 1])]
  }

  /** The id eight draws spell. */
  function RoomIdOf(draws: seq<nibble>): (id: Bytes)
    requires |draws| == 8
    ensures IsRoomId(id)
  {
    HexDigits(draws)
  }

  /** Different draws give different ids: an id collision needs the
      generator to repeat all eight draws. */
  lemma RoomIdOfInjective(a: seq<nibble>, b: seq<nibble>)
    requires |a| == 8 && |b| == 8 && RoomIdOf(a) == RoomIdOf(b)
    ensures a == b
  {
    forall i | 0 <= i < 8 ensures a[i] == b[i] {
      assert HexDigit(a[i]) == RoomIdOf(a)[i] == RoomIdOf(b)[i] == HexDigit(b[i]);
    }
  }

  /** generateRoomId: eight hex digits appended one by one. */
  method GenerateRoomId(draws: seq<nibble>) returns (id: Bytes)
    requires |draws| == 8
    ensures id == RoomIdOf(draws)
  {
    id := [];
    for i := 0 to 8
      invariant id == HexDigits(draws[..i])
    {
      assert draws[..i + 1][..i] == draws[..i];
      id := id + [HexDigit(draws[i])];
    }
    assert draws[..8] == draws;
  }

  /** The rooms a user name has been added to (empty when absent). */
  function Linked(userRooms: map<Bytes, set<Bytes>>, name: Bytes): set<Bytes>
  {
    if name in userRooms then userRooms[name] else {}
  }

  /** The user_rooms_ update of removeUserFromRoom: drop the room, and the
      whole entry once it is empty. */
  function Unlink(userRooms: map<Bytes, set<Bytes>>, name: Bytes, id: Bytes): (r: map<Bytes, set<Bytes>>)
    ensures Linked(r, name) == Linked(userRooms, name) - {id}
    ensures forall n | n != name :: Linked(r, n) == Linked(userRooms, n)
    ensures (forall n | n in userRooms :: userRooms[n] != {}) ==> (forall n | n in r :: r[n] != {})
  {
    if name !in userRooms then userRooms
    else if userRooms[name] - {id} == {} then userRooms - {name}
    else userRooms[name := userRooms[name] - {id}]
  }

  class RoomManager {
    var rooms: map<Bytes, ChatRoom>
    /** user name -> ids of the rooms it was added to */
    var userRooms: map<Bytes, set<Bytes>>

    /** Every room is filed under its own id, which is a generated id; no
        user name maps to an empty set. */
    ghost predicate Valid()
      reads this
    {
      (forall id | id in rooms :: IsRoomId(id) && rooms[id].id == id)
      && (forall name | name in userRooms :: userRooms[name] != {})
    }

    /** The room filed under `id`, as a frame. */
    function Filed(id: Bytes): set<ChatRoom>
      reads this
    {
      if id in rooms then {rooms[id]} else {}
    }

    constructor ()
      ensures Valid() && rooms == map[] && userRooms == map[]
    {
      rooms := map[];
      userRooms := map[];
    }

    /** createRoom: a new room under a freshly drawn id. A drawn id that is
        already in use replaces the room filed under it. */
    method CreateRoom(name: Bytes, isPrivate: bool, draws: seq<nibble>, now: int)
      returns (room: ChatRoom)
      requires Valid() && |draws| == 8
      modifies this`rooms
      ensures Valid()
      ensures fresh(room)
      ensures room.id == RoomIdOf(draws) && room.name == name && room.isPrivate == isPrivate
      ensures room.users == {} && room.recentMessages == []
      ensures room.maxUsers == 0 && room.createdTime == now
      ensures rooms == old(rooms)[room.id := room]
    {
      var roomId := GenerateRoomId(draws);
      room := new ChatRoom(roomId, name, isPrivate, now);
      rooms := rooms[roomId := room];
    }

    method DeleteRoom(id: Bytes) returns (deleted: bool)
      requires Valid()
      modifies this`rooms
      ensures Valid()
      ensures deleted <==> id in old(rooms)
      ensures rooms == old(rooms) - {id}
    {
      deleted := id in rooms;
      rooms := rooms - {id};
    }

    /** getRoom: the room filed under `id`, or nullptr. */
    function GetRoom(id: Bytes): (r: Option<ChatRoom>)
      reads this
      ensures r.Some? <==> id in rooms
      ensures r.Some? ==> r.value == rooms[id]
      ensures Valid() && r.Some? ==> r.value.id == id && IsRoomId(id)
    {
      if id in rooms then Some(rooms[id]) else None
    }

    /** The rooms named by `ids`, in that order, leaving out the private
        ones. */
    function PublicAmong(ids: seq<Bytes>): (r: seq<ChatRoom>)
      requires forall k | k in ids :: k in rooms
      reads this, rooms.Values
      ensures |r| <= |ids|
    {
      if ids == [] then []
      else
        var k := ids[|ids| - 1];
        PublicAmong(ids[..|ids| - 1]) + (if rooms[k].isPrivate then [] else [rooms[k]])
    }

    /** The rooms named by `ids`, in that order, leaving out ids no longer
        filed. */
    function FiledAmong(ids: seq<Bytes>): (r: seq<ChatRoom>)
      reads this, rooms.Values
      ensures |r| <= |ids|
    {
      if ids == [] then []
      else
        var k := ids[|ids| - 1];
        FiledAmong(ids[..|ids| - 1]) + (if k in rooms then [rooms[k]] else [])
    }

    lemma PublicAmongSnoc(ids: seq<Bytes>, k: Bytes)
      requires forall x | x in ids :: x in rooms
      requires k in rooms
      ensures PublicAmong(ids + [k]) == PublicAmong(ids) + (if rooms[k].isPrivate then [] else [rooms[k]])
    {
      assert (ids + [k])[..|ids|] == ids;
    }

    lemma FiledAmongSnoc(ids: seq<Bytes>, k: Bytes)
      ensures FiledAmong(ids + [k]) == FiledAmong(ids) + (if k in rooms then [rooms[k]] else [])
    {
      assert (ids + [k])[..|ids|] == ids;
    }

    /** getPublicRooms: every room that is not private, once each. */
    method GetPublicRooms() returns (list: seq<ChatRoom>)
      requires Valid()
      ensures list == PublicAmong(Ascending(rooms.Keys))
    {
      list := [];
      ghost var done: seq<Bytes> := [];
      var remaining := rooms.Keys;
      while remaining != {}
        invariant remaining <= rooms.Keys
        invariant forall x | x in done :: x in rooms
        invariant done + Ascending(remaining) == Ascending(rooms.Keys)
        invariant list == PublicAmong(done)
        decreases remaining
      {
        LeastExists(remaining);
        var k :| k in remaining && IsLeast(k, remaining);
        AscendingPop(done, remaining, k);
        PublicAmongSnoc(done, k);
        if !rooms[k].isPrivate {
          list := list + [rooms[k]];
        }
        done := done + [k];
        remaining := remaining - {k};
      }
      assert done + [] == done;
    }

    /** getUserRooms: the rooms a user name was added to that are still
        filed, in ascending id order (a std::set of ids). */
    method GetUserRooms(username: Bytes) returns (list: seq<ChatRoom>)
      requires Valid()
      ensures list == FiledAmong(Ascending(Linked(userRooms, username)))
    {
      list := [];
      if username !in userRooms {
        assert Ascending(Linked(userRooms, username)) == [];
        return;
      }
      ghost var done: seq<Bytes> := [];
      var remaining := userRooms[username];
      while remaining != {}
        invariant done + Ascending(remaining) == Ascending(userRooms[username])
        invariant list == FiledAmong(done)
        decreases remaining
      {
        LeastExists(remaining);
        var k :| k in remaining && IsLeast(k, remaining);
        AscendingPop(done, remaining, k);
        FiledAmongSnoc(done, k);
        if k in rooms {
          list := list + [rooms[k]];
        }
        done := done + [k];
        remaining := remaining - {k};
      }
      assert done + [] == done;
    }

    /** addUserToRoom. An unknown id answers false. Otherwise the link from
        the user's name to the room is recorded first, then the room's
        join runs: a full room's exception propagates (the link stays),
        and a successful join answers true. */
    method AddUserToRoom(id: Bytes, user: User, out: Outbox<Message>)
      returns (r: Except<bool>, out': Outbox<Message>)
      requires Valid()
      modifies this`userRooms, Filed(id)`users, Filed(id)`recentMessages
      ensures Valid()
      ensures id !in rooms ==> r == Value(false) && userRooms == old(userRooms) && out' == out
      ensures id in rooms ==> userRooms == old(userRooms)[user.name := Linked(old(userRooms), user.name) + {id}]
      ensures id in rooms && old(rooms[id].Full()) ==> r == Exception(Ascii("Chat room is full")) && out' == out
      ensures id in rooms && old(rooms[id].Full()) ==>
        rooms[id].users == old(rooms[id].users) && rooms[id].recentMessages == old(rooms[id].recentMessages)
      ensures id in rooms && !old(rooms[id].Full()) ==> r == Value(true)
      ensures id in rooms && !old(rooms[id].Full()) ==> rooms[id].users == old(rooms[id].users) + {user.id}
      ensures id in rooms && !old(rooms[id].Full()) ==>
        rooms[id].recentMessages == Recent(old(rooms[id].recentMessages) + [JoinNotice(id, user.name)])
      ensures id in rooms && !old(rooms[id].Full()) ==>
        out' == JoinWrites(out, rooms[id].users, id, user, rooms[id].recentMessages)
    {
      if id !in rooms {
        return Value(false), out;
      }
      var room := rooms[id];
      userRooms := userRooms[user.name := Linked(userRooms, user.name) + {id}];
      var joined;
      joined, out' := room.Join(user, out);
      if joined.Exception? {
        return Exception(joined.what), out';
      }
      r := Value(true);
    }

    /** removeUserFromRoom. An unknown id answers false. Otherwise the
        link is dropped, the room's leave runs, and the answer is true even
        when the user was not a member. */
    method RemoveUserFromRoom(id: Bytes, user: User, out: Outbox<Message>)
      returns (removed: bool, out': Outbox<Message>)
      requires Valid()
      modifies this`userRooms, Filed(id)`users, Filed(id)`recentMessages
      ensures Valid()
      ensures removed <==> id in rooms
      ensures id !in rooms ==> userRooms == old(userRooms) && out' == out
      ensures id in rooms ==>
        (userRooms == Unlink(old(userRooms), user.name, id)
         && (user.id !in old(rooms[id].users) ==>
               rooms[id].users == old(rooms[id].users)
               && rooms[id].recentMessages == old(rooms[id].recentMessages) && out' == out)
         && (user.id in old(rooms[id].users) ==>
               rooms[id].users == old(rooms[id].users) - {user.id}
               && rooms[id].recentMessages == Recent(old(rooms[id].recentMessages) + [LeaveNotice(id, user.name)])
               && out' == LeaveWrites(out, rooms[id].users, id, user.name)))
    {
      if id !in rooms {
        return false, out;
      }
      var room := rooms[id];
      userRooms := Unlink(userRooms, user.name, id);
      out' := room.Leave(user, out);
      removed := true;
    }
  }

  /** Every room listed is public and filed, and every public filed room
      named in `ids` is listed. */
  lemma {:induction false} PublicAmongExact(m: RoomManager, ids: seq<Bytes>, room: ChatRoom)
    requires forall k | k in ids :: k in m.rooms
    ensures room in m.PublicAmong(ids) <==>
      exists k | k in ids :: m.rooms[k] == room && !room.isPrivate
  {
    if ids != [] {
      var k := ids[|ids| - 1];
      var front := ids[..|ids| - 1];
      PublicAmongExact(m, front, room);
      if room in m.PublicAmong(ids) && room !in m.PublicAmong(front) {
        assert m.rooms[k] == room && !room.isPrivate;
      }
      if exists k' | k' in ids :: m.rooms[k'] == room && !room.isPrivate {
        var k' :| k' in ids && m.rooms[k'] == room && !room.isPrivate;
        if k' != k {
          var i :| 0 <= i < |ids| && ids[i] == k';
          assert front[i] == k';
        }
      }
    }
  }

  /** What getPublicRooms returns: exactly the rooms that are not private. */
  lemma PublicRoomsListed(m: RoomManager, room: ChatRoom)
    ensures room in m.PublicAmong(Ascending(m.rooms.Keys)) <==>
      exists k | k in m.rooms :: m.rooms[k] == room && !room.isPrivate
  {
    PublicAmongExact(m, Ascending(m.rooms.Keys), room);
  }
}
