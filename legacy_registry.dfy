/**
 * The older ChatRoomManager: rooms keyed by their name in a std::map,
 * with a default room "General" that exists from construction on and can
 * never be deleted; a room with members cannot be deleted either.
 */
module LegacyRegistry {
  import opened Text
  import opened Delivery
  import opened LegacyRoom

  /** DEFAULT_ROOM_NAME */
  function General(): Bytes { Ascii("General") }

  /** One row of getRoomList. */
  datatype ChatRoomInfo = ChatRoomInfo(name: Bytes, userCount: nat, isDefault: bool)

  class RoomManager {
    var rooms: map<Bytes, ChatRoom>

    /** The default room is always present. */
    ghost predicate Valid()
      reads this
    {
      General() in rooms
    }

    /** The constructor files an empty "General" room. */
    constructor ()
      ensures Valid()
      ensures rooms.Keys == {General()} && fresh(rooms[General()])
      ensures rooms[General()].users == {} && rooms[General()].recentMessages == []
    {
      var general := new ChatRoom();
      rooms := map[General() := general];
    }

    /** createRoom: refuses an empty name and a name already in use;
        otherwise files a new empty room under the name. */
    method CreateRoom(name: Bytes) returns (created: bool)
      requires Valid()
      modifies this`rooms
      ensures Valid()
      ensures created <==> name != [] && name !in old(rooms)
      ensures !created ==> rooms == old(rooms)
      ensures created ==>
        rooms.Keys == old(rooms).Keys + {name} && fresh(rooms[name])
        && rooms[name].users == {} && rooms[name].recentMessages == []
        && forall n | n in old(rooms) :: rooms[n] == old(rooms)[n]
    {
      if name == [] || name in rooms {
        return false;
      }
      var room := new ChatRoom();
      rooms := rooms[name := room];
      created := true;
    }

    /** getRoom: the room filed under the name, or nullptr. */
    function GetRoom(name: Bytes): (r: Option<ChatRoom>)
      reads this
      ensures r.Some? <==> name in rooms
      ensures r.Some? ==> r.value == rooms[name]
    {
      if name in rooms then Some(rooms[name]) else None
    }

    /** The rows for `names`, in that order. */
    function Infos(names: seq<Bytes>): (r: seq<ChatRoomInfo>)
      requires forall n | n in names :: n in rooms
      reads this, rooms.Values
      ensures |r| == |names|
      ensures forall i | 0 <= i < |names| ::
        r[i].name == names[i] && r[i].userCount == |rooms[names[i]].users|
        && (r[i].isDefault <==> names[i] == General())
    {
      if names == [] then []
      else
        var n := names[|names| - 1];
        Infos(names[..|names| - 1]) + [ChatRoomInfo(n, |rooms[n].users|, n == General())]
    }

    lemma InfosSnoc(names: seq<Bytes>, n: Bytes)
      requires forall x | x in names :: x in rooms
      requires n in rooms
      ensures Infos(names + [n]) == Infos(names) + [ChatRoomInfo(n, |rooms[n].users|, n == General())]
    {
      assert (names + [n])[..|names|] == names;
    }

    /** getRoomList: one row per room, in the map's (ascending name) order,
        with its member count and whether it is the default room. */
    method GetRoomList() returns (list: seq<ChatRoomInfo>)
      requires Valid()
      ensures list == Infos(Ascending(rooms.Keys))
    {
      list := [];
      ghost var done: seq<Bytes> := [];
      var remaining := rooms.Keys;
      while remaining != {}
        invariant remaining <= rooms.Keys
        invariant forall x | x in done :: x in rooms
        invariant done + Ascending(remaining) == Ascending(rooms.Keys)
        invariant list == Infos(done)
        decreases remaining
      {
        LeastExists(remaining);
        var k :| k in remaining && IsLeast(k, remaining);
        AscendingPop(done, remaining, k);
        InfosSnoc(done, k);
        list := list + [ChatRoomInfo(k, rooms[k].UserCount(), k == General())];
        done := done + [k];
        remaining := remaining - {k};
      }
      assert done + [] == done;
    }

    /** deleteRoom: never the default room, never an occupied room. */
    method DeleteRoom(name: Bytes) returns (deleted: bool)
      requires Valid()
      modifies this`rooms
      ensures Valid()
      ensures deleted <==> name != General() && name in old(rooms) && old(rooms)[name].users == {}
      ensures rooms == if deleted then old(rooms) - {name} else old(rooms)
    {
      if name == General() {
        return false;
      }
      if name in rooms {
        if rooms[name].UserCount() > 0 {
          return false;
        }
        rooms := rooms - {name};
        return true;
      }
      return false;
    }

    /** roomExists */
    function RoomExists(name: Bytes): (r: bool)
      reads this
      ensures r <==> name in rooms
    {
      name in rooms
    }
  }

  /** The room list names every room, and nothing else. */
  lemma RoomListNamesRooms(m: RoomManager, list: seq<ChatRoomInfo>, n: Bytes)
    requires list == m.Infos(Ascending(m.rooms.Keys))
    ensures (exists i | 0 <= i < |list| :: list[i].name == n) <==> n in m.rooms
  {
    var ids := Ascending(m.rooms.Keys);
    if n in m.rooms {
      assert n in ids;
      var i :| 0 <= i < |ids| && ids[i] == n;
      assert list[i].name == n;
    } else {
      forall i | 0 <= i < |list| ensures list[i].name != n {
        assert list[i].name == ids[i];
        assert ids[i] in ids;
      }
    }
  }

  /** The room list is in strictly ascending order of name. */
  lemma RoomListSorted(m: RoomManager, list: seq<ChatRoomInfo>)
    requires list == m.Infos(Ascending(m.rooms.Keys))
    ensures forall i, j | 0 <= i < j < |list| :: Below(list[i].name, list[j].name)
  {
    AscendingIsSorted(m.rooms.Keys);
  }

  /** Exactly one row, General's, is marked as the default. */
  lemma RoomListOneDefault(m: RoomManager, list: seq<ChatRoomInfo>)
    requires m.Valid()
    requires list == m.Infos(Ascending(m.rooms.Keys))
    ensures exists i | 0 <= i < |list| :: list[i].isDefault && list[i].name == General()
    ensures forall i, j | 0 <= i < |list| && 0 <= j < |list| && list[i].isDefault && list[j].isDefault :: i == j
  {
    var ids := Ascending(m.rooms.Keys);
    assert General() in ids;
    var g :| 0 <= g < |ids| && ids[g] == General();
    assert list[g].isDefault;
    forall i, j | 0 <= i < |list| && 0 <= j < |list| && list[i].isDefault && list[j].isDefault
      ensures i == j
    {
      AscendingDistinct(m.rooms.Keys, i, j);
    }
  }
}
