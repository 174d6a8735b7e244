/**
 * The newer wire codec: a Message is a kind ordinal plus sender, content
 * and room id, written as one line
 *   <ordinal>:<sender>:<content>:<room_id>\n
 * with every ':' inside a field replaced by 0xCB 0xB8 (U+02F8 in UTF-8).
 */
module WagleMessage {
  import opened Text
  import opened Utf8

  /** The fourteen message kinds, in declaration order. */
  datatype MessageType =
    | Connect | Disconnect | ChatMsg | UserList | UserCount | UsernameError
    | RoomCreate | RoomDelete | RoomJoin | RoomLeave | RoomList | RoomInfo
    | RoomMessage | RoomError

  const AllKinds: seq<MessageType> :=
    [Connect, Disconnect, ChatMsg, UserList, UserCount, UsernameError,
     RoomCreate, RoomDelete, RoomJoin, RoomLeave, RoomList, RoomInfo,
     RoomMessage, RoomError]

  /** static_cast<int>(kind): the kind's position in the enumeration. */
  function Ordinal(k: MessageType): nat
  {
    match k
    case Connect => 0
    case Disconnect => 1
    case ChatMsg => 2
    case UserList => 3
    case UserCount => 4
    case UsernameError => 5
    case RoomCreate => 6
    case RoomDelete => 7
    case RoomJoin => 8
    case RoomLeave => 9
    case RoomList => 10
    case RoomInfo => 11
    case RoomMessage => 12
    case RoomError => 13
  }

  /** Exactly fourteen kinds, each at the position its ordinal names. */
  lemma OrdinalIsPosition()
    ensures |AllKinds| == 14
    ensures forall i | 0 <= i < |AllKinds| :: Ordinal(AllKinds[i]) == i
    ensures forall k: MessageType :: Ordinal(k) < |AllKinds| && AllKinds[Ordinal(k)] == k
  {
    forall k: MessageType ensures Ordinal(k) < |AllKinds| && AllKinds[Ordinal(k)] == k {
      match k
      case Connect =>
      case Disconnect =>
      case ChatMsg =>
      case UserList =>
      case UserCount =>
      case UsernameError =>
      case RoomCreate =>
      case RoomDelete =>
      case RoomJoin =>
      case RoomLeave =>
      case RoomList =>
      case RoomInfo =>
      case RoomMessage =>
      case RoomError =>
    }
  }

  /** static_cast<MessageType>(n) read back as a kind: the kind whose
      ordinal is n, or None for a number outside the enumeration. */
  function KindOf(n: int): (r: Option<MessageType>)
    ensures r.Some? <==> 0 <= n < 14
    ensures r.Some? ==> Ordinal(r.value) == n
  {
    OrdinalIsPosition();
    if 0 <= n < |AllKinds| then Some(AllKinds[n]) else None
  }

  lemma KindOfOrdinal(k: MessageType)
    ensures KindOf(Ordinal(k)) == Some(k)
  {
    OrdinalIsPosition();
  }

  /** A message as the server handles it. `kind` is the enum value as an
      int: deserialize casts the parsed number without a range check, so a
      message can carry an ordinal that names no kind. */
  datatype Message = Message(kind: int32, sender: Bytes, content: Bytes, roomId: Bytes)
  {
    function SetType(k: MessageType): (r: Message)
      ensures r.kind == Ordinal(k)
      ensures r.sender == sender && r.content == content && r.roomId == roomId
    {
      this.(kind := Ordinal(k))
    }

    function SetSender(s: Bytes): (r: Message)
      ensures r.sender == s
      ensures r.kind == kind && r.content == content && r.roomId == roomId
    {
      this.(sender := s)
    }

    function SetContent(c: Bytes): (r: Message)
      ensures r.content == c
      ensures r.kind == kind && r.sender == sender && r.roomId == roomId
    {
      this.(content := c)
    }

    function SetRoomId(id: Bytes): (r: Message)
      ensures r.roomId == id
      ensures r.kind == kind && r.sender == sender && r.content == content
    {
      this.(roomId := id)
    }

    predicate Is(k: MessageType)
    {
      kind == Ordinal(k)
    }
  }

  /** Message(): a chat message with every text field empty. */
  function DefaultMessage(): (m: Message)
    ensures m.Is(ChatMsg) && m.sender == [] && m.content == [] && m.roomId == []
  {
    Message(Ordinal(ChatMsg), [], [], [])
  }

  /** Message(type, content): no sender and no room. */
  function Message2(k: MessageType, content: Bytes): (m: Message)
    ensures m.Is(k) && m.content == content && m.sender == [] && m.roomId == []
  {
    Message(Ordinal(k), [], content, [])
  }

  /** Message(type, sender, content): no room. */
  function Message3(k: MessageType, sender: Bytes, content: Bytes): (m: Message)
    ensures m.Is(k) && m.sender == sender && m.content == content && m.roomId == []
  {
    Message(Ordinal(k), sender, content, [])
  }

  function Message4(k: MessageType, sender: Bytes, content: Bytes, roomId: Bytes): (m: Message)
    ensures m.Is(k) && m.sender == sender && m.content == content && m.roomId == roomId
  {
    Message(Ordinal(k), sender, content, roomId)
  }

  // ---------------------------------------------------------------------
  // escapeSpecialChars / unescapeSpecialChars
  // ---------------------------------------------------------------------

  /** Find ':' from pos, replace it by the placeholder pair, resume after
      the pair, until no ':' remains. */
  method EscapeSpecialChars(str: Bytes) returns (result: Bytes)
    ensures result == Escape(str)
  {
    result := str;
    var pos: nat := 0;
    ghost var k: nat := 0;   // how much of str the escaped prefix covers
    while true
      invariant pos <= |result| && k <= |str|
      invariant result[..pos] == Escape(str[..k]) && result[pos..] == str[k..]
      decreases |result| - pos + 2 * (|str| - k)
    {
      var found := Find(result, Colon, pos);
      if found == -1 {
        break;
      }
      EscapeStep(str, k, result, pos, found);
      k := k + (found - pos) + 1;
      result := result[..found] + [PlaceholderLead, PlaceholderTrail] + result[found + 1..];
      pos := found + 2;
    }
    EscapeRest(str, k, result, pos);
  }

  /** Find the placeholder pair from pos, replace it by ':', resume after
      the ':', until no pair remains. */
  method UnescapeSpecialChars(str: Bytes) returns (result: Bytes)
    ensures result == Unescape(str)
  {
    result := str;
    var pos: nat := 0;
    while true
      invariant pos <= |result|
      invariant result[..pos] + Unescape(result[pos..]) == Unescape(str)
      decreases |result| - pos
    {
      var found := FindPlaceholder(result, pos);
      if found == -1 {
        break;
      }
      UnescapeStep(result, pos, found);
      result := result[..found] + [Colon] + result[found + 2..];
      pos := found + 1;
    }
    UnescapeRest(result, pos);
  }

  // ---------------------------------------------------------------------
  // serialize / deserialize
  // ---------------------------------------------------------------------

  /** The line serialize writes. The result always ends in one newline and
      splits, without it, into exactly four fields: the ordinal and the
      three escaped text fields, the room id even when it is empty. */
  function Serialize(m: Message): (wire: Bytes)
    ensures |wire| >= 1 && wire[|wire| - 1] == Newline
    ensures Split(wire[..|wire| - 1])
         == [Decimal(m.kind), Escape(m.sender), Escape(m.content), Escape(m.roomId)]
  {
    var line := Join4(Decimal(m.kind), Escape(m.sender), Escape(m.content), Escape(m.roomId));
    DecimalHasNoColon(m.kind);
    EscapeShape(m.sender);
    EscapeShape(m.content);
    EscapeShape(m.roomId);
    SplitJoin4(Decimal(m.kind), Escape(m.sender), Escape(m.content), Escape(m.roomId));
    assert (line + [Newline])[..|line|] == line;
    line + [Newline]
  }

  /** Four fields joined by ':'. */
  function Join4(a: Bytes, b: Bytes, c: Bytes, d: Bytes): Bytes
  {
    a + [Colon] + (b + [Colon] + (c + [Colon] + d))
  }

  lemma SplitJoin4(a: Bytes, b: Bytes, c: Bytes, d: Bytes)
    requires Colon !in a && Colon !in b && Colon !in c && Colon !in d
    ensures Split(Join4(a, b, c, d)) == [a, b, c, d]
  {
    var r2 := c + [Colon] + d;
    var r1 := b + [Colon] + r2;
    SplitLast(d);
    SplitCons(c, d);
    assert Split(r2) == [c, d];
    SplitCons(b, r2);
    assert Split(r1) == [b, c, d];
    SplitCons(a, r1);
  }

  /** Message::deserialize: getline up to ':' four times; the first field
      goes through std::stoi and an unchecked cast, the others are
      unescaped; a field the line does not have stays empty. */
  function Deserialize(data: Bytes): (r: Result<Message, ConversionError>)
    ensures r.Ok? <==> Stoi(Split(data)[0]).Ok?
    ensures r.Ok? ==> Stoi(Split(data)[0]) == Ok(r.value.kind)
    ensures r.Ok? && |Split(data)| < 2 ==> r.value.sender == []
    ensures r.Ok? && |Split(data)| < 3 ==> r.value.content == []
    ensures r.Ok? && |Split(data)| < 4 ==> r.value.roomId == []
  {
    var fields := Split(data);
    match Stoi(fields[0])
    case Err(e) => Err(e)
    case Ok(n) =>
      Ok(Message(n, Unescape(Field(fields, 1)), Unescape(Field(fields, 2)), Unescape(Field(fields, 3))))
  }

  /** A type field that is empty or not a number makes deserialize throw. */
  lemma NonNumericTypeThrows(data: Bytes)
    requires data == [] || data[0] == Colon || !(IsSpace(data[0]) || IsDigit(data[0]) || data[0] == Minus || data[0] == Plus)
    ensures Deserialize(data) == Err(InvalidArgument)
  {
    var f := Split(data)[0];
    if data != [] && data[0] == Colon {
      assert Find(data, Colon, 0) == 0;
      assert f == [];
    } else if data != [] {
      var i := Find(data, Colon, 0);
      assert f[0] == data[0];
    }
    StoiRejectsNonNumeric(f);
  }

  predicate WireSafe(m: Message)
  {
    NoPlaceholder(m.sender) && NoPlaceholder(m.content) && NoPlaceholder(m.roomId)
  }

  /** Reading back a serialized line, its newline removed, gives the same
      message, whatever its ordinal, when no field already holds the
      placeholder pair. */
  lemma {:induction false} RoundTrip(m: Message)
    requires WireSafe(m)
    ensures var wire := Serialize(m); Deserialize(wire[..|wire| - 1]) == Ok(m)
  {
    var wire := Serialize(m);
    var fields := Split(wire[..|wire| - 1]);
    StoiDecimal(m.kind);
    UnescapeEscape(m.sender);
    UnescapeEscape(m.content);
    UnescapeEscape(m.roomId);
    assert Field(fields, 1) == Escape(m.sender);
    assert Field(fields, 2) == Escape(m.content);
    assert Field(fields, 3) == Escape(m.roomId);
  }

  predicate SingleLine(m: Message)
  {
    Newline !in m.sender && Newline !in m.content && Newline !in m.roomId
  }

  /** What the peer's read loop hands to deserialize: async_read_until
      stops at or after the newline and std::getline takes the text before
      it. A message whose text fields hold no newline and no placeholder
      pair arrives intact, whatever bytes follow it in the buffer. */
  lemma {:induction false} ReceivedIntact(m: Message, rest: Bytes)
    requires WireSafe(m) && SingleLine(m)
    ensures Deserialize(Line(Serialize(m) + rest)) == Ok(m)
  {
    var wire := Serialize(m);
    var line := wire[..|wire| - 1];
    assert Newline !in line by {
      DecimalHasNoNewline(m.kind);
      EscapeKeepsAbsent(m.sender, Newline);
      EscapeKeepsAbsent(m.content, Newline);
      EscapeKeepsAbsent(m.roomId, Newline);
      assert line == Join4(Decimal(m.kind), Escape(m.sender), Escape(m.content), Escape(m.roomId));
    }
    assert wire + rest == line + [Newline] + rest;
    LineOfTerminated(line, rest);
    RoundTrip(m);
  }

  // ---------------------------------------------------------------------
  // utf8Length
  // ---------------------------------------------------------------------

  /** Counts the bytes whose top two bits are not 10. */
  method Utf8Length(str: Bytes) returns (length: nat)
    ensures length == NonContinuationCount(str)
    ensures length <= |str|
    ensures WellFramed(str) ==> length == CodePoints(str)
  {
    length := 0;
    for i := 0 to |str|
      invariant length + NonContinuationCount(str[i..]) == NonContinuationCount(str)
    {
      assert str[i..][1..] == str[i + 1..];
      if !IsContinuation(str[i]) {
        length := length + 1;
      }
    }
    if WellFramed(str) {
      NonContinuationCountIsCodePoints(str);
    }
  }
}
