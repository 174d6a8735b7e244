# Wagle chat server core, in Dafny

Wagle is a line-oriented TCP chat server written in C++ with Boost.Asio.
The repository holds two generations of the server, and this project
models the core of both:

* **The wire codec.** A message is one text line, `<kind>:<sender>:<content>[:<room id>]`,
  with the kind written as a decimal number. Every `:` inside a field is replaced
  by the two bytes `0xCB 0xB8` (U+02F8). The newer codec has four fields, escapes
  and unescapes every field, and reads the kind with `std::stoi`. The legacy codec
  has three fields and splits only at the first two colons. It restores colons
  with a loop of its own. Both count UTF-8 characters, each in its own way.
* **The chat room.** A set of members and a history of the last 100 messages.
  Broadcast stores a message and writes it to every member. In the newer room,
  join is refused when the room is full. The other members read the arrival
  notice, the newcomer reads the history without its own arrival notice, and
  everybody reads the new member count. Leave is ignored for a non-member and
  otherwise mirrors join. The legacy room rejects a taken name, replays the whole
  history, and leave always broadcasts.
* **The room registry.** The newer one files rooms under random 8-hex-digit ids
  and keeps a map from user names to the ids of the rooms they joined. It lists
  the public rooms and a user's rooms. The legacy one files rooms by name, always
  holds a "General" room, and refuses to delete that room or an occupied one.
* **The newer server's session.** A session waits for a CONNECT line. It refuses
  an empty name or a name in use, and puts an accepted user in a fresh public room
  called "General". It then hands each line to the chat handler or the
  room-command handler (create, join, leave, list). On a read error it runs the
  disconnection cleanup. The process-wide set of names in use is a class of its own.

State that the C++ updates in place is modelled as Dafny classes whose methods
modify those fields: the rooms, the registries, the session and the set of
active names. Messages, the codec and the text functions are values and pure
functions. What is written to sockets is an *outbox*, a map from each user to
the sequence of messages written to it. A method returns the new outbox, so
every contract says exactly who reads what, in which order. A random draw
(eight hex digits) and the clock are parameters. So is the line a read
produces, or its failure. An exception that escapes a handler, and the null
dereference in the disconnection cleanup, put the session in the phase
`Aborted`, and the model says nothing about what follows. In the server, such
an exception leaves `io_context.run()` on a thread that has no handler for it,
so `std::terminate` ends the whole process and every session with it. The null
dereference is undefined behaviour.

## Model

| member | source | states |
|---|---|---|
| WagleMessage.OrdinalIsPosition | Wagle/include/protocol/message.h:8-23 | the fourteen kinds are numbered 0..13 in declaration order, and each number names exactly one kind |
| WagleMessage.KindOf | Wagle/include/protocol/message.h:8-23 | a number names a kind exactly when it is in 0..13, and then it is that kind's ordinal |
| WagleMessage.KindOfOrdinal | Wagle/include/protocol/message.h:8-23 | reading back a kind's ordinal gives the kind |
| WagleMessage.DefaultMessage | Wagle/include/protocol/message.h:28 | a default message is a CHAT_MSG with all text fields empty |
| WagleMessage.Message2 | Wagle/src/common/message.cpp:9-10 | the two-argument message has the given kind and content, and no sender or room id |
| WagleMessage.Message3 | Wagle/src/common/message.cpp:12-14 | the three-argument message has the given kind, sender and content, and no room id |
| WagleMessage.Message4 | Wagle/src/common/message.cpp:16-18 | the four-argument message carries all four given fields |
| WagleMessage.SetType | Wagle/include/protocol/message.h:55 | setting the kind changes the kind and no other field |
| WagleMessage.SetSender | Wagle/include/protocol/message.h:56 | setting the sender changes the sender and no other field |
| WagleMessage.SetContent | Wagle/include/protocol/message.h:57 | setting the content changes the content and no other field |
| WagleMessage.SetRoomId | Wagle/include/protocol/message.h:58 | setting the room id changes the room id and no other field |
| WagleMessage.EscapeSpecialChars | Wagle/src/common/message.cpp:36-47 | the find-and-replace loop computes the colon escaping of its input |
| WagleMessage.UnescapeSpecialChars | Wagle/src/common/message.cpp:50-61 | the loop replaces each placeholder pair, left to right and without overlap, by a colon |
| WagleMessage.Serialize | Wagle/src/common/message.cpp:20-33 | the wire form ends in a newline, and the line before it splits at its colons into exactly four fields: the decimal kind and the three escaped text fields |
| WagleMessage.SplitJoin4 | Wagle/src/common/message.cpp:29-30 | four colon-free fields joined with colons split back into those four fields |
| WagleMessage.Deserialize | Wagle/src/common/message.cpp:63-86 | parsing fails exactly when std::stoi rejects the first field, the kind is that field's value, and each missing field is left empty |
| WagleMessage.NonNumericTypeThrows | Wagle/src/common/message.cpp:69-70 | a line that is empty or whose first byte cannot start a number is refused with invalid_argument |
| WagleMessage.RoundTrip | Wagle/src/common/message.cpp:20-86 | deserializing the serialized line (without its newline) gives back the message, whatever its kind number, when no text field already holds the placeholder pair |
| WagleMessage.ReceivedIntact | Wagle/src/server/socket_manager.cpp:105-113 | a serialized message read with getline from a stream holding it and any bytes after it decodes to the message, when no field holds a newline |
| WagleMessage.Utf8Length | Wagle/src/common/message.cpp:88-96 | the count is the number of bytes that are not continuation bytes; it never exceeds the byte length and is the number of code points of well-formed UTF-8 |
| Text.EscapeShape | Wagle/src/common/message.cpp:36-47 | escaping leaves no colon and grows the text by one byte per colon |
| Text.EscapeColonFree | Wagle/src/common/message.cpp:36-47 | text without a colon is left unchanged |
| Text.EscapeAppend | Wagle/src/common/message.cpp:36-47 | escaping distributes over concatenation |
| Text.EscapeKeepsAbsent | Wagle/src/common/message.cpp:36-47 | escaping introduces no byte other than the placeholder pair |
| Text.UnescapeEscape | Wagle/src/common/message.cpp:36-61 | unescaping undoes escaping on text that does not already hold the placeholder pair |
| Text.PlaceholderReadsBackAsColon | Wagle/src/common/message.cpp:36-61 | a literal U+02F8 and a colon have the same wire form, so the literal is read back as a colon |
| Text.Find | Wagle/src/common/message.cpp:41 | the search returns the first position at or after the start that holds the byte, or -1 when there is none |
| Text.FindPlaceholder | Wagle/src/common/message.cpp:55 | the search returns the first position at or after the start where the placeholder pair begins, or -1 when there is none |
| Text.Line | Wagle/src/server/socket_manager.cpp:109-111 | getline yields the longest newline-free prefix, and stops at a newline when it stops early |
| Text.LineOfTerminated | Wagle/src/server/socket_manager.cpp:109-111 | the line read from a newline-terminated text is the text before the newline, whatever follows |
| Text.SplitLast | Wagle/src/common/message.cpp:69-83 | colon-free text is a single field |
| Text.SplitCons | Wagle/src/common/message.cpp:69-83 | text before the first colon is the first field, and the rest splits on its own |
| Text.StoiDecimal | Wagle/src/common/message.cpp:70 | std::stoi reads back the decimal form of every int |
| Text.StoiNat | Wagle/src/common/chat_room.cpp:131-132 | std::stoi reads back std::to_string of a count below 2^31 and reports out_of_range for larger ones |
| Text.StoiRejectsNonNumeric | Wagle/src/common/message.cpp:70 | std::stoi throws invalid_argument on text that is empty or whose first byte cannot start a number |
| Text.DecimalHasNoColon | Wagle/src/common/message.cpp:28-29 | the decimal kind never holds a colon |
| Text.DecimalHasNoNewline | Wagle/src/server/socket_manager.cpp:255-256 | a decimal count never holds a newline |
| Text.BelowIrreflexive | src/common/chat_room_manager.cpp:40 | the byte-wise order of std::string keys is irreflexive |
| Text.BelowTransitive | src/common/chat_room_manager.cpp:40 | the byte-wise order of std::string keys is transitive |
| Text.BelowTotal | src/common/chat_room_manager.cpp:40 | any two distinct keys are ordered one way or the other |
| Text.LeastExists | src/common/chat_room_manager.cpp:40 | every non-empty set of keys has a least key |
| Text.LeastUnique | src/common/chat_room_manager.cpp:40 | the least key is unique |
| Text.Ascending | src/common/chat_room_manager.cpp:40 | the iteration order of a key set lists each key exactly once |
| Text.AscendingIsSorted | src/common/chat_room_manager.cpp:40 | the iteration order is strictly ascending |
| Text.AscendingDistinct | src/common/chat_room_manager.cpp:40 | no key appears twice in the iteration order |
| Utf8.NonContinuationCountIsCodePoints | Wagle/src/common/message.cpp:88-96 | on well-formed UTF-8, counting the bytes that are not continuation bytes counts the code points |
| Utf8.NonContinuationCountAppend | Wagle/src/common/message.cpp:88-96 | the count of a concatenation is the sum of the counts |
| LegacyMessage.OrdinalIsPosition | include/protocol/message.h:8-14 | the five legacy kinds are numbered 0..4 in declaration order, and each number names exactly one kind |
| LegacyMessage.KindOf | include/protocol/message.h:8-14 | a number names a legacy kind exactly when it is in 0..4, and then it is that kind's ordinal |
| LegacyMessage.KindOfOrdinal | include/protocol/message.h:8-14 | reading back a legacy kind's ordinal gives the kind |
| LegacyMessage.DefaultMessage | include/protocol/message.h:19 | a default legacy message is a CHAT_MSG with empty sender and content |
| LegacyMessage.Message2 | src/common/message.cpp:8-9 | the two-argument legacy message has the given kind and content and no sender |
| LegacyMessage.Message3 | src/common/message.cpp:11-13 | the three-argument legacy message carries the given kind, sender and content |
| LegacyMessage.Encode | src/common/message.cpp:19-37 | the legacy wire form ends in a newline, and the line before it splits at its colons into exactly the decimal kind and the escaped sender and content |
| LegacyMessage.Serialize | src/common/message.cpp:19-37 | the two escaping loops and the stream output produce the legacy wire form |
| LegacyMessage.EncodeFields | src/common/message.cpp:34-35 | the wire line is the kind, a colon, the escaped sender, a colon, the escaped content and a newline |
| LegacyMessage.SplitJoin3 | src/common/message.cpp:35 | three colon-free fields joined with colons split back into those three fields |
| LegacyMessage.Decode | src/common/message.cpp:39-85 | a first line without a colon gives the default message; with a colon, decoding fails exactly when std::stoi rejects the kind before the first colon, and with std::stoi's error |
| LegacyMessage.NonNumericKindThrows | src/common/message.cpp:47-53 | a first line holding a colon whose kind field is empty or starts with a byte that cannot start a number is refused with invalid_argument |
| LegacyMessage.RestoreColons | src/common/message.cpp:60-64 | the in-place restoring loop replaces each placeholder pair, left to right, by a colon |
| LegacyMessage.Deserialize | src/common/message.cpp:39-85 | the parsing code computes the decoding of the data's first line |
| LegacyMessage.NoColonIsDefault | src/common/message.cpp:47-50 | a first line without a colon decodes to the default message |
| LegacyMessage.SingleColonIsContent | src/common/message.cpp:56-66 | with a single colon after a number, the sender is empty and the rest of the line, colons restored, is the content |
| LegacyMessage.ContentKeepsLaterColons | src/common/message.cpp:56-84 | after the second colon everything, further colons included, is the content |
| LegacyMessage.DecodeEncode | src/common/message.cpp:19-85 | decoding an encoded legacy message, followed by any bytes, gives the message back, when its sender and content hold no placeholder pair and no newline |
| LegacyMessage.Stride | src/common/message.cpp:89-106 | each step advances one to four bytes, and by the sequence length a valid lead byte announces |
| LegacyMessage.StrideCount | src/common/message.cpp:87-110 | the number of steps never exceeds the byte length, and is at least one for non-empty text |
| LegacyMessage.Utf8Length | src/common/message.cpp:87-110 | the stride loop counts the strides it takes to walk off the text, and that is the number of code points of well-formed UTF-8 |
| LegacyMessage.StrideCountIsCodePoints | src/common/message.cpp:87-110 | on well-formed UTF-8, the stride count is the number of code points |
| LegacyMessage.CountsDifferOnTruncatedCharacter | src/common/message.cpp:87-110 | on a truncated three-byte sequence followed by 'A', the legacy count is 1 where the newer count is 2 |
| WagleRoom.JoinNotice | Wagle/src/common/chat_room.cpp:33-35 | the arrival notice is a CONNECT from SERVER tagged with the room id |
| WagleRoom.LeaveNotice | Wagle/src/common/chat_room.cpp:94-96 | the departure notice is a DISCONNECT from SERVER tagged with the room id |
| WagleRoom.UserCountNotice | Wagle/src/common/chat_room.cpp:131-133 | the count notice is a USER_COUNT from SERVER tagged with the room id |
| WagleRoom.UserCountReadsBack | Wagle/src/common/chat_room.cpp:131-132 | a client reading the count notice with std::stoi gets the member count back, below 2^31 |
| WagleRoom.Replay | Wagle/src/common/chat_room.cpp:62-74 | the replay is never longer than the history |
| WagleRoom.ReplayMembers | Wagle/src/common/chat_room.cpp:62-74 | a message is replayed exactly when it is in the history and is not a CONNECT with the joiner's own arrival text |
| WagleRoom.ReplayOmitsOwnArrival | Wagle/src/common/chat_room.cpp:62-74 | the joiner never reads its own arrival notice in the replay |
| WagleRoom.ReplayAppend | Wagle/src/common/chat_room.cpp:62-74 | the replay of a concatenation is the concatenation of the replays |
| WagleRoom.JoinWritesInboxes | Wagle/src/common/chat_room.cpp:21-79 | after a join the newcomer has read the replay and the new count, every other member the arrival notice and the count, and nobody else anything |
| WagleRoom.LeaveWritesInboxes | Wagle/src/common/chat_room.cpp:81-101 | after a leave every remaining member has read the departure notice and the new count, and nobody else anything |
| WagleRoom.AddRespectsCap | Wagle/src/common/chat_room.cpp:24-30 | join adds only when a positive cap is not reached, so a join that starts below a positive cap ends within it |
| WagleRoom.ChatRoom.constructor | Wagle/src/common/chat_room.cpp:13-19 | a new room has the given id, name and privacy, no cap, the given creation time, no members and no history |
| WagleRoom.ChatRoom.UserCount | Wagle/include/chat/chat_room.h:36 | the count is the number of members |
| WagleRoom.ChatRoom.SetMaxUsers | Wagle/include/chat/chat_room.h:39 | the cap becomes the given value |
| WagleRoom.ChatRoom.SetPrivate | Wagle/include/chat/chat_room.h:40 | the privacy flag becomes the given value |
| WagleRoom.ChatRoom.Broadcast | Wagle/src/common/chat_room.cpp:103-125 | the message joins the history, trimmed to the last 100, and every member reads it once |
| WagleRoom.ChatRoom.BroadcastUserCount | Wagle/src/common/chat_room.cpp:127-146 | every member reads the current member count |
| WagleRoom.ChatRoom.Join | Wagle/src/common/chat_room.cpp:21-79 | a full room throws "Chat room is full" and changes nothing; otherwise the user becomes a member, the arrival notice joins the trimmed history, and the join writes go out |
| WagleRoom.ChatRoom.Leave | Wagle/src/common/chat_room.cpp:81-101 | a non-member's leave changes nothing and writes nothing; otherwise the user is removed, the departure notice joins the trimmed history, and the leave writes go out; so a second leave is a no-op |
| WagleRoom.ReplayTo | Wagle/src/common/chat_room.cpp:60-75 | the replay loop writes the history without the joiner's own arrival notices to the joiner, in order |
| Delivery.Send | Wagle/src/server/socket_manager.cpp:244-245 | a write to one user appends to that user's inbox only |
| Delivery.SendSeq | Wagle/src/common/chat_room.cpp:62-74 | writing several messages to one user appends them in order to that user's inbox only |
| Delivery.SendAll | Wagle/src/common/chat_room.cpp:114-124 | a broadcast appends the message once to each recipient's inbox and to no other |
| Delivery.TwoBroadcastsInboxes | Wagle/src/common/chat_room.cpp:97-100 | two broadcasts to the same members append both messages, in order, to each member only |
| Delivery.GreetInboxes | Wagle/src/common/chat_room.cpp:37-78 | notice to the others, messages to the newcomer, then a broadcast to all: each party reads its part in order |
| Delivery.Deliver | Wagle/src/common/chat_room.cpp:114-124 | the write loop over the members performs the broadcast |
| Delivery.Recent | Wagle/include/chat/chat_room.h:54 | the kept history is the last min(n, 100) messages of the log |
| Delivery.RecentAppend | Wagle/src/common/chat_room.cpp:107-112 | trimming after every append keeps the same history as trimming the whole log once |
| Delivery.Append | Wagle/src/common/chat_room.cpp:107-112 | push_back followed by the pop_front loop keeps the last 100 messages of the old history and the new message |
| LegacyRoom.JoinNotice | src/common/chat_room.cpp:22-23 | the legacy arrival notice is a CONNECT from SERVER |
| LegacyRoom.LeaveNotice | src/common/chat_room.cpp:38-39 | the legacy departure notice is a DISCONNECT from SERVER |
| LegacyRoom.RejectNotice | src/common/chat_room.cpp:11-12 | the rejection is a message of the rejection kind from SERVER |
| LegacyRoom.ChatRoom.constructor | chat_room.h:27-30 | a new legacy room has no members and no history |
| LegacyRoom.ChatRoom.UserCount | src/common/chat_room_manager.cpp:42 | the count is the number of members |
| LegacyRoom.ChatRoom.Broadcast | src/common/chat_room.cpp:43-63 | the message joins the history, trimmed to the last 100, and every member reads it once |
| LegacyRoom.ChatRoom.Join | src/common/chat_room.cpp:8-31 | a taken name is rejected to the user alone and changes nothing; otherwise the user becomes a member, everybody including the user reads the arrival notice, and the user then reads the whole trimmed history |
| LegacyRoom.ChatRoom.Leave | src/common/chat_room.cpp:33-41 | the user is removed and the departure notice goes to the remaining members and into the history, member or not |
| LegacyRoom.SendHistory | src/common/chat_room.cpp:27-30 | the history loop writes each kept message to the joiner, in order |
| LegacyRoom.JoinerReadsOwnArrivalTwice | src/common/chat_room.cpp:19-30 | a legacy joiner reads its own arrival notice twice: once broadcast and once as the last replayed message |
| WagleRegistry.HexDigits | Wagle/src/common/chat_room_manager.cpp:13-19 | each draw becomes the lower-case hex digit it names, in order |
| WagleRegistry.RoomIdOf | Wagle/src/common/chat_room_manager.cpp:9-21 | a generated id is eight lower-case hex digits |
| WagleRegistry.RoomIdOfInjective | Wagle/src/common/chat_room_manager.cpp:9-21 | distinct draws give distinct ids |
| WagleRegistry.GenerateRoomId | Wagle/src/common/chat_room_manager.cpp:9-21 | the id loop spells the draws |
| WagleRegistry.Unlink | Wagle/src/common/chat_room_manager.cpp:103-112 | only the user's link to the room goes; other users keep theirs; no user is left with an empty entry |
| WagleRegistry.RoomManager.constructor | Wagle/include/chat/chat_room_manager.h:32-34 | a new registry files no rooms and no links |
| WagleRegistry.RoomManager.CreateRoom | Wagle/src/common/chat_room_manager.cpp:23-31 | a fresh room with the generated id, the given name and privacy, and no members, is filed under its id, replacing what was there |
| WagleRegistry.RoomManager.DeleteRoom | Wagle/src/common/chat_room_manager.cpp:33-36 | the room is unfiled, and the answer says whether it was filed |
| WagleRegistry.RoomManager.GetRoom | Wagle/src/common/chat_room_manager.cpp:38-42 | the room filed under the id, if any; it carries that id |
| WagleRegistry.RoomManager.PublicAmongSnoc | Wagle/src/common/chat_room_manager.cpp:48-52 | one more id adds its room to the list exactly when the room is public |
| WagleRegistry.RoomManager.FiledAmongSnoc | Wagle/src/common/chat_room_manager.cpp:69-73 | one more id adds its room to the list exactly when it is still filed |
| WagleRegistry.RoomManager.GetPublicRooms | Wagle/src/common/chat_room_manager.cpp:44-55 | the loop lists the public rooms in the key iteration order |
| WagleRegistry.RoomManager.GetUserRooms | Wagle/src/common/chat_room_manager.cpp:57-78 | the loop lists the still-filed rooms among the user's linked ids, and nothing for an unknown user |
| WagleRegistry.RoomManager.AddUserToRoom | Wagle/src/common/chat_room_manager.cpp:80-94 | an unknown id answers false and changes nothing; otherwise the user is linked to the room before join, so a full room throws with the link recorded, and a successful join answers true |
| WagleRegistry.RoomManager.RemoveUserFromRoom | Wagle/src/common/chat_room_manager.cpp:96-116 | an unknown id answers false and changes nothing; otherwise the link is dropped, the user leaves the room, and the answer is true |
| WagleRegistry.PublicAmongExact | Wagle/src/common/chat_room_manager.cpp:44-55 | a room is in the list exactly when it is filed under one of the ids and is public |
| WagleRegistry.PublicRoomsListed | Wagle/src/common/chat_room_manager.cpp:44-55 | the public-room list holds exactly the filed public rooms |
| LegacyRegistry.RoomManager.constructor | src/common/chat_room_manager.cpp:7-10 | a new legacy registry holds exactly one room, an empty "General" |
| LegacyRegistry.RoomManager.CreateRoom | src/common/chat_room_manager.cpp:12-23 | creation succeeds exactly for a non-empty new name, adds an empty room under it and keeps every other room |
| LegacyRegistry.RoomManager.GetRoom | src/common/chat_room_manager.cpp:25-34 | the room filed under the name, if any |
| LegacyRegistry.RoomManager.Infos | src/common/chat_room_manager.cpp:40-43 | each row carries its room's name and member count, and is the default row exactly for "General" |
| LegacyRegistry.RoomManager.InfosSnoc | src/common/chat_room_manager.cpp:40-43 | one more name adds its row at the end |
| LegacyRegistry.RoomManager.GetRoomList | src/common/chat_room_manager.cpp:36-46 | the loop lists one row per room in the map's key order |
| LegacyRegistry.RoomManager.DeleteRoom | src/common/chat_room_manager.cpp:48-68 | deletion succeeds exactly for an existing, empty room other than "General", and only then removes it |
| LegacyRegistry.RoomManager.RoomExists | src/common/chat_room_manager.cpp:70-73 | the answer is whether a room is filed under the name |
| LegacyRegistry.RoomListNamesRooms | src/common/chat_room_manager.cpp:36-46 | a name is in the room list exactly when a room is filed under it |
| LegacyRegistry.RoomListSorted | src/common/chat_room_manager.cpp:36-46 | the room list is in strictly ascending name order |
| LegacyRegistry.RoomListOneDefault | src/common/chat_room_manager.cpp:36-46 | the room list holds exactly one default row, and it is "General" |
| WagleSession.UsernameRefusal | Wagle/src/server/socket_manager.cpp:135-136 | the refusal is a USERNAME_ERROR from SERVER carrying the reason |
| WagleSession.Confirmation | Wagle/src/server/socket_manager.cpp:151-152 | the confirmation is a CONNECT from SERVER |
| WagleSession.CreatedReply | Wagle/src/server/socket_manager.cpp:242-243 | the creation reply is a ROOM_CREATE from SERVER tagged with the new room's id |
| WagleSession.JoinedReply | Wagle/src/server/socket_manager.cpp:267-271 | the join reply is a ROOM_JOIN from SERVER tagged with the room's id |
| WagleSession.LeftReply | Wagle/src/server/socket_manager.cpp:285-289 | the leave reply is a ROOM_LEAVE from SERVER tagged with the room's id |
| WagleSession.JoinFailedReply | Wagle/src/server/socket_manager.cpp:275-276 | the failure reply is a ROOM_ERROR from SERVER |
| WagleSession.ListReply | Wagle/src/server/socket_manager.cpp:304 | the list reply is a ROOM_LIST from SERVER carrying the list text |
| WagleSession.RoomChat | Wagle/src/server/socket_manager.cpp:318-319 | a chat line becomes a ROOM_MESSAGE whose sender is the session's user, whatever sender the client wrote |
| WagleSession.Screen | Wagle/src/server/socket_manager.cpp:108-146 | a read error is lost, an unparsable kind throws, only CONNECT is considered, and a name is accepted exactly when it is non-empty and not in use, else refused with the matching reason |
| WagleSession.ConnectScreening | Wagle/src/server/socket_manager.cpp:113-132 | a client sending CONNECT under a name gets in exactly when the name is non-empty and not in use |
| WagleSession.NoSecondAcceptance | Wagle/src/server/socket_manager.cpp:124-131 | once a name is accepted, no later login is accepted under it |
| WagleSession.ListText | Wagle/src/server/socket_manager.cpp:298-303 | the list text is empty exactly when there are no public rooms |
| WagleSession.RoomListText | Wagle/src/server/socket_manager.cpp:298-303 | the loop builds one `<name> (<count> users)` line per room, in order |
| WagleSession.NewlineCountAppend | Wagle/src/server/socket_manager.cpp:298-303 | newlines in a concatenation add up |
| WagleSession.EntryHasOneNewline | Wagle/src/server/socket_manager.cpp:301-302 | an entry for a newline-free name is exactly one line |
| WagleSession.ListTextLines | Wagle/src/server/socket_manager.cpp:298-303 | when no room name holds a newline, the list text has one line per room |
| WagleSession.FreshRoomGreeting | Wagle/src/common/chat_room.cpp:62-78 | the first member of a new room reads only the count 1, not its own arrival, and nobody else reads anything |
| WagleSession.AcceptedGreeting | Wagle/src/server/socket_manager.cpp:151-166 | an accepted user reads the confirmation and then the count 1 of its new room |
| WagleSession.EmptyIdNamesNoRoom | Wagle/src/server/socket_manager.cpp:228-229 | the empty id names no room, so the cleanup after ROOM_LEAVE looks up nothing |
| WagleSession.OpenRoom | Wagle/src/server/socket_manager.cpp:162-166 | a fresh public room under the generated id is filed, holding the user alone, with its arrival as the history, and linked to the user |
| WagleSession.ActiveUsernames.constructor | Wagle/src/server/socket_manager.cpp:19 | no name is in use at start |
| WagleSession.Session.Handle | Wagle/src/server/socket_manager.cpp:158-159 | the session's user carries the connection and the accepted name |
| WagleSession.Session.constructor | Wagle/src/server/socket_manager.cpp:92-97 | a new session awaits a name, with no name and no current room |
| WagleSession.Session.ReadUsername | Wagle/src/server/socket_manager.cpp:103-181 | per screening outcome: a lost read or another kind stops reading and changes nothing; an unparsable kind aborts; a refusal records the name, writes the reason and reads again; an acceptance registers the name, confirms it, and files the user alone in a fresh public "General" room that becomes current |
| WagleSession.Session.Admit | Wagle/src/server/socket_manager.cpp:124-172 | the name is in use, the session is active, and a fresh public "General" room holding only the user is filed under the drawn id and is current; the user reads the confirmation and then the join writes |
| WagleSession.Session.HandleChatMessage | Wagle/src/server/socket_manager.cpp:316-325 | without a filed current room nothing happens; otherwise every member of the current room reads the chat line, sent under the session's name, and it joins the room's trimmed history |
| WagleSession.Session.CreateAndEnter | Wagle/src/server/socket_manager.cpp:237-262 | a fresh public room holding only the user is filed and is current, without leaving the old room; the user reads the join writes, the creation reply, the join reply, and the list of public rooms including the new one |
| WagleSession.Session.Enter | Wagle/src/server/socket_manager.cpp:264-281 | an unknown id is answered with ROOM_ERROR and changes nothing; a full room aborts the session after the link is recorded; otherwise the user joins, the room becomes current and the join reply follows the join writes |
| WagleSession.Session.LeaveCurrentRoom | Wagle/src/server/socket_manager.cpp:283-295 | an unfiled current room changes nothing; otherwise the user leaves it and is unlinked, reads the leave reply, and has no current room |
| WagleSession.Session.SendRoomList | Wagle/src/server/socket_manager.cpp:297-308 | the user alone reads the list of public rooms |
| WagleSession.Session.HandleRoomCommand | Wagle/src/server/socket_manager.cpp:235-313 | only ROOM_JOIN can abort; ROOM_DELETE, ROOM_INFO and other kinds write nothing and change no room, link or current room; ROOM_CREATE makes the drawn id current; ROOM_LIST sends the list |
| WagleSession.Session.Disconnect | Wagle/src/server/socket_manager.cpp:215-230 | the name is released; a filed current room is left, with its departure writes, and the session closes; an empty or unfiled current room aborts on the null room |
| WagleSession.Session.ReadMessage | Wagle/src/server/socket_manager.cpp:184-232 | a read error runs the cleanup, with Disconnect's outcome stated in full (phase, released name, unlink, leave and departure writes); an unparsable kind aborts and changes nothing; otherwise the session stays active unless a ROOM_JOIN aborted it, and unhandled kinds change nothing |
| WagleSession.Session.Dispatch | Wagle/src/server/socket_manager.cpp:194-214 | only ROOM_JOIN can abort; unhandled kinds change nothing; a chat line reaches every member of the current room; ROOM_LIST sends the list |

## Left out

- Sockets, Boost.Asio and asynchronous completion: a read is a parameter holding the line or a read error. Every write is modelled as succeeding. The newer room's writes catch and log their failures. The asynchronous writes in readUsername are assumed to complete without error.
- Write failures that would throw are treated as successes. These are the replies in `handleRoomCommand` (Wagle/src/server/socket_manager.cpp:244, 249, 259, 272, 277, 290, 305), and the legacy `ChatRoom::join` writes (the rejection at src/common/chat_room.cpp:13-14 and the history replay at 28-29). None of them is guarded: a failed write throws out of the handler, and by the convention above that would be `Aborted`.
- Locks and threads: every mutex is left out and each operation is atomic. Interleavings between sessions are not modelled.
- The order of `std::unordered_map` iteration is unspecified. The newer registry's lists are modelled in ascending key order, which is one of the orders the source allows. The legacy registry uses `std::map`, whose order is the ascending order.
- Randomness and time: `generateRoomId`'s eight draws and `std::time` are parameters. Id collisions are possible, and then `createRoom` replaces the filed room, as the source does.
- Logging, the curses status window (`update_status_window`, `add_log_message`), connection counters, the accept loop, `server_main` and both clients are not part of this model.
- The `Session` completion chaining (calling `readUsername`/`readMessage` again) is expressed by the phase: `AwaitingName` and `Active` read again, `Dropped`, `Closed` and `Aborted` do not.
- An exception escaping an Asio handler, and the null dereference in the cleanup, are both modelled as the phase `Aborted` with a reason. The model does not capture what the server then does. The exception reaches `io_context.run()` on the thread started at Wagle/src/server/server_main.cpp:46, which has no handler, so `std::terminate` ends the process and every session. The null dereference at Wagle/src/server/socket_manager.cpp:228-229 is undefined behaviour.
- The legacy `ChatRoom::join` is declared `bool` in chat_room.h but `void` in include/chat/chat_room.h, and it falls off its end without a return on success. It is modelled as answering true. `isNameTaken` has no definition in the repository and is a boolean parameter. The rejection kind `REJECT_DUPLICATE_NAME` is not among the legacy kinds, so it is a parameter.
- LegacyRoom.ChatRoom.UserCount: the legacy registry calls `getUserCount()` (src/common/chat_room_manager.cpp:42, 59), but neither legacy `ChatRoom` header declares it (chat_room.h:11-31, include/chat/chat_room.h:12-32). The model assumes the newer room's definition (Wagle/include/chat/chat_room.h:36): the number of members.
- The legacy `utf8Length` (src/common/message.cpp:87) defines a member that the legacy header (include/protocol/message.h:17-38) does not declare. It is modelled as LegacyMessage.Utf8Length, as if the header declared it.
- The legacy four-argument `Message` constructor (src/common/message.cpp:15-17) names a field `room_name_` that the legacy header does not declare. It is not modelled.
- The legacy server's session (src/server/socket_manager.cpp) and the `User` class are not part of this model; a user is an id and a name.
- Integer widths: member counts and message kinds are unbounded, except where `std::stoi` reads a kind. There the 32-bit range is modelled, with `out_of_range` beyond it. `static_cast<MessageType>` of an out-of-range number keeps the number, because the kind field is an integer.
- Getters (`getId`, `getName`, `isPrivate`, `getMaxUsers`, `getCreatedTime`, `getRecentMessages`, `getType`, `getSender`, `getContent`, `getRoomId`) are modelled as field reads.
- WagleSession.Session.HandleRoomCommand: states the dispatch, which kinds can abort and which change nothing. The effects of create, join, leave and list are stated by CreateAndEnter, Enter, LeaveCurrentRoom and SendRoomList, whose contracts are complete.
- WagleSession.Session.Dispatch: states the dispatch-level outcome only; the room-command effects are in the handlers' contracts.
- WagleSession.Session.ReadMessage: states the read-error outcome (the same effects as Disconnect), the parse-error outcome and the unhandled-kind outcome in full. For handled kinds it states only the phase, and leaves the effects to Dispatch and the handlers.
- WagleRoom.ChatRoom.Join: its ensures does not restate the cap. Its full-room branch together with AddRespectsCap gives that a join starting below a positive cap ends within it. The membership can still exceed the cap, because `setMaxUsers` may lower the cap below the current member count, and the model, like the source, does not prevent that.
- LegacyMessage.Decode: its own ensures covers the colon-free case and, for a line with a colon, says that decoding fails exactly when std::stoi rejects the kind field, with std::stoi's error; NonNumericKindThrows names the invalid_argument inputs. The other cases are stated by lemmas: one colon by SingleColonIsContent, two or more by ContentKeepsLaterColons, and the round trip by DecodeEncode.
