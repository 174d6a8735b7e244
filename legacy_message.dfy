/**
 * The older wire codec: a Message is a kind ordinal, a sender and a
 * content, written as one line
 *   <ordinal>:<sender>:<content>\n
 * with every ':' inside sender and content replaced by 0xCB 0xB8. Unlike
 * the newer codec it has no room field, reads only the first line of its
 * input, and falls back to a default message instead of splitting a line
 * that has no ':' at all.
 */
module LegacyMessage {
  import opened Text
  import opened Utf8

  /** The five message kinds of this generation, in declaration order. */
  datatype MessageType = Connect | Disconnect | ChatMsg | UserList | UserCount

  const AllKinds: seq<MessageType> := [Connect, Disconnect, ChatMsg, UserList, UserCount]

  function Ordinal(k: MessageType): nat
  {
    match k
    case Connect => 0
    case Disconnect => 1
    case ChatMsg => 2
    case UserList => 3
    case UserCount => 4
  }

  lemma OrdinalIsPosition()
    ensures |AllKinds| == 5
    ensures forall i | 0 <= i < |AllKinds| :: Ordinal(AllKinds[i]) == i
    ensures forall k: MessageType :: Ordinal(k) < |AllKinds| && AllKinds[Ordinal(k)] == k
  {
    forall k: MessageType ensures Ordinal(k) < |AllKinds| && AllKinds[Ordinal(k)] == k {
      match k
      case Connect =>
      case Disconnect =>
      case ChatMsg =>
      case UserList =>
      case UserCount =>
    }
  }

  function KindOf(n: int): (r: Option<MessageType>)
    ensures r.Some? <==> 0 <= n < 5
    ensures r.Some? ==> Ordinal(r.value) == n
  {
    OrdinalIsPosition();
    if 0 <= n < |AllKinds| then Some(AllKinds[n]) else None
  }

  lemma KindOfOrdinal(k: MessageType)
    ensures KindOf(Ordinal(k)) == Some(k)
  {
    OrdinalIsPosition();
  }

  /** `kind` holds static_cast<MessageType>(stoi(...)), any int. */
  datatype Message = Message(kind: int32, sender: Bytes, content: Bytes)
  {
    predicate Is(k: MessageType)
    {
      kind == Ordinal(k)
    }
  }

  /** Message() = default: a chat message with empty sender and content. */
  function DefaultMessage(): (m: Message)
    ensures m.Is(ChatMsg) && m.sender == [] && m.content == []
  {
    Message(Ordinal(ChatMsg), [], [])
  }

  function Message2(k: MessageType, content: Bytes): (m: Message)
    ensures m.Is(k) && m.sender == [] && m.content == content
  {
    Message(Ordinal(k), [], content)
  }

  function Message3(k: MessageType, sender: Bytes, content: Bytes): (m: Message)
    ensures m.Is(k) && m.sender == sender && m.content == content
  {
    Message(Ordinal(k), sender, content)
  }

  // ---------------------------------------------------------------------
  // serialize
  // ---------------------------------------------------------------------

  function Join3(a: Bytes, b: Bytes, c: Bytes): Bytes
  {
    a + [Colon] + (b + [Colon] + c)
  }

  lemma SplitJoin3(a: Bytes, b: Bytes, c: Bytes)
    requires Colon !in a && Colon !in b && Colon !in c
    ensures Split(Join3(a, b, c)) == [a, b, c]
  {
    var r := b + [Colon] + c;
    SplitLast(c);
    SplitCons(b, c);
    assert Split(r) == [b, c];
    SplitCons(a, r);
  }

  /** The line serialize writes: one newline at the end, and before it
      exactly three ':'-separated fields, the ordinal and the escaped
      sender and content. */
  function Encode(m: Message): (wire: Bytes)
    ensures |wire| >= 1 && wire[|wire| - 1] == Newline
    ensures Split(wire[..|wire| - 1]) == [Decimal(m.kind), Escape(m.sender), Escape(m.content)]
  {
    var line := Join3(Decimal(m.kind), Escape(m.sender), Escape(m.content));
    DecimalHasNoColon(m.kind);
    EscapeShape(m.sender);
    EscapeShape(m.content);
    SplitJoin3(Decimal(m.kind), Escape(m.sender), Escape(m.content));
    assert (line + [Newline])[..|line|] == line;
    line + [Newline]
  }

  /** Message::serialize: the two find-and-replace loops over copies of
      sender and content, then the ordinal and both fields joined by ':'. */
  method Serialize(m: Message) returns (wire: Bytes)
    ensures wire == Encode(m)
  {
    var safeSender := m.sender;
    var pos: nat := 0;
    ghost var k: nat := 0;
    while true
      invariant pos <= |safeSender| && k <= |m.sender|
      invariant safeSender[..pos] == Escape(m.sender[..k]) && safeSender[pos..] == m.sender[k..]
      decreases |safeSender| - pos + 2 * (|m.sender| - k)
    {
      var found := Find(safeSender, Colon, pos);
      if found == -1 {
        break;
      }
      EscapeStep(m.sender, k, safeSender, pos, found);
      k := k + (found - pos) + 1;
      safeSender := safeSender[..found] + [PlaceholderLead, PlaceholderTrail] + safeSender[found + 1..];
      pos := found + 2;
    }
    EscapeRest(m.sender, k, safeSender, pos);

    var safeContent := m.content;
    pos := 0;
    k := 0;
    while true
      invariant pos <= |safeContent| && k <= |m.content|
      invariant safeContent[..pos] == Escape(m.content[..k]) && safeContent[pos..] == m.content[k..]
      decreases |safeContent| - pos + 2 * (|m.content| - k)
    {
      var found := Find(safeContent, Colon, pos);
      if found == -1 {
        break;
      }
      EscapeStep(m.content, k, safeContent, pos, found);
      k := k + (found - pos) + 1;
      safeContent := safeContent[..found] + [PlaceholderLead, PlaceholderTrail] + safeContent[found + 1..];
      pos := found + 2;
    }
    EscapeRest(m.content, k, safeContent, pos);

    wire := Decimal(m.kind) + [Colon] + safeSender + [Colon] + safeContent + [Newline];
    EncodeFields(m, safeSender, safeContent);
  }

  lemma EncodeFields(m: Message, sender: Bytes, content: Bytes)
    requires sender == Escape(m.sender) && content == Escape(m.content)
    ensures Encode(m) == Decimal(m.kind) + [Colon] + sender + [Colon] + content + [Newline]
  {
  }

  // ---------------------------------------------------------------------
  // deserialize
  // ---------------------------------------------------------------------

  /** Message::deserialize. Only the first line counts. A line without ':'
      (and input with no line at all) gives the default message. The text
      before the first ':' goes through std::stoi, which may throw. With a
      single ':' everything after it is the content and the sender stays
      empty; otherwise the sender runs to the second ':' and the content is
      the whole rest of the line, later colons included. */
  function Decode(data: Bytes): (r: Result<Message, ConversionError>)
    ensures Colon !in Line(data) ==> r == Ok(DefaultMessage())
    ensures r.Err? ==> Colon in Line(data)
    ensures var line := Line(data);
      Colon in line ==> (r.Err? <==> Stoi(line[..Find(line, Colon, 0)]).Err?)
    ensures var line := Line(data);
      r.Err? ==> Colon in line && r.error == Stoi(line[..Find(line, Colon, 0)]).error
  {
    if data == [] then Ok(DefaultMessage())
    else
      var line := Line(data);
      var first := Find(line, Colon, 0);
      if first == -1 then Ok(DefaultMessage())
      else
        match Stoi(line[..first])
        case Err(e) => Err(e)
        case Ok(n) =>
          var second := Find(line, Colon, first + 1);
          if second == -1 then Ok(Message(n, [], Unescape(line[first + 1..])))
          else Ok(Message(n, Unescape(line[first + 1..second]), Unescape(line[second + 1..])))
  }

  /** The restore loop run on each extracted field: walk the text once and
      replace each placeholder pair met at the cursor by ':'. */
  method RestoreColons(field: Bytes) returns (text: Bytes)
    ensures text == Unescape(field)
  {
    text := field;
    var i: nat := 0;
    while i < |text|
      invariant i <= |text|
      invariant text[..i] + Unescape(text[i..]) == Unescape(field)
      decreases |text| - i
    {
      RestoreStep(text, i);
      if text[i] == PlaceholderLead && i + 1 < |text| && text[i + 1] == PlaceholderTrail {
        text := text[..i] + [Colon] + text[i + 2..];
      }
      i := i + 1;
    }
  }

  method Deserialize(data: Bytes) returns (r: Result<Message, ConversionError>)
    ensures r == Decode(data)
  {
    if data == [] {
      return Ok(DefaultMessage());
    }
    var line := Line(data);
    var first := Find(line, Colon, 0);
    if first == -1 {
      return Ok(DefaultMessage());
    }
    var typeInt := Stoi(line[..first]);
    if typeInt.Err? {
      return Err(typeInt.error);
    }
    var second := Find(line, Colon, first + 1);
    if second == -1 {
      var content := RestoreColons(line[first + 1..]);
      return Ok(Message(typeInt.value, [], content));
    }
    var sender := RestoreColons(line[first + 1..second]);
    var content := RestoreColons(line[second + 1..]);
    r := Ok(Message(typeInt.value, sender, content));
  }

  // ---------------------------------------------------------------------
  // Properties of the codec
  // ---------------------------------------------------------------------

  predicate WireSafe(m: Message)
  {
    NoPlaceholder(m.sender) && NoPlaceholder(m.content)
    && Newline !in m.sender && Newline !in m.content
  }

  /** Colons in the content need not be escaped: when the first line is
      a:b:c with a number before the first ':', the sender is b and the
      content is all of c, however many ':' it holds. */
  lemma ContentKeepsLaterColons(data: Bytes, a: Bytes, b: Bytes, c: Bytes, n: int32)
    requires Line(data) == a + [Colon] + b + [Colon] + c
    requires Colon !in a && Colon !in b && Stoi(a) == Ok(n)
    ensures Decode(data) == Ok(Message(n, Unescape(b), Unescape(c)))
  {
    var line := Line(data);
    var p := |a|;
    var q := |a| + 1 + |b|;
    assert line[..p] == a && line[p] == Colon;
    assert line[p + 1..q] == b && line[q] == Colon;
    assert line[q + 1..] == c;
    forall i | 0 <= i < p ensures line[i] != Colon {
      assert line[i] == a[i];
    }
    FindAt(line, Colon, 0, p);
    forall i | p + 1 <= i < q ensures line[i] != Colon {
      assert line[i] == b[i - p - 1];
    }
    FindAt(line, Colon, p + 1, q);
  }

  /** A first line that holds a colon but whose kind field std::stoi
      cannot start reading (empty, or a first byte that is neither white
      space, a digit nor a sign) makes deserialize throw invalid_argument. */
  lemma NonNumericKindThrows(data: Bytes)
    requires Colon in Line(data)
    requires var line := Line(data);
      line[0] == Colon || !(IsSpace(line[0]) || IsDigit(line[0]) || line[0] == Minus || line[0] == Plus)
    ensures Decode(data) == Err(InvalidArgument)
  {
    var line := Line(data);
    var first := Find(line, Colon, 0);
    if line[0] != Colon {
      assert first != 0;
      assert line[..first][0] == line[0];
    }
    StoiRejectsNonNumeric(line[..first]);
  }

  /** With a single ':' on the first line, a number before it, the sender
      stays empty and the rest of the line, colons restored, is the
      content. */
  lemma SingleColonIsContent(data: Bytes, a: Bytes, c: Bytes, n: int32)
    requires Line(data) == a + [Colon] + c
    requires Colon !in a && Colon !in c && Stoi(a) == Ok(n)
    ensures Decode(data) == Ok(Message(n, [], Unescape(c)))
  {
    var line := Line(data);
    var p := |a|;
    assert line[..p] == a && line[p] == Colon;
    assert line[p + 1..] == c;
    forall i | 0 <= i < p ensures line[i] != Colon {
      assert line[i] == a[i];
    }
    FindAt(line, Colon, 0, p);
    forall i | p + 1 <= i < |line| ensures line[i] != Colon {
      assert line[i] == c[i - p - 1];
    }
    assert Find(line, Colon, p + 1) == -1;
  }

  /** Decoding what serialize wrote, followed by anything at all, gives the
      message back when its fields hold no newline and no placeholder pair. */
  lemma {:induction false} DecodeEncode(m: Message, rest: Bytes)
    requires WireSafe(m)
    ensures Decode(Encode(m) + rest) == Ok(m)
  {
    var a, b, c := Decimal(m.kind), Escape(m.sender), Escape(m.content);
    var line := a + [Colon] + b + [Colon] + c;
    assert line == Join3(a, b, c);
    assert Newline !in line by {
      DecimalHasNoNewline(m.kind);
      EscapeKeepsAbsent(m.sender, Newline);
      EscapeKeepsAbsent(m.content, Newline);
    }
    assert Encode(m) + rest == line + [Newline] + rest;
    LineOfTerminated(line, rest);
    DecimalHasNoColon(m.kind);
    EscapeShape(m.sender);
    EscapeShape(m.content);
    StoiDecimal(m.kind);
    ContentKeepsLaterColons(Encode(m) + rest, a, b, c, m.kind);
    UnescapeEscape(m.sender);
    UnescapeEscape(m.content);
  }

  /** An empty first line or one without ':' is the default message. */
  lemma NoColonIsDefault(data: Bytes)
    requires Colon !in Line(data)
    ensures Decode(data) == Ok(DefaultMessage())
  {
  }

  // ---------------------------------------------------------------------
  // utf8Length
  // ---------------------------------------------------------------------

  /** How far the loop advances past a byte: the length its lead bits
      announce, or one byte for a byte that cannot start a character. */
  function Stride(c: byte): (n: nat)
    ensures 1 <= n <= 4
    ensures LeadLength(c) != 0 ==> n == LeadLength(c)
  {
    if LeadLength(c) == 0 then 1 else LeadLength(c)
  }

  function Min(a: nat, b: nat): nat { if a < b then a else b }

  /** The number of strides it takes to walk off the end of `s`. */
  function StrideCount(s: Bytes): (n: nat)
    ensures n <= |s|
    ensures s != [] ==> n >= 1
    decreases |s|
  {
    if s == [] then 0 else 1 + StrideCount(s[Min(Stride(s[0]), |s|)..])
  }

  /** Message::utf8Length: step over one character per iteration by its
      lead byte, counting steps; a lead byte whose character runs past the
      end still counts. */
  method Utf8Length(str: Bytes) returns (length: nat)
    ensures length == StrideCount(str)
    ensures length <= |str|
    ensures WellFramed(str) ==> length == CodePoints(str)
  {
    length := 0;
    var i: nat := 0;
    while i < |str|
      invariant length + StrideCount(str[Min(i, |str|)..]) == StrideCount(str)
      decreases |str| - i
    {
      var c := str[i];
      ghost var from := i;
      if c < 0x80 {
        i := i + 1;
      } else if 0xC0 <= c < 0xE0 {         // (c & 0xE0) == 0xC0
        i := i + 2;
      } else if 0xE0 <= c < 0xF0 {         // (c & 0xF0) == 0xE0
        i := i + 3;
      } else if 0xF0 <= c < 0xF8 {         // (c & 0xF8) == 0xF0
        i := i + 4;
      } else {
        i := i + 1;
      }
      StrideStep(str, from, i);
      length := length + 1;
    }
    if WellFramed(str) {
      StrideCountIsCodePoints(str);
    }
  }

  /** One iteration of the length loop: a stride from `i` counts one. */
  lemma StrideStep(str: Bytes, i: nat, next: nat)
    requires i < |str| && next == i + Stride(str[i])
    ensures StrideCount(str[Min(i, |str|)..]) == 1 + StrideCount(str[Min(next, |str|)..])
  {
    var rest := str[i..];
    assert rest[0] == str[i];
    assert rest[Min(Stride(str[i]), |rest|)..] == str[Min(next, |str|)..];
  }

  lemma {:induction false} StrideCountIsCodePoints(s: Bytes)
    requires WellFramed(s)
    ensures StrideCount(s) == CodePoints(s)
    decreases |s|
  {
    if s != [] {
      StrideCountIsCodePoints(s[LeadLength(s[0])..]);
    }
  }

  /** On text that is not well framed the two generations count
      differently: a three-byte lead followed by an ASCII letter is one
      character here and two in the newer codec, which counts every byte
      that is not a continuation byte. */
  lemma CountsDifferOnTruncatedCharacter()
    ensures StrideCount([0xE0, 0x41]) == 1
    ensures NonContinuationCount([0xE0, 0x41]) == 2
  {
    assert [0xE0, 0x41][Min(Stride(0xE0), 2)..] == [];
    assert [0xE0, 0x41][1..] == [0x41];
  }
}
