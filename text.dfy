/**
 * Byte strings as the chat server's C++ code sees them (std::string is a
 * sequence of bytes), and the library behaviour the codec relies on:
 * std::string::find, std::getline with a delimiter, std::stoi, the decimal
 * form written by operator<< and std::to_string, and the colon placeholder
 * substitution both codec generations perform.
 */
module Text {

  /** One byte of a std::string, read as unsigned char. */
  type byte = x: int | 0 <= x < 256
  type Bytes = seq<byte>
  type int32 = x: int | -0x8000_0000 <= x < 0x8000_0000

  datatype Option<T> = None | Some(value: T)
  datatype Result<T, E> = Ok(value: T) | Err(error: E)

  const Colon: byte := 0x3A
  const Newline: byte := 0x0A
  const Minus: byte := 0x2D
  const Plus: byte := 0x2B
  /** U+02F8 MODIFIER LETTER RAISED COLON is encoded in UTF-8 as 0xCB 0xB8. */
  const PlaceholderLead: byte := 0xCB
  const PlaceholderTrail: byte := 0xB8

  /** The bytes of an ASCII string literal. */
  function Ascii(s: string): Bytes
  {
    seq(|s|, i requires 0 <= i < |s| => (s[i] as int) % 256)
  }

  // ---------------------------------------------------------------------
  // std::string::find
  // ---------------------------------------------------------------------

  /** std::string::find(b, from): the first index at or after `from` that
      holds `b`, or -1 standing for npos. */
  function Find(s: Bytes, b: byte, from: nat): (r: int)
    ensures r == -1 || from <= r < |s|
    ensures r == -1 ==> forall i | from <= i < |s| :: s[i] != b
    ensures r != -1 ==> s[r] == b && forall i | from <= i < r :: s[i] != b
    decreases |s| - from
  {
    if from >= |s| then -1
    else if s[from] == b then from
    else Find(s, b, from + 1)
  }

  /** The first `b` at or after `from` is at `at`. */
  lemma FindAt(s: Bytes, b: byte, from: nat, at: nat)
    requires from <= at < |s| && s[at] == b
    requires forall i | from <= i < at :: s[i] != b
    ensures Find(s, b, from) == at
  {
  }

  predicate PlaceholderAt(s: Bytes, i: int)
  {
    0 <= i && i + 1 < |s| && s[i] == PlaceholderLead && s[i + 1] == PlaceholderTrail
  }

  /** std::string::find("\xCB\xB8", from): the first index at or after
      `from` where the two-byte placeholder starts, or -1 for npos. */
  function FindPlaceholder(s: Bytes, from: nat): (r: int)
    ensures r == -1 || (from <= r && PlaceholderAt(s, r))
    ensures r == -1 ==> forall i | from <= i < |s| :: !PlaceholderAt(s, i)
    ensures r != -1 ==> forall i | from <= i < r :: !PlaceholderAt(s, i)
    decreases |s| - from
  {
    if from + 1 >= |s| then -1
    else if PlaceholderAt(s, from) then from
    else FindPlaceholder(s, from + 1)
  }

  predicate NoPlaceholder(s: Bytes)
  {
    forall i | 0 <= i < |s| :: !PlaceholderAt(s, i)
  }

  // ---------------------------------------------------------------------
  // Colon escaping: every ':' becomes the placeholder pair, and back
  // ---------------------------------------------------------------------

  function EscapeByte(b: byte): Bytes
  {
    if b == Colon then [PlaceholderLead, PlaceholderTrail] else [b]
  }

  /** The text a field has on the wire: each ':' replaced by 0xCB 0xB8. */
  function Escape(s: Bytes): Bytes
  {
    if s == [] then [] else EscapeByte(s[0]) + Escape(s[1..])
  }

  /** Left-to-right replacement of each non-overlapping 0xCB 0xB8 by ':'. */
  function Unescape(s: Bytes): Bytes
  {
    if s == [] then []
    else if PlaceholderAt(s, 0) then [Colon] + Unescape(s[2..])
    else [s[0]] + Unescape(s[1..])
  }

  function Occurrences(s: Bytes, b: byte): nat
  {
    if s == [] then 0 else (if s[0] == b then 1 else 0) + Occurrences(s[1..], b)
  }

  lemma {:induction false} EscapeAppend(a: Bytes, b: Bytes)
    ensures Escape(a + b) == Escape(a) + Escape(b)
  {
    if a != [] {
      assert (a + b)[1..] == a[1..] + b;
      EscapeAppend(a[1..], b);
    } else {
      assert a + b == b;
    }
  }

  /** Escaping leaves no colon behind and grows the text by one byte per colon. */
  lemma {:induction false} EscapeShape(s: Bytes)
    ensures Colon !in Escape(s)
    ensures |Escape(s)| == |s| + Occurrences(s, Colon)
  {
    if s != [] {
      EscapeShape(s[1..]);
    }
  }

  /** Text without a colon is left as it is. */
  lemma {:induction false} EscapeColonFree(s: Bytes)
    requires Colon !in s
    ensures Escape(s) == s
  {
    if s != [] {
      EscapeColonFree(s[1..]);
      assert s == [s[0]] + s[1..];
    }
  }

  lemma EscapeFirst(s: Bytes)
    requires s != []
    ensures Escape(s) != []
    ensures Escape(s)[0] == if s[0] == Colon then PlaceholderLead else s[0]
  {
  }

  /** Unescaping undoes escaping on text that does not already contain the
      placeholder pair. */
  lemma {:induction false} UnescapeEscape(s: Bytes)
    requires NoPlaceholder(s)
    ensures Unescape(Escape(s)) == s
  {
    if s != [] {
      var t := s[1..];
      assert NoPlaceholder(t) by {
        forall i | 0 <= i < |t| ensures !PlaceholderAt(t, i) {
          assert !PlaceholderAt(s, i + 1);
        }
      }
      UnescapeEscape(t);
      if s[0] == Colon {
        assert Escape(s) == [PlaceholderLead, PlaceholderTrail] + Escape(t);
        assert Escape(s)[2..] == Escape(t);
      } else {
        var e := Escape(s);
        assert e == [s[0]] + Escape(t);
        if t != [] {
          EscapeFirst(t);
          assert !PlaceholderAt(s, 0);
        }
        assert !PlaceholderAt(e, 0);
        assert e[1..] == Escape(t);
      }
    }
  }

  /** The substitution is not injective: a literal U+02F8 and a colon have
      the same wire form, so a literal U+02F8 is read back as ':'. */
  lemma PlaceholderReadsBackAsColon()
    ensures Escape([PlaceholderLead, PlaceholderTrail]) == Escape([Colon])
    ensures Unescape(Escape([PlaceholderLead, PlaceholderTrail])) == [Colon]
  {
    assert Escape([PlaceholderLead, PlaceholderTrail])
        == EscapeByte(PlaceholderLead) + Escape([PlaceholderTrail]);
    assert Escape([Colon]) == EscapeByte(Colon) + Escape([]);
    var e := [PlaceholderLead, PlaceholderTrail];
    assert PlaceholderAt(e, 0);
    assert e[2..] == [];
  }

  /** Escaping introduces no byte other than the placeholder pair. */
  lemma {:induction false} EscapeKeepsAbsent(s: Bytes, b: byte)
    requires b != PlaceholderLead && b != PlaceholderTrail && b !in s
    ensures b !in Escape(s)
  {
    if s != [] {
      EscapeKeepsAbsent(s[1..], b);
    }
  }

  /** One iteration of the find-and-replace escaping loop: the ':' found
      at `found` becomes the placeholder pair and the escaped prefix grows
      by the colon-free run before it and the colon. */
  lemma EscapeStep(str: Bytes, k: nat, result: Bytes, pos: nat, found: nat)
    requires pos <= found < |result| && k <= |str|
    requires result[..pos] == Escape(str[..k]) && result[pos..] == str[k..]
    requires result[found] == Colon && forall i | pos <= i < found :: result[i] != Colon
    ensures k + (found - pos) < |str|
    ensures var next := result[..found] + [PlaceholderLead, PlaceholderTrail] + result[found + 1..];
      found + 2 <= |next|
      && next[..found + 2] == Escape(str[..k + (found - pos) + 1])
      && next[found + 2..] == str[k + (found - pos) + 1..]
  {
    var j := k + (found - pos);
    assert result[pos..] == str[k..];
    assert result[pos..found] == str[k..j] && str[j] == Colon;
    EscapeRun(str, k, j);
    var next := result[..found] + [PlaceholderLead, PlaceholderTrail] + result[found + 1..];
    assert result[..found] == result[..pos] + result[pos..found];
    assert next[..found + 2] == result[..found] + [PlaceholderLead, PlaceholderTrail];
    assert next[found + 2..] == result[found + 1..];
    assert result[found + 1..] == str[j + 1..];
  }

  /** When the search from `pos` finds no more ':', the escaped prefix and
      the untouched rest make up the whole escaped text. */
  lemma EscapeRest(str: Bytes, k: nat, result: Bytes, pos: nat)
    requires pos <= |result| && k <= |str|
    requires result[..pos] == Escape(str[..k]) && result[pos..] == str[k..]
    requires forall i | pos <= i < |result| :: result[i] != Colon
    ensures result == Escape(str)
  {
    assert Colon !in str[k..] by {
      assert result[pos..] == str[k..];
    }
    EscapeColonFree(str[k..]);
    assert str == str[..k] + str[k..];
    EscapeAppend(str[..k], str[k..]);
    assert result == result[..pos] + result[pos..];
  }

  /** One iteration of a placeholder-restoring walk at index i. */
  lemma UnescapeAt(t: Bytes, i: nat)
    requires i < |t|
    ensures PlaceholderAt(t, i) ==> Unescape(t[i..]) == [Colon] + Unescape(t[i + 2..])
    ensures !PlaceholderAt(t, i) ==> Unescape(t[i..]) == [t[i]] + Unescape(t[i + 1..])
  {
    var rest := t[i..];
    assert rest[0] == t[i];
    if PlaceholderAt(t, i) {
      assert PlaceholderAt(rest, 0);
      assert rest[2..] == t[i + 2..];
    } else {
      assert !PlaceholderAt(rest, 0);
      assert rest[1..] == t[i + 1..];
    }
  }

  /** Escaping a colon-free run followed by one colon, as one step of the
      find-and-replace loops that escape a field. */
  lemma EscapeRun(str: Bytes, k: nat, j: nat)
    requires k <= j < |str|
    requires Colon !in str[k..j] && str[j] == Colon
    ensures Escape(str[..j + 1]) == Escape(str[..k]) + str[k..j] + [PlaceholderLead, PlaceholderTrail]
  {
    EscapeColonFree(str[k..j]);
    assert str[..j] == str[..k] + str[k..j];
    EscapeAppend(str[..k], str[k..j]);
    assert str[..j + 1] == str[..j] + [Colon];
    EscapeAppend(str[..j], [Colon]);
    assert Escape([Colon]) == [PlaceholderLead, PlaceholderTrail];
  }

  /** Unescaping from `pos` up to the first pair at `found`: the plain
      bytes before it, then ':', then the unescaped rest. */
  lemma UnescapeUpTo(result: Bytes, pos: nat, found: nat)
    requires pos <= found && PlaceholderAt(result, found)
    requires forall i | pos <= i < found :: !PlaceholderAt(result, i)
    ensures result[..pos] + Unescape(result[pos..])
         == result[..found] + [Colon] + Unescape(result[found + 2..])
  {
    var rest := result[pos..];
    forall i | 0 <= i < found - pos ensures !PlaceholderAt(rest, i) {
      assert !PlaceholderAt(result, pos + i);
    }
    UnescapePlainPrefix(rest, found - pos);
    assert rest[found - pos..] == result[found..];
    assert rest[..found - pos] == result[pos..found];
    UnescapeAt(result, found);
    assert result[..found] == result[..pos] + result[pos..found];
  }

  /** One round of the placeholder-restoring walk: replacing the first
      pair at or after `pos` by ':' keeps the unescaped whole the same. */
  lemma UnescapeStep(result: Bytes, pos: nat, found: nat)
    requires pos <= found && PlaceholderAt(result, found)
    requires forall i | pos <= i < found :: !PlaceholderAt(result, i)
    ensures var next := result[..found] + [Colon] + result[found + 2..];
      found + 1 <= |next|
      && next[..found + 1] + Unescape(next[found + 1..]) == result[..pos] + Unescape(result[pos..])
  {
    UnescapeUpTo(result, pos, found);
    var next := result[..found] + [Colon] + result[found + 2..];
    assert next[..found + 1] == result[..found] + [Colon];
    assert next[found + 1..] == result[found + 2..];
  }

  /** One step of a cursor walk that restores a pair met at `i` to ':'
      and otherwise steps over the byte: the unescaped whole is unchanged. */
  lemma RestoreStep(text: Bytes, i: nat)
    requires i < |text|
    ensures PlaceholderAt(text, i) ==>
      var next := text[..i] + [Colon] + text[i + 2..];
      i + 1 <= |next| && next[..i + 1] + Unescape(next[i + 1..]) == text[..i] + Unescape(text[i..])
    ensures !PlaceholderAt(text, i) ==>
      text[..i + 1] + Unescape(text[i + 1..]) == text[..i] + Unescape(text[i..])
  {
    UnescapeAt(text, i);
    if PlaceholderAt(text, i) {
      var next := text[..i] + [Colon] + text[i + 2..];
      assert next[..i + 1] == text[..i] + [Colon];
      assert next[i + 1..] == text[i + 2..];
    } else {
      assert text[..i + 1] == text[..i] + [text[i]];
    }
  }

  /** When no pair starts at or after `pos`, the rest is already unescaped. */
  lemma UnescapeRest(result: Bytes, pos: nat)
    requires pos <= |result|
    requires forall i | pos <= i < |result| :: !PlaceholderAt(result, i)
    ensures result[..pos] + Unescape(result[pos..]) == result
  {
    var rest := result[pos..];
    forall i | 0 <= i < |rest| ensures !PlaceholderAt(rest, i) {
      assert !PlaceholderAt(result, pos + i);
    }
    UnescapePlainPrefix(rest, |rest|);
    assert result == result[..pos] + rest;
  }

  /** A prefix of `s` in which no placeholder starts survives unescaping as it is. */
  lemma {:induction false} UnescapePlainPrefix(s: Bytes, j: nat)
    requires j <= |s|
    requires forall i | 0 <= i < j :: !PlaceholderAt(s, i)
    ensures Unescape(s) == s[..j] + Unescape(s[j..])
  {
    if j > 0 {
      assert !PlaceholderAt(s, 0);
      var t := s[1..];
      forall i | 0 <= i < j - 1 ensures !PlaceholderAt(t, i) {
        assert !PlaceholderAt(s, i + 1);
      }
      UnescapePlainPrefix(t, j - 1);
      assert t[j - 1..] == s[j..];
      assert s[..j] == [s[0]] + t[..j - 1];
    }
  }

  // ---------------------------------------------------------------------
  // std::getline(stream, line): the text before the first newline
  // ---------------------------------------------------------------------

  function Line(s: Bytes): (line: Bytes)
    ensures Newline !in line
    ensures |line| <= |s| && line == s[..|line|]
    ensures |line| < |s| ==> s[|line|] == Newline
  {
    var i := Find(s, Newline, 0);
    if i == -1 then s else s[..i]
  }

  lemma LineOfTerminated(a: Bytes, rest: Bytes)
    requires Newline !in a
    ensures Line(a + [Newline] + rest) == a
  {
    var s := a + [Newline] + rest;
    assert forall i | 0 <= i < |a| :: s[i] == a[i];
    assert s[|a|] == Newline;
  }

  // ---------------------------------------------------------------------
  // std::getline(stream, field, ':') applied repeatedly
  // ---------------------------------------------------------------------

  /** The ':'-separated fields of `s`, in order; a line without ':' is one field. */
  function Split(s: Bytes): (fields: seq<Bytes>)
    ensures |fields| >= 1
    decreases |s|
  {
    var i := Find(s, Colon, 0);
    if i == -1 then [s] else [s[..i]] + Split(s[i + 1..])
  }

  /** The field at position k, or the empty string when the line has fewer
      fields (a failed getline leaves its target empty). */
  function Field(fields: seq<Bytes>, k: nat): Bytes
  {
    if k < |fields| then fields[k] else []
  }

  lemma SplitLast(s: Bytes)
    requires Colon !in s
    ensures Split(s) == [s]
  {
  }

  lemma SplitCons(a: Bytes, rest: Bytes)
    requires Colon !in a
    ensures Split(a + [Colon] + rest) == [a] + Split(rest)
  {
    var s := a + [Colon] + rest;
    assert s[|a|] == Colon;
    assert forall i | 0 <= i < |a| :: s[i] == a[i];
    assert Find(s, Colon, 0) == |a|;
    assert s[..|a|] == a;
    assert s[|a| + 1..] == rest;
  }

  // ---------------------------------------------------------------------
  // Decimal text: operator<<(int), std::to_string, std::stoi
  // ---------------------------------------------------------------------

  predicate IsDigit(b: byte) { 0x30 <= b <= 0x39 }

  predicate AllDigits(s: Bytes) { forall i | 0 <= i < |s| :: IsDigit(s[i]) }

  function Digit(d: nat): byte
    requires d < 10
  {
    0x30 + d
  }

  /** The shortest decimal digits of n. */
  function NatDigits(n: nat): (r: Bytes)
    ensures |r| >= 1 && AllDigits(r)
  {
    if n < 10 then [Digit(n)] else NatDigits(n / 10) + [Digit(n % 10)]
  }

  /** The text `ss << n` and std::to_string(n) produce. */
  function Decimal(n: int): Bytes
  {
    if n < 0 then [Minus] + NatDigits(-n) else NatDigits(n)
  }

  function DigitsValue(ds: Bytes): nat
    requires AllDigits(ds)
  {
    if ds == [] then 0 else DigitsValue(ds[..|ds| - 1]) * 10 + (ds[|ds| - 1] - 0x30)
  }

  lemma {:induction false} DigitsValueOfNatDigits(n: nat)
    ensures DigitsValue(NatDigits(n)) == n
  {
    var ds := NatDigits(n);
    if n >= 10 {
      assert n == (n / 10) * 10 + n % 10;
      DigitsValueOfNatDigits(n / 10);
      assert ds[..|ds| - 1] == NatDigits(n / 10);
    }
  }

  predicate IsSpace(b: byte) { b == 0x20 || 0x09 <= b <= 0x0D }

  function SkipSpace(s: Bytes): Bytes
  {
    if s != [] && IsSpace(s[0]) then SkipSpace(s[1..]) else s
  }

  /** The longest run of digits at the start of s. */
  function DigitPrefix(s: Bytes): (r: Bytes)
    ensures AllDigits(r) && |r| <= |s|
  {
    if s != [] && IsDigit(s[0]) then [s[0]] + DigitPrefix(s[1..]) else []
  }

  datatype ConversionError = InvalidArgument | OutOfRange

  /** std::stoi in base 10: leading white space, an optional sign, then the
      longest run of digits; anything after it is ignored. No digits raises
      invalid_argument; a value outside int raises out_of_range. */
  function Stoi(s: Bytes): Result<int32, ConversionError>
  {
    var t := SkipSpace(s);
    var negative := t != [] && t[0] == Minus;
    var unsigned := if t != [] && (t[0] == Minus || t[0] == Plus) then t[1..] else t;
    var ds := DigitPrefix(unsigned);
    if ds == [] then Err(InvalidArgument)
    else
      var v: int := if negative then -(DigitsValue(ds) as int) else DigitsValue(ds);
      if -0x8000_0000 <= v < 0x8000_0000 then Ok(v) else Err(OutOfRange)
  }

  lemma {:induction false} DigitPrefixOfDigits(s: Bytes)
    requires AllDigits(s)
    ensures DigitPrefix(s) == s
  {
    if s != [] {
      DigitPrefixOfDigits(s[1..]);
      assert s == [s[0]] + s[1..];
    }
  }

  /** std::stoi reads back what operator<< wrote for every int. */
  lemma StoiDecimal(n: int32)
    ensures Stoi(Decimal(n)) == Ok(n)
  {
    var d := Decimal(n);
    var m: nat := if n < 0 then -(n as int) else n;
    var ds := NatDigits(m);
    assert SkipSpace(d) == d;
    DigitPrefixOfDigits(ds);
    DigitsValueOfNatDigits(m);
    if n < 0 {
      assert d[1..] == ds;
    } else {
      assert d == ds;
    }
  }

  /** std::to_string of a size_t read back with std::stoi. */
  lemma StoiNat(n: nat)
    ensures Stoi(Decimal(n)) == if n < 0x8000_0000 then Ok(n) else Err(OutOfRange)
  {
    var ds := NatDigits(n);
    assert SkipSpace(ds) == ds;
    DigitPrefixOfDigits(ds);
    DigitsValueOfNatDigits(n);
  }

  lemma DecimalHasNoColon(n: int)
    ensures Colon !in Decimal(n)
  {
    var m: nat := if n < 0 then -(n as int) else n;
    var ds := NatDigits(m);
    assert forall i | 0 <= i < |ds| :: IsDigit(ds[i]);
  }

  lemma DecimalHasNoNewline(n: int)
    ensures Newline !in Decimal(n)
  {
    var m: nat := if n < 0 then -(n as int) else n;
    var ds := NatDigits(m);
    assert forall i | 0 <= i < |ds| :: IsDigit(ds[i]);
  }

  /** A field that does not start with white space, a sign or a digit is
      not a number: std::stoi raises invalid_argument. */
  lemma StoiRejectsNonNumeric(s: Bytes)
    requires s == [] || !(IsSpace(s[0]) || IsDigit(s[0]) || s[0] == Minus || s[0] == Plus)
    ensures Stoi(s) == Err(InvalidArgument)
  {
  }

  // ---------------------------------------------------------------------
  // std::string ordering (std::map and std::set of strings iterate in it)
  // ---------------------------------------------------------------------

  /** std::string operator<: bytewise as unsigned char, a proper prefix first. */
  predicate Below(a: Bytes, b: Bytes)
  {
    if a == [] then b != []
    else if b == [] then false
    else a[0] < b[0] || (a[0] == b[0] && Below(a[1..], b[1..]))
  }

  lemma {:induction false} BelowIrreflexive(a: Bytes)
    ensures !Below(a, a)
  {
    if a != [] { BelowIrreflexive(a[1..]); }
  }

  lemma {:induction false} BelowTransitive(a: Bytes, b: Bytes, c: Bytes)
    requires Below(a, b) && Below(b, c)
    ensures Below(a, c)
  {
    if a != [] && b != [] && c != [] && a[0] == b[0] && b[0] == c[0] {
      BelowTransitive(a[1..], b[1..], c[1..]);
    }
  }

  lemma {:induction false} BelowTotal(a: Bytes, b: Bytes)
    requires a != b
    ensures Below(a, b) || Below(b, a)
  {
    if a != [] && b != [] && a[0] == b[0] {
      assert a == [a[0]] + a[1..] && b == [b[0]] + b[1..];
      BelowTotal(a[1..], b[1..]);
    }
  }

  predicate IsLeast(k: Bytes, s: set<Bytes>)
  {
    k in s && forall x | x in s && x != k :: Below(k, x)
  }

  lemma {:induction false} LeastExists(s: set<Bytes>)
    requires s != {}
    ensures exists k :: IsLeast(k, s)
    decreases |s|
  {
    var x :| x in s;
    var rest := s - {x};
    if rest == {} {
      assert s == {x};
      assert IsLeast(x, s);
    } else {
      LeastExists(rest);
      var k :| IsLeast(k, rest);
      if Below(x, k) {
        forall y | y in s && y != x ensures Below(x, y) {
          if y != k { BelowTransitive(x, k, y); }
        }
        assert IsLeast(x, s);
      } else {
        BelowTotal(x, k);
        assert IsLeast(k, s);
      }
    }
  }

  lemma LeastUnique(k: Bytes, k': Bytes, s: set<Bytes>)
    requires IsLeast(k, s) && IsLeast(k', s)
    ensures k == k'
  {
    if k != k' {
      assert Below(k, k') && Below(k', k);
      BelowTransitive(k, k', k);
      BelowIrreflexive(k);
    }
  }

  /** The elements of s in ascending order: the order in which a std::set
      or the keys of a std::map of strings are visited. */
  ghost function Ascending(s: set<Bytes>): (r: seq<Bytes>)
    ensures |r| == |s|
    ensures forall x :: x in r <==> x in s
    decreases |s|
  {
    if s == {} then []
    else
      LeastExists(s);
      var k :| IsLeast(k, s);
      [k] + Ascending(s - {k})
  }

  predicate StrictlyAscending(r: seq<Bytes>)
  {
    forall i, j | 0 <= i < j < |r| :: Below(r[i], r[j])
  }

  lemma {:induction false} AscendingIsSorted(s: set<Bytes>)
    ensures StrictlyAscending(Ascending(s))
    decreases |s|
  {
    if s != {} {
      var r := Ascending(s);
      var k := r[0];
      assert IsLeast(k, s) by {
        LeastExists(s);
        var k0 :| IsLeast(k0, s) && Ascending(s) == [k0] + Ascending(s - {k0});
      }
      AscendingIsSorted(s - {k});
    }
  }

  /** The head of Ascending(s) is the least element, and the rest is the
      ascending order of what remains. */
  lemma AscendingStep(s: set<Bytes>, k: Bytes)
    requires IsLeast(k, s)
    ensures Ascending(s) == [k] + Ascending(s - {k})
  {
    LeastExists(s);
    var k0 :| IsLeast(k0, s) && Ascending(s) == [k0] + Ascending(s - {k0});
    LeastUnique(k, k0, s);
  }

  /** One step of walking a set in ascending order: take the least. */
  lemma AscendingPop(done: seq<Bytes>, remaining: set<Bytes>, k: Bytes)
    requires IsLeast(k, remaining)
    ensures done + Ascending(remaining) == (done + [k]) + Ascending(remaining - {k})
  {
    AscendingStep(remaining, k);
  }

  /** A set walked in ascending order visits each element once. */
  lemma AscendingDistinct(s: set<Bytes>, i: int, j: int)
    requires 0 <= i < |s| && 0 <= j < |s|
    requires Ascending(s)[i] == Ascending(s)[j]
    ensures i == j
  {
    AscendingIsSorted(s);
    var r := Ascending(s);
    if i < j {
      assert Below(r[i], r[j]);
      BelowIrreflexive(r[i]);
    } else if j < i {
      assert Below(r[j], r[i]);
      BelowIrreflexive(r[j]);
    }
  }
}
