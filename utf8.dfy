/**
 * UTF-8 framing as section 3 of RFC 3629 describes it: the lead byte of a
 * character says how many bytes the character takes (0xxxxxxx: 1,
 * 110xxxxx: 2, 1110xxxx: 3, 11110xxx: 4), and every byte after the lead is
 * a continuation byte 10xxxxxx. Both generations of the codec count code
 * points from this structure; this module says what the count should be.
 */
module Utf8 {
  import opened Text

  /** (c & 0xC0) == 0x80: a continuation byte 10xxxxxx. */
  predicate IsContinuation(c: byte)
  {
    0x80 <= c < 0xC0
  }

  /** The length of the character a lead byte starts, or 0 when the byte
      cannot start a character (a continuation byte or 11111xxx). */
  function LeadLength(c: byte): nat
  {
    if c < 0x80 then 1           // 0xxxxxxx
    else if c < 0xC0 then 0      // 10xxxxxx
    else if c < 0xE0 then 2      // 110xxxxx
    else if c < 0xF0 then 3      // 1110xxxx
    else if c < 0xF8 then 4      // 11110xxx
    else 0
  }

  /** `s` is a whole number of characters: each lead byte is followed by
      exactly the continuation bytes it announces. This admits overlong
      forms and surrogates, so every valid UTF-8 text is well framed. */
  predicate WellFramed(s: Bytes)
    decreases |s|
  {
    s == [] ||
    (var n := LeadLength(s[0]);
     0 < n <= |s| &&
     (forall j | 1 <= j < n :: IsContinuation(s[j])) &&
     WellFramed(s[n..]))
  }

  /** The number of characters of a well-framed text. */
  function CodePoints(s: Bytes): nat
    requires WellFramed(s)
    decreases |s|
  {
    if s == [] then 0 else 1 + CodePoints(s[LeadLength(s[0])..])
  }

  /** The number of bytes of `s` that are not continuation bytes. */
  function NonContinuationCount(s: Bytes): (n: nat)
    ensures n <= |s|
  {
    if s == [] then 0
    else (if IsContinuation(s[0]) then 0 else 1) + NonContinuationCount(s[1..])
  }

  lemma {:induction false} NonContinuationCountAppend(a: Bytes, b: Bytes)
    ensures NonContinuationCount(a + b) == NonContinuationCount(a) + NonContinuationCount(b)
  {
    if a == [] {
      assert a + b == b;
    } else {
      assert (a + b)[1..] == a[1..] + b;
      NonContinuationCountAppend(a[1..], b);
    }
  }

  lemma {:induction false} NoLeadNoCount(s: Bytes)
    requires forall j | 0 <= j < |s| :: IsContinuation(s[j])
    ensures NonContinuationCount(s) == 0
  {
    if s != [] {
      NoLeadNoCount(s[1..]);
    }
  }

  /** In a well-framed text, counting the bytes that are not continuation
      bytes counts exactly the characters. */
  lemma {:induction false} NonContinuationCountIsCodePoints(s: Bytes)
    requires WellFramed(s)
    ensures NonContinuationCount(s) == CodePoints(s)
    decreases |s|
  {
    if s != [] {
      var n := LeadLength(s[0]);
      assert s == s[..n] + s[n..];
      NonContinuationCountAppend(s[..n], s[n..]);
      var tail := s[..n][1..];
      assert forall j | 0 <= j < |tail| :: IsContinuation(tail[j]) by {
        forall j | 0 <= j < |tail| ensures IsContinuation(tail[j]) {
          assert tail[j] == s[j + 1];
        }
      }
      NoLeadNoCount(tail);
      assert !IsContinuation(s[0]);
      NonContinuationCountIsCodePoints(s[n..]);
    }
  }
}
