/**
 `decodeURIComponent`: percent escapes are read as the UTF-8 encoding of code points (ECMAScript
 2023, section 19.2.6.5, with nothing preserved). `None` is where it throws.
 */
module PercentDecoding {
  import opened Wrappers

  function HexValue(c: char): (v: Option<nat>)
    ensures v.Some? ==> v.value < 16
  {
    if '0' <= c <= '9' then Some((c - '0') as nat)
    else if 'A' <= c <= 'F' then Some((c - 'A') as nat + 10)
    else if 'a' <= c <= 'f' then Some((c - 'a') as nat + 10)
    else None
  }

  /** The byte that an escape at position `i` stands for. */
  function ByteAt(s: string, i: nat): (b: Option<nat>)
    ensures b.Some? ==> i + 2 < |s| && b.value < 256
  {
    if i + 2 < |s| && s[i] == '%' && HexValue(s[i + 1]).Some? && HexValue(s[i + 2]).Some?
    then Some(16 * HexValue(s[i + 1]).value + HexValue(s[i + 2]).value)
    else None
  }

  /** The payload of the continuation byte that an escape at position `i` stands for. */
  function ContinuationAt(s: string, i: nat): (b: Option<nat>)
    ensures b.Some? ==> i + 2 < |s| && b.value < 64
  {
    match ByteAt(s, i)
    case Some(b) => if b / 64 == 2 then Some(b % 64) else None
    case None => None
  }

  /** A code point that is no surrogate and is not encoded longer than it need be. */
  function Checked(codePoint: nat, least: nat): Option<char> {
    if least <= codePoint < 0x11_0000 && !(0xD800 <= codePoint < 0xE000) then Some(codePoint as char) else None
  }

  /** The code point of a leading byte and the continuations behind it, and how many characters their escapes take. */
  function Assembled(b: nat, first: Option<nat>, second: Option<nat>, third: Option<nat>): Option<(char, nat)> {
    if b < 0x80 then Some((b as char, 3))
    else
      match first
      case None => None
      case Some(c1) =>
        if b / 32 == 6 then WithLength(Checked(64 * (b % 32) + c1, 0x80), 6)
        else if b / 16 == 14 && second.Some? then
          WithLength(Checked(64 * (64 * (b % 16) + c1) + second.value, 0x800), 9)
        else if b / 8 == 30 && second.Some? && third.Some? then
          WithLength(Checked(64 * (64 * (64 * (b % 8) + c1) + second.value) + third.value, 0x1_0000), 12)
        else None
  }

  /** The code point whose escapes start the text, and the number of characters of these escapes. */
  function FirstCodePoint(s: string): (r: Option<(char, nat)>)
    ensures r.Some? ==> 3 <= r.value.1 <= |s|
  {
    match ByteAt(s, 0)
    case None => None
    case Some(b) => Assembled(b, ContinuationAt(s, 3), ContinuationAt(s, 6), ContinuationAt(s, 9))
  }

  function WithLength(c: Option<char>, length: nat): Option<(char, nat)> {
    match c
    case None => None
    case Some(codePoint) => Some((codePoint, length))
  }

  function Decode(s: string): Option<string> {
    if s == "" then Some("")
    else if s[0] != '%' then Behind(s[0], Decode(s[1..]))
    else
      match FirstCodePoint(s)
      case None => None
      case Some((c, length)) => Behind(c, Decode(s[length..]))
  }

  function Behind(c: char, rest: Option<string>): Option<string> {
    match rest
    case None => None
    case Some(text) => Some([c] + text)
  }

  /** A text in front without a percent sign is kept. */
  lemma {:induction false} PlainFront(front: string, s: string)
    requires '%' !in front
    ensures Decode(front + s) == match Decode(s) case None => None case Some(text) => Some(front + text)
  {
    if front == "" {
      assert front + s == s;
      if Decode(s).Some? {
        assert front + Decode(s).value == Decode(s).value;
      }
    } else {
      assert (front + s)[1..] == front[1..] + s && (front + s)[0] == front[0];
      PlainFront(front[1..], s);
      if Decode(s).Some? {
        assert [front[0]] + (front[1..] + Decode(s).value) == front + Decode(s).value;
      }
    }
  }

  /** Decoding leaves a text alone exactly when it has no percent sign: every escape gets shorter. */
  lemma {:induction false} DecodingShortens(s: string)
    ensures Decode(s).Some? ==> |Decode(s).value| <= |s| && ('%' in s ==> |Decode(s).value| < |s|)
    ensures Decode(s) == Some(s) <==> '%' !in s
  {
    if s != "" {
      if s[0] != '%' {
        DecodingShortens(s[1..]);
        assert s == [s[0]] + s[1..];
      } else if FirstCodePoint(s).Some? {
        DecodingShortens(s[FirstCodePoint(s).value.1..]);
      }
    }
  }
}
