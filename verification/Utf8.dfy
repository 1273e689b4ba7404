/** UTF-8 (RFC 3629) in percent escapes, and that decoding is exactly its inverse. */
module Utf8 {
  import opened Wrappers
  import opened PercentDecoding

  /* ---------- Encoding ---------- */

  /** The bytes of a code point (section 3 of RFC 3629). */
  function Bytes(c: char): (bytes: seq<nat>)
    ensures 1 <= |bytes| <= 4 && forall i :: 0 <= i < |bytes| ==> bytes[i] < 256
  {
    var n := c as int;
    if n < 0x80 then [n]
    else if n < 0x800 then [0xC0 + n / 64, 0x80 + n % 64]
    else if n < 0x1_0000 then [0xE0 + n / 64 / 64, 0x80 + n / 64 % 64, 0x80 + n % 64]
    else [0xF0 + n / 64 / 64 / 64, 0x80 + n / 64 / 64 % 64, 0x80 + n / 64 % 64, 0x80 + n % 64]
  }

  /** How a number below 16 is written. */
  predicate IsDigit(c: char, v: nat) {
    && v < 16
    && if v < 10 then c == '0' + v as char else c == 'A' + (v - 10) as char || c == 'a' + (v - 10) as char
  }

  /** A percent sign and two hexadecimal digits at position `i`, for the byte. */
  predicate IsEscape(s: string, i: nat, b: nat) {
    i + 2 < |s| && s[i] == '%' && IsDigit(s[i + 1], b / 16) && IsDigit(s[i + 2], b % 16)
  }

  /** The text starts with the escapes of the code point's bytes. */
  predicate StartsEscaped(s: string, c: char) {
    3 * |Bytes(c)| <= |s| && forall i :: 0 <= i < |Bytes(c)| ==> IsEscape(s, 3 * i, Bytes(c)[i])
  }

  /** Every character stands for itself, unless it is a percent sign, or is written in escapes. */
  predicate IsEncoding(s: string, text: string) {
    if text == "" then s == ""
    else
      || (s != "" && s[0] == text[0] != '%' && IsEncoding(s[1..], text[1..]))
      || (StartsEscaped(s, text[0]) && IsEncoding(s[3 * |Bytes(text[0])|..], text[1..]))
  }

  /* ---------- Decoding one code point ---------- */

  lemma DigitIsRead(c: char, v: nat)
    ensures HexValue(c) == Some(v) <==> IsDigit(c, v)
  {
  }

  lemma Halves(high: nat, low: nat)
    requires low < 16
    ensures (16 * high + low) / 16 == high && (16 * high + low) % 16 == low
  {
  }

  lemma EscapeIsRead(s: string, i: nat, b: nat)
    ensures ByteAt(s, i) == Some(b) <==> IsEscape(s, i, b)
  {
    if i + 2 < |s| {
      DigitIsRead(s[i + 1], b / 16);
      DigitIsRead(s[i + 2], b % 16);
      if ByteAt(s, i).Some? {
        Halves(HexValue(s[i + 1]).value, HexValue(s[i + 2]).value);
      }
    }
  }

  lemma ContinuationIsRead(s: string, i: nat, b: nat)
    requires b < 64
    ensures ContinuationAt(s, i) == Some(b) <==> IsEscape(s, i, 0x80 + b)
  {
    EscapeIsRead(s, i, 0x80 + b);
  }

  /** The numbers are the leading byte of the code point and the payloads of its continuations. */
  predicate AreBytes(c: char, b: nat, first: Option<nat>, second: Option<nat>, third: Option<nat>) {
    var bytes := Bytes(c);
    && b == bytes[0]
    && (|bytes| > 1 ==> first.Some? && bytes[1] == 0x80 + first.value)
    && (|bytes| > 2 ==> second.Some? && bytes[2] == 0x80 + second.value)
    && (|bytes| > 3 ==> third.Some? && bytes[3] == 0x80 + third.value)
  }

  lemma Payload(q: nat, r: nat)
    requires r < 64
    ensures (64 * q + r) / 64 == q && (64 * q + r) % 64 == r
  {
  }

  lemma BytesAreAssembled(c: char, b: nat, first: Option<nat>, second: Option<nat>, third: Option<nat>)
    requires AreBytes(c, b, first, second, third)
    ensures Assembled(b, first, second, third) == Some((c, 3 * |Bytes(c)|))
  {
    var n := c as int;
    assert n == 64 * (n / 64) + n % 64 && n / 64 == 64 * (n / 64 / 64) + n / 64 % 64;
  }

  lemma TwoBytes(c: char, b: nat, c1: nat)
    requires b / 32 == 6 && c1 < 64 && 0x80 <= 64 * (b % 32) + c1 == c as int
    ensures Bytes(c) == [b, 0x80 + c1]
  {
    Payload(b % 32, c1);
  }

  lemma ThreeBytes(c: char, b: nat, c1: nat, c2: nat)
    requires b / 16 == 14 && c1 < 64 && c2 < 64 && 0x800 <= 64 * (64 * (b % 16) + c1) + c2 == c as int
    ensures Bytes(c) == [b, 0x80 + c1, 0x80 + c2]
  {
    Payload(b % 16, c1);
    Payload(64 * (b % 16) + c1, c2);
  }

  lemma FourBytes(c: char, b: nat, c1: nat, c2: nat, c3: nat)
    requires b / 8 == 30 && c1 < 64 && c2 < 64 && c3 < 64
    requires 0x1_0000 <= 64 * (64 * (64 * (b % 8) + c1) + c2) + c3 == c as int
    ensures Bytes(c) == [b, 0x80 + c1, 0x80 + c2, 0x80 + c3]
  {
    Payload(b % 8, c1);
    Payload(64 * (b % 8) + c1, c2);
    Payload(64 * (64 * (b % 8) + c1) + c2, c3);
  }

  lemma AssembledAreBytes(c: char, b: nat, first: Option<nat>, second: Option<nat>, third: Option<nat>, length: nat)
    requires b < 256 && (first.Some? ==> first.value < 64) && (second.Some? ==> second.value < 64)
    requires third.Some? ==> third.value < 64
    requires Assembled(b, first, second, third) == Some((c, length))
    ensures AreBytes(c, b, first, second, third) && length == 3 * |Bytes(c)|
  {
    if b >= 0x80 {
      if b / 32 == 6 {
        TwoBytes(c, b, first.value);
      } else if b / 16 == 14 {
        ThreeBytes(c, b, first.value, second.value);
      } else {
        FourBytes(c, b, first.value, second.value, third.value);
      }
    }
  }

  /** A code point is read exactly where its escapes stand, and they are as long as its bytes say. */
  lemma FirstCodePointExactly(s: string, c: char, length: nat)
    ensures FirstCodePoint(s) == Some((c, length)) <==> StartsEscaped(s, c) && length == 3 * |Bytes(c)|
  {
    EscapesAreRead(s, c);
    if ByteAt(s, 0).Some? {
      var b, first, second, third :=
        ByteAt(s, 0).value, ContinuationAt(s, 3), ContinuationAt(s, 6), ContinuationAt(s, 9);
      if AreBytes(c, b, first, second, third) {
        BytesAreAssembled(c, b, first, second, third);
      }
      if Assembled(b, first, second, third) == Some((c, length)) {
        AssembledAreBytes(c, b, first, second, third, length);
      }
    }
  }

  /** Byte number `i` of some, as it is read from its escape. */
  predicate ReadsByte(s: string, i: nat, b: nat) {
    if i == 0 then ByteAt(s, 0) == Some(b) else b >= 0x80 && ContinuationAt(s, 3 * i) == Some((b - 0x80) as nat)
  }

  lemma EachByteIsRead(s: string, c: char, i: nat)
    requires i < |Bytes(c)|
    ensures IsEscape(s, 3 * i, Bytes(c)[i]) <==> ReadsByte(s, i, Bytes(c)[i])
  {
    var b := Bytes(c)[i];
    if i == 0 {
      EscapeIsRead(s, 0, b);
    } else {
      ContinuationIsRead(s, 3 * i, b - 0x80);
    }
  }

  predicate AllRead(s: string, bytes: seq<nat>) {
    forall i :: 0 <= i < |bytes| ==> ReadsByte(s, i, bytes[i])
  }

  lemma StartsByReading(s: string, c: char)
    ensures StartsEscaped(s, c) <==> AllRead(s, Bytes(c))
  {
    var bytes := Bytes(c);
    forall i | 0 <= i < |bytes| ensures IsEscape(s, 3 * i, bytes[i]) <==> ReadsByte(s, i, bytes[i]) {
      EachByteIsRead(s, c, i);
    }
    if AllRead(s, bytes) {
      assert IsEscape(s, 3 * (|bytes| - 1), bytes[|bytes| - 1]);
    }
  }

  lemma EscapesAreRead(s: string, c: char)
    ensures StartsEscaped(s, c) <==>
            ByteAt(s, 0).Some? &&
            AreBytes(c, ByteAt(s, 0).value, ContinuationAt(s, 3), ContinuationAt(s, 6), ContinuationAt(s, 9))
  {
    StartsByReading(s, c);
    ReadInTurn(s, Bytes(c));
  }

  lemma ReadInTurn(s: string, bytes: seq<nat>)
    requires 1 <= |bytes| <= 4
    ensures AllRead(s, bytes) <==>
            && ByteAt(s, 0) == Some(bytes[0])
            && (|bytes| > 1 ==> ReadsByte(s, 1, bytes[1]))
            && (|bytes| > 2 ==> ReadsByte(s, 2, bytes[2]))
            && (|bytes| > 3 ==> ReadsByte(s, 3, bytes[3]))
  {
    assert AllRead(s, bytes) ==> ReadsByte(s, 0, bytes[0]);
  }

  /* ---------- Decoding a text ---------- */

  /** Decoding gives a text exactly for its encodings, in whatever escapes, and nothing for what encodes no text. */
  lemma {:induction false} DecodeInvertsEncoding(s: string, text: string)
    ensures Decode(s) == Some(text) <==> IsEncoding(s, text)
    decreases |s|
  {
    if s != "" && text != "" {
      if s[0] != '%' {
        DecodeInvertsEncoding(s[1..], text[1..]);
        NoEscapeHere(s, text[0]);
        assert text == [text[0]] + text[1..];
        BehindIs(s[0], Decode(s[1..]), text);
      } else if FirstCodePoint(s).Some? {
        var (c, length) := FirstCodePoint(s).value;
        FirstCodePointExactly(s, c, length);
        FirstCodePointExactly(s, text[0], 3 * |Bytes(text[0])|);
        DecodeInvertsEncoding(s[length..], text[1..]);
        BehindIs(c, Decode(s[length..]), text);
      } else {
        FirstCodePointExactly(s, text[0], 3 * |Bytes(text[0])|);
      }
    } else if text != "" {
      NoEscapeHere(s, text[0]);
    } else if s != "" {
      DecodesToSomething(s);
    }
  }

  lemma EscapeStarts(s: string, c: char)
    requires StartsEscaped(s, c)
    ensures s != "" && s[0] == '%'
  {
    assert IsEscape(s, 3 * 0, Bytes(c)[0]);
  }

  lemma NoEscapeHere(s: string, c: char)
    requires s == "" || s[0] != '%'
    ensures !StartsEscaped(s, c)
  {
    if StartsEscaped(s, c) {
      EscapeStarts(s, c);
    }
  }

  lemma DecodesToSomething(s: string)
    requires s != ""
    ensures Decode(s) != Some("")
  {
  }

  lemma BehindIs(c: char, rest: Option<string>, text: string)
    requires text != ""
    ensures Behind(c, rest) == Some(text) <==> c == text[0] && rest == Some(text[1..])
  {
    assert text == [text[0]] + text[1..];
    if rest.Some? {
      assert ([c] + rest.value)[1..] == rest.value && ([c] + rest.value)[0] == c;
    }
  }
}
