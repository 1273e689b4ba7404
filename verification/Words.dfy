/** Words of a text, stripping, splitting and joining, for whatever counts as white space. */
module Words {
  import opened Text

  type Space = char -> bool

  function LowerChar(c: char): char {
    if 'A' <= c <= 'Z' then (c as int + 32) as char else c
  }

  function Lower(s: string): (r: string)
    ensures |r| == |s| && forall i :: 0 <= i < |s| ==> r[i] == LowerChar(s[i])
  {
    if s == "" then "" else [LowerChar(s[0])] + Lower(s[1..])
  }

  predicate IsAscii(s: string) {
    forall i :: 0 <= i < |s| ==> s[i] < '\U{0080}'
  }

  /* ---------- Stripping ---------- */

  function StripLeft(space: Space, s: string): string {
    if s != "" && space(s[0]) then StripLeft(space, s[1..]) else s
  }

  function StripRight(space: Space, s: string): string {
    if s != "" && space(s[|s| - 1]) then StripRight(space, s[..|s| - 1]) else s
  }

  function Strip(space: Space, s: string): string {
    StripRight(space, StripLeft(space, s))
  }

  predicate IsStripped(space: Space, s: string) {
    s == "" || (!space(s[0]) && !space(s[|s| - 1]))
  }

  lemma {:induction false} StripRightKeeps(space: Space, s: string)
    ensures StripRight(space, s) != "" ==>
              s != "" && StripRight(space, s)[0] == s[0] && !space(StripRight(space, s)[|StripRight(space, s)| - 1])
    ensures forall c :: c in StripRight(space, s) ==> c in s
  {
    if s != "" && space(s[|s| - 1]) {
      StripRightKeeps(space, s[..|s| - 1]);
    }
  }

  lemma {:induction false} StripLeftKeeps(space: Space, s: string)
    ensures StripLeft(space, s) != "" ==> !space(StripLeft(space, s)[0])
    ensures forall c :: c in StripLeft(space, s) ==> c in s
  {
    if s != "" && space(s[0]) {
      StripLeftKeeps(space, s[1..]);
    }
  }

  lemma StripStrips(space: Space, s: string)
    ensures IsStripped(space, Strip(space, s))
    ensures forall c :: c in Strip(space, s) ==> c in s
  {
    StripLeftKeeps(space, s);
    StripRightKeeps(space, StripLeft(space, s));
  }

  /* ---------- Words ---------- */

  /** Scan the text, with the word read so far. */
  function SplitFrom(space: Space, text: string, word: string): seq<string> {
    if text == "" then Flush(word)
    else if space(text[0]) then Flush(word) + SplitFrom(space, text[1..], "")
    else SplitFrom(space, text[1..], word + [text[0]])
  }

  function Flush(word: string): seq<string> {
    if word == "" then [] else [word]
  }

  function SplitBy(space: Space, text: string): seq<string> {
    SplitFrom(space, text, "")
  }

  /** `text.split()` */
  function SplitWords(text: string): seq<string> {
    SplitBy(IsSpace, text)
  }

  /** `" ".join(words)` */
  function JoinWords(words: seq<string>): string {
    Join(" ", words)
  }

  predicate IsTokenOf(space: Space, word: string) {
    word != "" && forall i :: 0 <= i < |word| ==> !space(word[i])
  }

  predicate AreTokensOf(space: Space, words: seq<string>) {
    forall i :: 0 <= i < |words| ==> IsTokenOf(space, words[i])
  }

  predicate IsToken(word: string) {
    IsTokenOf(IsSpace, word)
  }

  predicate AreTokens(words: seq<string>) {
    AreTokensOf(IsSpace, words)
  }

  /** Reading a token onto the word so far. */
  lemma {:induction false} ReadToken(space: Space, token: string, rest: string, word: string)
    requires forall i :: 0 <= i < |token| ==> !space(token[i])
    ensures SplitFrom(space, token + rest, word) == SplitFrom(space, rest, word + token)
  {
    if token == "" {
      assert token + rest == rest && word + token == word;
    } else {
      assert (token + rest)[1..] == token[1..] + rest;
      ReadToken(space, token[1..], rest, word + [token[0]]);
      assert word + [token[0]] + token[1..] == word + token;
    }
  }

  /** Splitting joined tokens gives them back, so their number is the number of words in the text. */
  lemma {:induction false} SplitJoined(space: Space, words: seq<string>)
    requires AreTokensOf(space, words) && space(' ')
    ensures SplitBy(space, JoinWords(words)) == words
  {
    if |words| == 1 {
      ReadToken(space, words[0], "", "");
      assert words[0] + "" == words[0] && "" + words[0] == words[0];
      assert words == [words[0]];
    } else if words != [] {
      var rest := " " + JoinWords(words[1..]);
      ReadToken(space, words[0], rest, "");
      assert words[0] + rest == words[0] + " " + JoinWords(words[1..]);
      assert "" + words[0] == words[0];
      assert rest[1..] == JoinWords(words[1..]);
      SplitJoined(space, words[1..]);
      assert SplitFrom(space, rest, words[0]) == [words[0]] + SplitFrom(space, rest[1..], "");
      assert words == [words[0]] + words[1..];
    }
  }

  /** What splitting yields: tokens, of characters of the text. */
  lemma {:induction false} SplitYieldsTokens(space: Space, text: string, word: string)
    requires forall i :: 0 <= i < |word| ==> !space(word[i])
    ensures AreTokensOf(space, SplitFrom(space, text, word))
    ensures forall part :: part in SplitFrom(space, text, word) ==> IsFrom(part, word + text)
    decreases text
  {
    if text != "" {
      var rest := text[1..];
      assert text == [text[0]] + rest;
      if space(text[0]) {
        SplitYieldsTokens(space, rest, "");
        assert "" + rest == rest;
      } else {
        SplitYieldsTokens(space, rest, word + [text[0]]);
        assert word + [text[0]] + rest == word + text;
      }
    }
  }

  predicate IsFrom(part: string, text: string) {
    forall c :: c in part ==> c in text
  }

  /* ---------- Strict splitting ---------- */

  lemma {:induction false} SplitOnFirst(c: char, a: string, rest: string)
    requires c !in a
    ensures SplitOn(c, a) == [a]
    ensures SplitOn(c, a + [c] + rest) == [a] + SplitOn(c, rest)
  {
    var s := a + [c] + rest;
    if a == "" {
      assert s[1..] == rest;
    } else {
      assert s[1..] == a[1..] + [c] + rest;
      SplitOnFirst(c, a[1..], rest);
      assert [a[0]] + a[1..] == a;
    }
  }

  /** The parts with what stands in front of each: `lead` for the first, `glue` for the others. */
  function Glued(lead: string, glue: string, parts: seq<string>): (r: seq<string>)
    ensures |r| == |parts|
    ensures forall i :: 0 <= i < |parts| ==> r[i] == (if i == 0 then lead else glue) + parts[i]
    decreases |parts|
  {
    if parts == [] then [] else [lead + parts[0]] + Glued(glue, glue, parts[1..])
  }

  predicate AreFree(c: char, parts: seq<string>) {
    forall i :: 0 <= i < |parts| ==> c !in parts[i]
  }

  lemma JoinHead(c: char, lead: string, glue: string, part: string, rest: string)
    ensures lead + (part + ([c] + glue) + rest) == lead + part + [c] + (glue + rest)
  {
  }

  lemma {:induction false} SplitOnJoined(c: char, lead: string, glue: string, parts: seq<string>)
    requires parts != [] && AreFree(c, parts) && c !in lead && c !in glue
    ensures SplitOn(c, lead + Join([c] + glue, parts)) == Glued(lead, glue, parts)
    decreases |parts|
  {
    SplitOnFirst(c, lead + parts[0], glue + Join([c] + glue, parts[1..]));
    if |parts| > 1 {
      SplitOnJoined(c, glue, glue, parts[1..]);
      JoinHead(c, lead, glue, parts[0], Join([c] + glue, parts[1..]));
    }
  }
}
