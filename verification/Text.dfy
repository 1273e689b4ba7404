/** Text as characters and as lines: a text of n newlines is n + 1 lines joined by newlines. */
module Text {
  /** What Python's `str.isspace`, `strip` and `\s` count as white space. */
  predicate IsSpace(c: char) {
    || '\t' <= c <= '\r' || '\U{001C}' <= c <= ' ' || c == '\U{0085}' || c == '\U{00A0}' || c == '\U{1680}'
    || '\U{2000}' <= c <= '\U{200A}' || c == '\U{2028}' || c == '\U{2029}' || c == '\U{202F}' || c == '\U{205F}' ||
      c == '\U{3000}'
  }

  predicate IsBlank(s: string) {
    forall i :: 0 <= i < |s| ==> IsSpace(s[i])
  }

  predicate IsLine(s: string) {
    '\n' !in s
  }

  predicate AreLines(lines: seq<string>) {
    forall i :: 0 <= i < |lines| ==> IsLine(lines[i])
  }

  predicate StartsWith(s: string, prefix: string) {
    |prefix| <= |s| && s[..|prefix|] == prefix
  }

  /** `separator.join(parts)` */
  function Join(separator: string, parts: seq<string>): string {
    if parts == [] then ""
    else if |parts| == 1 then parts[0]
    else parts[0] + separator + Join(separator, parts[1..])
  }

  /** `"\n".join(lines)` */
  function Unlines(lines: seq<string>): string {
    Join("\n", lines)
  }

  /** `s.split(c)` */
  function SplitOn(c: char, s: string): (parts: seq<string>)
    ensures parts != [] && forall i :: 0 <= i < |parts| ==> c !in parts[i]
  {
    if s == "" then [""]
    else
      var rest := SplitOn(c, s[1..]);
      if s[0] == c then [""] + rest else [[s[0]] + rest[0]] + rest[1..]
  }

  /** `text.split("\n")` */
  function Lines(text: string): (lines: seq<string>)
    ensures lines != [] && AreLines(lines)
  {
    SplitOn('\n', text)
  }

  lemma {:induction false} UnlinesOfLines(text: string)
    ensures Unlines(Lines(text)) == text
  {
    if text != "" {
      UnlinesOfLines(text[1..]);
      var rest := Lines(text[1..]);
      if text[0] == '\n' {
        assert ([""] + rest)[1..] == rest;
        assert "" + "\n" + text[1..] == text;
      } else {
        var lines := [[text[0]] + rest[0]] + rest[1..];
        assert lines[1..] == rest[1..];
        assert text == [text[0]] + text[1..];
        if |rest| > 1 {
          assert [text[0]] + (rest[0] + "\n" + Unlines(rest[1..])) == ([text[0]] + rest[0]) + "\n" + Unlines(rest[1..]);
        }
      }
    }
  }

  /** Joining two non-empty lists of lines. */
  lemma {:induction false} UnlinesConcat(a: seq<string>, b: seq<string>)
    requires a != [] && b != []
    ensures Unlines(a + b) == Unlines(a) + "\n" + Unlines(b)
  {
    if |a| == 1 {
      assert (a + b)[1..] == b;
    } else {
      assert (a + b)[1..] == a[1..] + b;
      UnlinesConcat(a[1..], b);
      assert Unlines(a + b) == a[0] + "\n" + (Unlines(a[1..]) + "\n" + Unlines(b));
      assert a[0] + "\n" + (Unlines(a[1..]) + "\n" + Unlines(b)) == (a[0] + "\n" + Unlines(a[1..])) + "\n" + Unlines(b);
    }
  }

  /** Splitting what was joined gives the lines back. */
  lemma {:induction false} LinesOfUnlines(lines: seq<string>)
    requires lines != [] && AreLines(lines)
    ensures Lines(Unlines(lines)) == lines
    decreases |Unlines(lines)|
  {
    var text := Unlines(lines);
    if lines[0] == "" {
      if |lines| == 1 {
        assert lines == [""];
      } else {
        assert text == "\n" + Unlines(lines[1..]);
        assert text[1..] == Unlines(lines[1..]);
        LinesOfUnlines(lines[1..]);
        assert lines == [""] + lines[1..];
      }
    } else {
      var shorter := [lines[0][1..]] + lines[1..];
      assert shorter[1..] == lines[1..];
      assert text[0] == lines[0][0] && text[0] in lines[0];
      assert text[1..] == Unlines(shorter);
      forall i | 0 <= i < |shorter| ensures IsLine(shorter[i]) {
        if i == 0 {
          assert forall c :: c in lines[0][1..] ==> c in lines[0];
        }
      }
      LinesOfUnlines(shorter);
      assert lines[0] == [lines[0][0]] + lines[0][1..];
      assert lines == [lines[0]] + lines[1..];
    }
  }
}
