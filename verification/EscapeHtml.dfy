/**
 Escaping and truncation of Open Graph values (`escapeHtml` and `truncate` of
 `cloudflare-og-worker/src/html.ts`, and their composition in `generateOGHtml`).
 */
module EscapeHtml {
  /** `s.replace(/c/g, with)` */
  function ReplaceAll(s: string, c: char, with: string): string {
    if s == "" then "" else (if s[0] == c then with else [s[0]]) + ReplaceAll(s[1..], c, with)
  }

  function Escape(s: string): string {
    var s1 := ReplaceAll(s, '&', "&amp;");
    var s2 := ReplaceAll(s1, '<', "&lt;");
    var s3 := ReplaceAll(s2, '>', "&gt;");
    var s4 := ReplaceAll(s3, '"', "&quot;");
    ReplaceAll(s4, '\'', "&#039;")
  }

  const ENTITIES := ["&amp;", "&lt;", "&gt;", "&quot;", "&#039;"]
  const ESCAPED := ['&', '<', '>', '"', '\'']

  /** What one character becomes. */
  function Entity(c: char): string {
    match c
    case '&' => "&amp;"
    case '<' => "&lt;"
    case '>' => "&gt;"
    case '"' => "&quot;"
    case '\'' => "&#039;"
    case _ => [c]
  }

  function EntityByEntity(s: string): string {
    if s == "" then "" else Entity(s[0]) + EntityByEntity(s[1..])
  }

  function Truncate(s: string, maxLength: nat): string
    requires maxLength >= 3
  {
    if |s| <= maxLength then s else s[..maxLength - 3] + "..."
  }

  /* ---------- Five passes are one ---------- */

  lemma {:induction false} ReplaceConcat(a: string, b: string, c: char, with: string)
    ensures ReplaceAll(a + b, c, with) == ReplaceAll(a, c, with) + ReplaceAll(b, c, with)
  {
    if a == "" {
      assert a + b == b;
    } else {
      assert (a + b)[1..] == a[1..] + b;
      ReplaceConcat(a[1..], b, c, with);
    }
  }

  lemma {:induction false} NothingToReplace(s: string, c: char, with: string)
    requires c !in s
    ensures ReplaceAll(s, c, with) == s
  {
    if s != "" {
      NothingToReplace(s[1..], c, with);
    }
  }

  lemma ReplaceOne(d: char, c: char, with: string)
    ensures ReplaceAll([d], c, with) == if d == c then with else [d]
  {
    assert [d][1..] == "" && ReplaceAll("", c, with) == "";
  }

  /** The passes over an entity that is already written. */
  lemma PassesKeep(e: string, passed: nat)
    requires passed <= 5 && forall i :: passed <= i < 5 ==> ESCAPED[i] !in e
    ensures passed <= 1 ==> ReplaceAll(e, '<', "&lt;") == e
    ensures passed <= 2 ==> ReplaceAll(e, '>', "&gt;") == e
    ensures passed <= 3 ==> ReplaceAll(e, '"', "&quot;") == e
    ensures passed <= 4 ==> ReplaceAll(e, '\'', "&#039;") == e
  {
    if passed <= 1 {
      assert ESCAPED[1] == '<';
      NothingToReplace(e, '<', "&lt;");
    }
    if passed <= 2 {
      assert ESCAPED[2] == '>';
      NothingToReplace(e, '>', "&gt;");
    }
    if passed <= 3 {
      assert ESCAPED[3] == '"';
      NothingToReplace(e, '"', "&quot;");
    }
    if passed <= 4 {
      assert ESCAPED[4] == '\'';
      NothingToReplace(e, '\'', "&#039;");
    }
  }

  /** The passes over a character that is none of the first `n` to be replaced. */
  lemma PassesSkip(c: char, n: nat)
    requires n <= 5 && forall i :: 0 <= i < n ==> ESCAPED[i] != c
    ensures n > 0 ==> ReplaceAll([c], '&', "&amp;") == [c]
    ensures n > 1 ==> ReplaceAll([c], '<', "&lt;") == [c]
    ensures n > 2 ==> ReplaceAll([c], '>', "&gt;") == [c]
    ensures n > 3 ==> ReplaceAll([c], '"', "&quot;") == [c]
    ensures n > 4 ==> ReplaceAll([c], '\'', "&#039;") == [c]
  {
    assert ESCAPED[0] == '&' && ESCAPED[1] == '<' && ESCAPED[2] == '>' && ESCAPED[3] == '"' && ESCAPED[4] == '\'';
    ReplaceOne(c, '&', "&amp;");
    ReplaceOne(c, '<', "&lt;");
    ReplaceOne(c, '>', "&gt;");
    ReplaceOne(c, '"', "&quot;");
    ReplaceOne(c, '\'', "&#039;");
  }

  lemma EscapeOne(c: char)
    ensures Escape([c]) == Entity(c)
  {
    match c
    case '&' => ReplaceOne(c, '&', "&amp;"); PassesKeep("&amp;", 1);
    case '<' => PassesSkip(c, 1); ReplaceOne(c, '<', "&lt;"); PassesKeep("&lt;", 2);
    case '>' => PassesSkip(c, 2); ReplaceOne(c, '>', "&gt;"); PassesKeep("&gt;", 3);
    case '"' => PassesSkip(c, 3); ReplaceOne(c, '"', "&quot;"); PassesKeep("&quot;", 4);
    case '\'' => PassesSkip(c, 4); ReplaceOne(c, '\'', "&#039;");
    case _ => PassesSkip(c, 5);
  }

  /** The five chained global replacements are one map over the characters. */
  lemma {:induction false} EscapeIsOnePass(s: string)
    ensures Escape(s) == EntityByEntity(s)
  {
    if s != "" {
      EscapeConcat([s[0]], s[1..]);
      assert [s[0]] + s[1..] == s;
      EscapeOne(s[0]);
      EscapeIsOnePass(s[1..]);
    }
  }

  lemma EscapeConcat(a: string, b: string)
    ensures Escape(a + b) == Escape(a) + Escape(b)
  {
    ReplaceConcat(a, b, '&', "&amp;");
    var a1, b1 := ReplaceAll(a, '&', "&amp;"), ReplaceAll(b, '&', "&amp;");
    ReplaceConcat(a1, b1, '<', "&lt;");
    var a2, b2 := ReplaceAll(a1, '<', "&lt;"), ReplaceAll(b1, '<', "&lt;");
    ReplaceConcat(a2, b2, '>', "&gt;");
    var a3, b3 := ReplaceAll(a2, '>', "&gt;"), ReplaceAll(b2, '>', "&gt;");
    ReplaceConcat(a3, b3, '"', "&quot;");
    var a4, b4 := ReplaceAll(a3, '"', "&quot;"), ReplaceAll(b3, '"', "&quot;");
    ReplaceConcat(a4, b4, '\'', "&#039;");
  }

  /* ---------- Reading back ---------- */

  /** The number of the entity that a text starts with, or -1. */
  function EntityAt(t: string): (k: int)
    ensures -1 <= k < 5
    ensures k >= 0 ==> ENTITIES[k] <= t
    ensures k < 0 ==> forall i :: 0 <= i < 5 ==> !(ENTITIES[i] <= t)
  {
    if ENTITIES[0] <= t then 0
    else if ENTITIES[1] <= t then 1
    else if ENTITIES[2] <= t then 2
    else if ENTITIES[3] <= t then 3
    else if ENTITIES[4] <= t then 4
    else -1
  }

  /** One pass that reads the five entities and leaves everything else. */
  function Unescape(t: string): string {
    if t == "" then ""
    else
      var k := EntityAt(t);
      if k >= 0 then [ESCAPED[k]] + Unescape(t[|ENTITIES[k]|..]) else [t[0]] + Unescape(t[1..])
  }

  /** No markup character, and every ampersand begins one of the five entities. */
  ghost predicate IsEscaped(t: string) {
    forall i :: 0 <= i < |t| ==>
      t[i] != '<' && t[i] != '>' && t[i] != '"' && t[i] != '\'' && (t[i] == '&' ==> EntityAt(t[i..]) >= 0)
  }

  /** An entity starts with an ampersand, has no other one and no markup character; and no entity starts another. */
  lemma EntityShape(k: nat, rest: string)
    requires k < 5
    ensures ENTITIES[k] == Entity(ESCAPED[k]) && ENTITIES[k] != "" && ENTITIES[k][0] == '&'
    ensures forall i :: 1 <= i < |ENTITIES[k]| ==> ENTITIES[k][i] !in "&<>\"'"
    ensures EntityAt(ENTITIES[k] + rest) == k
  {
    var e := ENTITIES[k];
    var t := e + rest;
    assert t[1] == e[1] && t[2] == e[2];
    if k == 0 {
      assert t[1] == 'a';
    }
    assert e <= t;
  }

  lemma PlainShape(c: char, rest: string)
    requires c !in ESCAPED
    ensures Entity(c) == [c] && EntityAt([c] + rest) < 0
  {
    assert ESCAPED[0] == '&' && ESCAPED[1] == '<' && ESCAPED[2] == '>' && ESCAPED[3] == '"' && ESCAPED[4] == '\'';
    assert ([c] + rest)[0] != '&';
  }

  lemma UnescapeStep(c: char, rest: string)
    ensures Unescape(Entity(c) + rest) == [c] + Unescape(rest)
  {
    if k: nat :| k < 5 && ESCAPED[k] == c {
      EntityShape(k, rest);
      assert (ENTITIES[k] + rest)[|ENTITIES[k]|..] == rest;
    } else {
      PlainShape(c, rest);
      assert ([c] + rest)[1..] == rest;
    }
  }

  /** One-pass unescaping restores the input. */
  lemma {:induction false} EscapeReadsBack(s: string)
    ensures Unescape(Escape(s)) == s
  {
    EscapeIsOnePass(s);
    if s != "" {
      UnescapeStep(s[0], EntityByEntity(s[1..]));
      EscapeIsOnePass(s[1..]);
      EscapeReadsBack(s[1..]);
    }
  }

  lemma IsEscapedConcat(e: string, rest: string)
    requires (exists k :: 0 <= k < 5 && ENTITIES[k] == e) || (exists c :: c !in ESCAPED && e == [c])
    ensures IsEscaped(e + rest) <==> IsEscaped(rest)
  {
    var t := e + rest;
    assert forall i :: 0 <= i < |rest| ==> t[|e| + i] == rest[i] && t[|e| + i..] == rest[i..];
    if k :| 0 <= k < 5 && ENTITIES[k] == e {
      EntityShape(k, rest);
      assert t[0..] == t;
    } else {
      var c :| c !in ESCAPED && e == [c];
      PlainShape(c, rest);
      assert ESCAPED[0] == '&' && ESCAPED[1] == '<' && ESCAPED[2] == '>' && ESCAPED[3] == '"' && ESCAPED[4] == '\'';
    }
    assert forall i :: |e| <= i < |t| ==> t[i] == rest[i - |e|] && t[i..] == rest[i - |e|..];
  }

  lemma {:induction false} EscapeIsEscaped(s: string)
    ensures IsEscaped(Escape(s))
  {
    EscapeIsOnePass(s);
    if s != "" {
      EscapeIsOnePass(s[1..]);
      EscapeIsEscaped(s[1..]);
      if k: nat :| k < 5 && ESCAPED[k] == s[0] {
        EntityShape(k, "");
      } else {
        PlainShape(s[0], "");
      }
      IsEscapedConcat(Entity(s[0]), EntityByEntity(s[1..]));
    }
  }

  /** Escaped text is the escape of what it reads back to, so `IsEscaped` describes the outputs exactly. */
  lemma {:induction false} EscapedIsEscape(t: string)
    ensures IsEscaped(t) <==> Escape(Unescape(t)) == t
  {
    if IsEscaped(t) {
      EscapeRestores(t);
    }
    EscapeIsEscaped(Unescape(t));
  }

  lemma {:induction false} EscapeRestores(t: string)
    requires IsEscaped(t)
    ensures Escape(Unescape(t)) == t
  {
    EscapeIsOnePass(Unescape(t));
    if t != "" {
      assert t[0..] == t;
      var k := EntityAt(t);
      var e := if k >= 0 then ENTITIES[k] else [t[0]];
      var rest := t[|e|..];
      assert t == e + rest;
      if k >= 0 {
        EntityShape(k, rest);
      } else {
        assert t[0] !in ESCAPED;
        PlainShape(t[0], rest);
      }
      IsEscapedConcat(e, rest);
      EscapeRestores(rest);
      EscapeIsOnePass(Unescape(rest));
      assert Unescape(t)[1..] == Unescape(rest);
    }
  }

  /* ---------- In the page ---------- */

  /** The text up to the next double quote. */
  function UpToQuote(t: string): string {
    if t == "" || t[0] == '"' then "" else [t[0]] + UpToQuote(t[1..])
  }

  lemma {:induction false} QuoteEnds(value: string, after: string)
    requires '"' !in value
    ensures UpToQuote(value + "\"" + after) == value
  {
    var t := value + "\"" + after;
    if value != "" {
      assert t[1..] == value[1..] + "\"" + after;
      QuoteEnds(value[1..], after);
    }
  }

  /**
   A description written into an attribute ends at the attribute's own quote, and reads back as at
   most 200 characters: the description, or a prefix of it and an ellipsis.
   */
  lemma DescriptionReadsBack(description: string, after: string)
    ensures var shown := Unescape(UpToQuote(Escape(Truncate(description, 200)) + "\"" + after));
            && |shown| <= 200
            && if |description| <= 200 then shown == description
               else shown == description[..197] + "..." && |shown| == 200
  {
    var escaped := Escape(Truncate(description, 200));
    EscapeIsEscaped(Truncate(description, 200));
    QuoteEnds(escaped, after);
    EscapeReadsBack(Truncate(description, 200));
  }
}
