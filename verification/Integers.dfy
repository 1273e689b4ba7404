/** Python's `int(text)` and `str(integer)`. */
module Integers {
  import opened Wrappers
  import opened Text
  import opened Words
  import opened Decimals

  /** What `int` skips at the ends: of the ASCII characters only what C counts as white space. */
  predicate IntSpace(c: char) {
    '\t' <= c <= '\r' || c == ' ' || (c >= '\U{0080}' && IsSpace(c))
  }

  /** Digits, with single underscores between them allowed. */
  predicate IsNumeral(s: string) {
    && s != "" && IsDigit(s[0])
    && (|s| == 1 || IsNumeral(s[1..]) || (|s| > 2 && s[1] == '_' && IsNumeral(s[2..])))
  }

  function DigitsOf(s: string): (r: string)
    ensures AreDigits(r)
  {
    if s == "" then "" else (if IsDigit(s[0]) then [s[0]] else "") + DigitsOf(s[1..])
  }

  /** `int(s)`; `None` is the ValueError. */
  function ParseInt(s: string): Option<int> {
    var t := Strip(IntSpace, s);
    var u := if t != "" && (t[0] == '+' || t[0] == '-') then t[1..] else t;
    if !IsNumeral(u) then None
    else
      var n: int := Value(DigitsOf(u));
      Some(if t != "" && t[0] == '-' then -n else n)
  }

  /** `str(i)` */
  function ShowInt(i: int): string {
    if i < 0 then "-" + Show(-i) else Show(i)
  }

  lemma {:induction false} PlainDigits(s: string)
    requires AreDigits(s)
    ensures DigitsOf(s) == s && (s != "" ==> IsNumeral(s))
  {
    if s != "" {
      PlainDigits(s[1..]);
    }
  }

  lemma DigitsAreNoSpace(c: char)
    requires IsDigit(c)
    ensures !IsSpace(c) && c < '\U{0080}' && c != ',' && c != ':' && c != '+' && c != '-'
  {
  }

  lemma StrippedStays(space: Space, s: string)
    requires IsStripped(space, s)
    ensures Strip(space, s) == s
  {
  }

  lemma {:induction false} DigitsAreNumeral(s: string)
    requires s != "" && AreDigits(s)
    ensures Strip(IntSpace, s) == s && IsNumeral(s) && s[0] != '+' && s[0] != '-'
  {
    forall i | 0 <= i < |s| ensures !IntSpace(s[i]) && s[i] != '+' && s[i] != '-' {
      DigitsAreNoSpace(s[i]);
    }
    StrippedStays(IntSpace, s);
    PlainDigits(s);
  }

  lemma ShownParses(n: nat)
    ensures ParseInt(Show(n)) == Some(n)
  {
    DigitsAreNumeral(Show(n));
    PlainDigits(Show(n));
    ValueOfShow(n);
  }
}
