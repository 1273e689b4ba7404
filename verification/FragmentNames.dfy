/**
 What a fragment's file name and content say: which names give which category, what its body is,
 which error the others give, and that a collection files every fragment under the category in its
 name.
 */
module FragmentNames {
  import opened Wrappers
  import opened Text
  import opened Words
  import opened Changelog
  import opened ChangelogFragments

  const KEYS: seq<string> := ["added", "changed", "deprecated", "removed", "fixed", "security"]

  /* ---------- Names and contents ---------- */

  /** The name is the slug, a dot, the type and `.md`, with or without a final newline. */
  predicate IsName(name: string, slug: string, suffix: string) {
    && slug != "" && '\n' !in slug
    && (name == slug + "." + suffix + ".md" || name == slug + "." + suffix + ".md" + "\n")
  }

  /** The key, with any of its letters as capitals. */
  predicate Spells(suffix: string, key: string) {
    |suffix| == |key| && forall i :: 0 <= i < |key| ==>
      suffix[i] == key[i] || (suffix[i] < 'a' && suffix[i] as int + 32 == key[i] as int)
  }

  ghost predicate HasType(name: string, suffix: string) {
    exists slug: string :: IsName(name, slug, suffix)
  }

  /** The name's type is this category. */
  ghost predicate IsNamed(name: string, key: string) {
    key in KEYS && exists suffix: string :: HasType(name, suffix) && Spells(suffix, key)
  }

  /** The content without the white space at its ends. */
  ghost predicate IsCore(content: string, body: string) {
    && (body == "" || (!IsSpace(body[0]) && !IsSpace(body[|body| - 1])))
    && exists before: string, after: string :: content == before + body + after && IsBlank(before) && IsBlank(after)
  }

  /* ---------- Stripping ---------- */

  lemma {:induction false} LeftIsCut(s: string) returns (before: string)
    ensures s == before + StripLeft(IsSpace, s) && IsBlank(before)
  {
    if s != "" && IsSpace(s[0]) {
      before := LeftIsCut(s[1..]);
      before := [s[0]] + before;
    } else {
      before := "";
    }
  }

  lemma {:induction false} RightIsCut(s: string) returns (after: string)
    ensures s == StripRight(IsSpace, s) + after && IsBlank(after)
  {
    if s != "" && IsSpace(s[|s| - 1]) {
      after := RightIsCut(s[..|s| - 1]);
      after := after + [s[|s| - 1]];
    } else {
      after := "";
    }
  }

  lemma {:induction false} CutsLeft(before: string, s: string)
    requires IsBlank(before) && (s == "" || !IsSpace(s[0]))
    ensures StripLeft(IsSpace, before + s) == s
  {
    if before == "" {
      assert before + s == s;
    } else {
      assert (before + s)[1..] == before[1..] + s;
      CutsLeft(before[1..], s);
    }
  }

  lemma {:induction false} CutsRight(s: string, after: string)
    requires IsBlank(after) && (s == "" || !IsSpace(s[|s| - 1]))
    ensures StripRight(IsSpace, s + after) == s
  {
    if after == "" {
      assert s + after == s;
    } else {
      assert (s + after)[..|s + after| - 1] == s + after[..|after| - 1];
      CutsRight(s, after[..|after| - 1]);
    }
  }

  lemma {:induction false} BlankIsCut(s: string)
    requires IsBlank(s)
    ensures StripLeft(IsSpace, s) == ""
  {
    if s != "" {
      BlankIsCut(s[1..]);
    }
  }

  lemma StripIsCore(content: string)
    ensures IsCore(content, Strip(IsSpace, content))
  {
    StripStrips(IsSpace, content);
    var before := LeftIsCut(content);
    var after := RightIsCut(StripLeft(IsSpace, content));
    assert content == before + Strip(IsSpace, content) + after;
  }

  lemma CoreIsStrip(content: string, body: string)
    requires IsCore(content, body)
    ensures Strip(IsSpace, content) == body
  {
    var before: string, after: string :| content == before + body + after && IsBlank(before) && IsBlank(after);
    if body == "" {
      assert IsBlank(content);
      BlankIsCut(content);
    } else {
      assert content == before + (body + after);
      CutsLeft(before, body + after);
      CutsRight(body, after);
    }
  }

  lemma StripExactly(content: string, body: string)
    ensures Strip(IsSpace, content) == body <==> IsCore(content, body)
  {
    StripIsCore(content);
    if IsCore(content, body) {
      CoreIsStrip(content, body);
    }
  }

  /* ---------- Types ---------- */

  lemma EarlierDotIsInside(a: string, b: string, c: string, d: string)
    requires a + "." + b == c + "." + d && |a| < |c|
    ensures '.' in b
  {
    assert (c + "." + d)[|c|] == '.';
    assert (a + "." + b)[|c|] == b[|c| - |a| - 1];
  }

  lemma LastDotIsUnique(a: string, b: string, c: string, d: string)
    requires a + "." + b == c + "." + d && '.' !in b && '.' !in d
    ensures a == c && b == d
  {
    var s, t := a + "." + b, c + "." + d;
    if |a| < |c| {
      EarlierDotIsInside(a, b, c, d);
    } else if |c| < |a| {
      EarlierDotIsInside(c, d, a, b);
    }
    assert a == s[..|a|] && c == t[..|c|];
    assert b == s[|a| + 1..] && d == t[|c| + 1..];
  }

  lemma LettersHaveNoDot(s: string)
    requires IsLetters(s)
    ensures '.' !in s
  {
  }

  function Base(name: string): string {
    if name != "" && name[|name| - 1] == '\n' then name[..|name| - 1] else name
  }

  lemma BaseOfName(name: string, slug: string, suffix: string)
    ensures slug != "" && '\n' !in slug && Base(name) == slug + "." + suffix + ".md" <==> IsName(name, slug, suffix)
  {
    var base := slug + "." + suffix + ".md";
    assert base[|base| - 1] == 'd';
    if name == base + "\n" {
      assert name[..|name| - 1] == base;
    }
    if name != "" && name[|name| - 1] == '\n' {
      assert name == name[..|name| - 1] + "\n";
    }
  }

  /** The type of a name is read if and only if the name has that form. */
  lemma TypeExactly(name: string, suffix: string)
    ensures TypeOf(name) == Some(suffix) <==> HasType(name, suffix) && IsLetters(suffix)
  {
    var base := Base(name);
    if TypeOf(name) == Some(suffix) {
      var stem := base[..|base| - 3];
      var slug := SplitAtLastDot(stem).value.0;
      assert base == stem + ".md" == slug + "." + suffix + ".md";
      BaseOfName(name, slug, suffix);
    }
    if HasType(name, suffix) && IsLetters(suffix) {
      var slug: string :| IsName(name, slug, suffix);
      BaseOfName(name, slug, suffix);
      var stem := slug + "." + suffix;
      assert base == stem + ".md" && base[..|base| - 3] == stem && base[|base| - 3..] == ".md";
      assert stem[|slug|] == '.';
      LettersHaveNoDot(suffix);
      var split := SplitAtLastDot(stem);
      LastDotIsUnique(slug, suffix, split.value.0, split.value.1);
    }
  }

  lemma LowerIs(word: string, key: string)
    requires |word| == |key| && forall i :: 0 <= i < |key| ==> LowerChar(word[i]) == key[i]
    ensures Lower(word) == key
  {
  }

  predicate IsSmall(key: string) {
    key != "" && forall i :: 0 <= i < |key| ==> 'a' <= key[i] <= 'z'
  }

  lemma LettersMatch(i: nat, k: nat)
    requires i < 6 && k < |KEYS[i]|
    ensures |CATEGORIES[i]| == |KEYS[i]|
    ensures LowerChar(CATEGORIES[i][k]) == KEYS[i][k] && 'a' <= KEYS[i][k] <= 'z'
    ensures if k == 0 then 'A' <= CATEGORIES[i][k] <= 'Z' else CATEGORIES[i][k] == KEYS[i][k]
  {
  }

  /** The six headers are the six keys with a capital in front. */
  lemma KeyOfHeader(i: nat)
    requires i < 6
    ensures |CATEGORIES| == |KEYS| == 6 && Lower(CATEGORIES[i]) == KEYS[i] && IsSmall(KEYS[i])
    ensures |CATEGORIES[i]| == |KEYS[i]| && 'A' <= CATEGORIES[i][0] <= 'Z' && CATEGORIES[i][1..] == KEYS[i][1..]
  {
    assert |KEYS[i]| > 0;
    LettersMatch(i, 0);
    forall k | 0 <= k < |KEYS[i]|
      ensures LowerChar(CATEGORIES[i][k]) == KEYS[i][k] && 'a' <= KEYS[i][k] <= 'z'
      ensures k > 0 ==> CATEGORIES[i][k] == KEYS[i][k]
    {
      LettersMatch(i, k);
    }
    LowerIs(CATEGORIES[i], KEYS[i]);
  }

  lemma KeysAreThese(key: string)
    ensures IsKey(CATEGORIES, key) <==> key in KEYS
    ensures key in KEYS ==> IsSmall(key)
  {
    KeyOfHeader(0);
    if i :| 0 <= i < |CATEGORIES| && key == Lower(CATEGORIES[i]) {
      KeyOfHeader(i);
      assert KEYS[i] in KEYS;
    }
    if key in KEYS {
      var i :| 0 <= i < |KEYS| && KEYS[i] == key;
      KeyOfHeader(i);
    }
  }

  lemma SpellingIsLower(suffix: string, key: string)
    requires IsSmall(key)
    ensures Spells(suffix, key) <==> IsLetters(suffix) && Lower(suffix) == key
  {
    if Spells(suffix, key) {
      LowerIs(suffix, key);
    }
    if Lower(suffix) == key && IsLetters(suffix) {
      forall i | 0 <= i < |key|
        ensures suffix[i] == key[i] || (suffix[i] < 'a' && suffix[i] as int + 32 == key[i] as int)
      {
        assert Lower(suffix)[i] == LowerChar(suffix[i]);
      }
    }
  }

  /* ---------- One fragment ---------- */

  /** The name's type is one of the six, and reading it gives this key. */
  lemma NamedExactly(name: string, key: string)
    ensures IsNamed(name, key) <==> TypeOf(name).Some? && Lower(TypeOf(name).value) == key && IsKey(CATEGORIES, key)
  {
    KeysAreThese(key);
    if TypeOf(name).Some? {
      TypeExactly(name, TypeOf(name).value);
      if key in KEYS {
        SpellingIsLower(TypeOf(name).value, key);
      }
    }
    if IsNamed(name, key) {
      var suffix: string :| HasType(name, suffix) && Spells(suffix, key);
      SpellingIsLower(suffix, key);
      TypeExactly(name, suffix);
    }
  }

  /**
   A fragment gives a category and a body if and only if its name is `<slug>.<type>.md`, with the
   type one of the six in any case, and the body is what is left of its content, and not empty.
   */
  lemma ParsesExactly(file: FragmentFile, key: string, body: string)
    ensures ParseFragment(file) == Ok((key, body)) <==>
            IsNamed(file.name, key) && IsCore(file.content, body) && body != ""
  {
    NamedExactly(file.name, key);
    StripExactly(file.content, body);
  }

  ghost predicate HasLetterType(name: string) {
    exists suffix: string :: HasType(name, suffix) && IsLetters(suffix)
  }

  ghost predicate HasCategory(name: string) {
    exists key :: IsNamed(name, key)
  }

  lemma LetterTypeExactly(name: string)
    ensures HasLetterType(name) <==> TypeOf(name).Some?
  {
    if HasLetterType(name) {
      var suffix: string :| HasType(name, suffix) && IsLetters(suffix);
      TypeExactly(name, suffix);
    }
    if TypeOf(name).Some? {
      TypeExactly(name, TypeOf(name).value);
    }
  }

  lemma CategoryExactly(name: string)
    ensures HasCategory(name) <==> TypeOf(name).Some? && IsKey(CATEGORIES, Lower(TypeOf(name).value))
  {
    if HasCategory(name) {
      var key :| IsNamed(name, key);
      NamedExactly(name, key);
    }
    if TypeOf(name).Some? {
      NamedExactly(name, Lower(TypeOf(name).value));
    }
  }

  lemma BlankExactly(content: string)
    ensures Strip(IsSpace, content) == "" <==> IsBlank(content)
  {
    StripExactly(content, "");
    if IsBlank(content) {
      assert content == content + "" + "" && IsBlank("");
      assert IsCore(content, "");
    }
    if IsCore(content, "") {
      var before: string, after: string :| content == before + "" + after && IsBlank(before) && IsBlank(after);
    }
  }

  /** Which error it is otherwise. */
  lemma FailsExactly(file: FragmentFile)
    ensures ParseFragment(file) == Err(BadName) <==> !HasLetterType(file.name)
    ensures ParseFragment(file) == Err(UnknownType) <==> HasLetterType(file.name) && !HasCategory(file.name)
    ensures ParseFragment(file) == Err(EmptyBody) <==> HasCategory(file.name) && IsBlank(file.content)
  {
    LetterTypeExactly(file.name);
    CategoryExactly(file.name);
    BlankExactly(file.content);
  }

  /* ---------- A collection ---------- */

  predicate IsAscending(places: seq<nat>) {
    forall j, k :: 0 <= j < k < |places| ==> places[j] < places[k]
  }

  /** What the files of a collection that succeeds are parsed to. */
  predicate AreParsed(files: seq<FragmentFile>, parsed: seq<(string, string)>) {
    |parsed| == |files| && forall i :: 0 <= i < |files| ==> ParseFragment(files[i]) == Ok(parsed[i])
  }

  function BodiesIn(parsed: seq<(string, string)>, key: string): seq<string> {
    if parsed == [] then []
    else
      BodiesIn(parsed[..|parsed| - 1], key) +
      if parsed[|parsed| - 1].0 == key then [parsed[|parsed| - 1].1] else []
  }

  lemma {:induction false} BodiesAreParsed(files: seq<FragmentFile>, parsed: seq<(string, string)>, key: string)
    requires AreParsed(files, parsed)
    ensures Bodies(files, key) == BodiesIn(parsed, key)
  {
    if files != [] {
      BodiesAreParsed(files[..|files| - 1], parsed[..|files| - 1], key);
    }
  }

  /** The places, in order, of the files of one category. */
  predicate ArePlaces(parsed: seq<(string, string)>, key: string, places: seq<nat>) {
    && IsAscending(places)
    && (forall k :: 0 <= k < |places| ==> places[k] < |parsed| && parsed[places[k]].0 == key)
    && (forall i: nat {:trigger parsed[i]} :: i < |parsed| && parsed[i].0 == key ==> i in places)
  }

  lemma OneMorePlace(parsed: seq<(string, string)>, key: string, before: seq<nat>, n: nat)
    requires |parsed| == n + 1 && ArePlaces(parsed[..n], key, before)
    ensures ArePlaces(parsed, key, before + if parsed[n].0 == key then [n] else [])
  {
    var places := before + if parsed[n].0 == key then [n] else [];
    forall i: nat | i < |parsed| && parsed[i].0 == key ensures i in places {
      if i < n {
        assert parsed[..n][i] == parsed[i];
        assert i in before;
      } else {
        assert places[|before|] == n;
      }
    }
  }

  lemma {:induction false} FiledByCategory(parsed: seq<(string, string)>, key: string) returns (places: seq<nat>)
    ensures ArePlaces(parsed, key, places) && |places| == |BodiesIn(parsed, key)|
    ensures forall k :: 0 <= k < |places| ==> parsed[places[k]].1 == BodiesIn(parsed, key)[k]
  {
    if parsed == [] {
      places := [];
    } else {
      var n := |parsed| - 1;
      places := FiledByCategory(parsed[..n], key);
      OneMorePlace(parsed, key, places, n);
      places := places + if parsed[n].0 == key then [n] else [];
    }
  }

  lemma ParsedIsNamed(file: FragmentFile, key: string)
    requires ParseFragment(file).Ok?
    ensures ParseFragment(file).value.0 == key <==> IsNamed(file.name, key)
    ensures IsCore(file.content, ParseFragment(file).value.1)
  {
    var (category, body) := ParseFragment(file).value;
    ParsesExactly(file, category, body);
    NamedExactly(file.name, key);
  }

  /**
   In a collection that succeeds, the entries of a category are the bodies of exactly the files whose
   names have it, in file order.
   */
  lemma FiledByName(files: seq<FragmentFile>, key: string) returns (places: seq<nat>)
    requires AllParse(files)
    ensures |places| == |Bodies(files, key)| && IsAscending(places)
    ensures forall k :: 0 <= k < |places| ==> places[k] < |files| && IsNamed(files[places[k]].name, key)
    ensures forall k :: 0 <= k < |places| ==> IsCore(files[places[k]].content, Bodies(files, key)[k])
    ensures forall i: nat {:trigger i in places} :: i < |files| && IsNamed(files[i].name, key) ==> i in places
  {
    var parsed := seq(|files|, i requires 0 <= i < |files| => ParseFragment(files[i]).value);
    BodiesAreParsed(files, parsed, key);
    places := FiledByCategory(parsed, key);
    forall i | 0 <= i < |files|
      ensures parsed[i].0 == key <==> IsNamed(files[i].name, key)
      ensures IsCore(files[i].content, parsed[i].1)
    {
      ParsedIsNamed(files[i], key);
    }
  }
}
