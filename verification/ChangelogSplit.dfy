/**
 Splitting a folded changelog again. The outer parts come back exactly, unless a
 category's entries were put at the very end of the section: then they end in the
 middle of a line, the next section's header is glued to it, and the split misses it.
 */
module ChangelogSplit {
  import opened Wrappers
  import opened Sequences
  import opened Text
  import opened Changelog
  import opened ChangelogLayout
  import opened ChangelogTheorems

  predicate EndsLine(s: string) {
    s != "" && s[|s| - 1] == '\n'
  }

  /* ---------- Searching for a section ---------- */

  /** A match that lies inside `a` is found whatever follows. */
  lemma {:induction false} FindPrefixStable(a: string, b: string, c: string, prefix: string, bol: bool)
    requires FindPrefix(a + b, prefix, bol).Some? && FindPrefix(a + b, prefix, bol).value + |prefix| <= |a|
    requires prefix != ""
    ensures FindPrefix(a + c, prefix, bol) == FindPrefix(a + b, prefix, bol)
  {
    var h := FindPrefix(a + b, prefix, bol).value;
    if |prefix| <= |a| {
      assert (a + b)[..|prefix|] == a[..|prefix|] == (a + c)[..|prefix|];
    }
    if h > 0 {
      assert (a + b)[1..] == a[1..] + b && (a + c)[1..] == a[1..] + c;
      FindPrefixStable(a[1..], b, c, prefix, a[0] == '\n');
    }
  }

  /** Before the first match there is none. */
  lemma {:induction false} NoneBeforeFirst(text: string, prefix: string, bol: bool, n: nat)
    requires n <= |text| && prefix != ""
    requires FindPrefix(text, prefix, bol).Some? ==> n <= FindPrefix(text, prefix, bol).value
    ensures FindPrefix(text[..n], prefix, bol) == None
  {
    if StartsWith(text[..n], prefix) {
      assert text[..n][..|prefix|] == text[..|prefix|];
    }
    if n > 0 {
      assert text[..n][1..] == text[1..][..n - 1];
      NoneBeforeFirst(text[1..], prefix, text[0] == '\n', n - 1);
    }
  }

  /** A match stands at a line start. */
  lemma {:induction false} MatchStartsLine(text: string, prefix: string, bol: bool)
    requires FindPrefix(text, prefix, bol).Some?
    ensures var n := FindPrefix(text, prefix, bol).value;
            && StartsWith(text[n..], prefix)
            && (if n == 0 then bol else text[n - 1] == '\n')
  {
    var n := FindPrefix(text, prefix, bol).value;
    if !(bol && StartsWith(text, prefix)) {
      MatchStartsLine(text[1..], prefix, text[0] == '\n');
      assert text[1..][n - 1..] == text[n..];
    } else {
      assert text[0..] == text;
    }
  }

  /** Text without a match, ending with its line, then a match: it is found right there. */
  lemma {:induction false} FoundBehind(s: string, t: string, prefix: string, bol: bool)
    requires FindPrefix(s, prefix, bol) == None && IsLine(prefix) && prefix != ""
    requires if s == "" then bol else EndsLine(s)
    requires StartsWith(t, prefix)
    ensures FindPrefix(s + t, prefix, bol) == Some(|s|)
  {
    if s == "" {
      assert s + t == t;
    } else {
      assert (s + t)[1..] == s[1..] + t;
      PrefixIsInside(s, t, prefix);
      FoundBehind(s[1..], t, prefix, s[0] == '\n');
    }
  }

  lemma PrefixIsInside(s: string, t: string, prefix: string)
    requires EndsLine(s) && IsLine(prefix)
    ensures StartsWith(s + t, prefix) <==> StartsWith(s, prefix)
  {
    if |prefix| <= |s| {
      assert (s + t)[..|prefix|] == s[..|prefix|];
    } else {
      assert prefix[|s| - 1] in prefix;
      assert |prefix| <= |s + t| ==> (s + t)[..|prefix|][|s| - 1] == '\n';
    }
  }

  /** No line opens a section: nothing is found, and conversely. */
  lemma {:induction false} FindPrefixByLine(lines: seq<string>, prefix: string, bol: bool)
    requires lines != [] && AreLines(lines) && IsLine(prefix) && prefix != ""
    ensures FindPrefix(Unlines(lines), prefix, bol) == None <==>
            NoLineStartsWith(lines[1..], prefix) && (bol ==> !StartsWith(lines[0], prefix))
    decreases |Unlines(lines)|
  {
    var text := Unlines(lines);
    PrefixIsInFirstLine(lines, prefix);
    if text == "" {
      SpacesOfNothing(lines);
    } else if lines[0] == "" {
      UnlinesTail(lines);
      FindPrefixByLine(lines[1..], prefix, true);
      assert lines[1..] == [lines[1]] + lines[1..][1..];
    } else {
      UnlinesTail(lines);
      CutLinesAreLines(lines, 1);
      assert text[0] != '\n' by { assert text[0] == lines[0][0] && lines[0][0] in lines[0]; }
      FindPrefixByLine([lines[0][1..]] + lines[1..], prefix, false);
      assert ([lines[0][1..]] + lines[1..])[1..] == lines[1..];
    }
  }

  lemma {:induction false} LineEndIs(text: string, n: nat)
    requires n <= |text| && '\n' !in text[..n]
    requires n == |text| || text[n] == '\n'
    ensures LineEnd(text) == n
  {
    if n > 0 {
      assert text[0] in text[..n];
      assert forall c :: c in text[1..][..n - 1] ==> c in text[..n];
      LineEndIs(text[1..], n - 1);
    }
  }

  lemma {:induction false} LineEndStops(text: string)
    ensures '\n' !in text[..LineEnd(text)]
    ensures LineEnd(text) < |text| ==> text[LineEnd(text)] == '\n'
  {
    if text != "" && text[0] != '\n' {
      LineEndStops(text[1..]);
      assert text[..LineEnd(text)] == [text[0]] + text[1..][..LineEnd(text) - 1];
    }
  }

  /* ---------- The shape of a split ---------- */

  /** `before` ends with the header line that the search finds. */
  ghost predicate EndsWithHeader(before: string, rest: string) {
    var found := FindPrefix(before + rest, UNRELEASED, true);
    && found.Some? && found.value + |UNRELEASED| <= |before|
    && '\n' !in before[found.value..]
  }

  lemma SplitShape(text: string)
    requires SplitUnreleased(text).Some?
    ensures var (before, body, after) := SplitUnreleased(text).value;
            && text == before + (body + after)
            && EndsWithHeader(before, body + after)
            && (body == "" || body[0] == '\n')
            && FindPrefix(body, SECTION, false) == None
            && (after != "" ==> EndsLine(body) && StartsWith(after, SECTION))
  {
    var start := HeaderLineEnd(text).value;
    var before, rest := text[..start], text[start..];
    var n := SectionEnd(rest);
    HeaderShape(text);
    RestShape(rest);
    Slices(text, start, 0);
    Slices(rest, n, 0);
  }

  lemma HeaderShape(text: string)
    requires HeaderLineEnd(text).Some?
    ensures var start := HeaderLineEnd(text).value;
            && EndsWithHeader(text[..start], text[start..])
            && (start < |text| ==> text[start] == '\n')
  {
    var h := FindPrefix(text, UNRELEASED, true).value;
    MatchStartsLine(text, UNRELEASED, true);
    HeaderLineIsLong(text[h..]);
    LineEndStops(text[h..]);
    Slices(text, h, LineEnd(text[h..]));
    Slices(text, h + LineEnd(text[h..]), 0);
  }

  lemma RestShape(rest: string)
    ensures FindPrefix(rest[..SectionEnd(rest)], SECTION, false) == None
    ensures rest[SectionEnd(rest)..] != "" ==>
            EndsLine(rest[..SectionEnd(rest)]) && StartsWith(rest[SectionEnd(rest)..], SECTION)
  {
    NoneBeforeFirst(rest, SECTION, false, SectionEnd(rest));
    if FindPrefix(rest, SECTION, false).Some? {
      MatchStartsLine(rest, SECTION, false);
    }
  }

  /** The Unreleased header is itself a section header, so a second one ends the section. */
  lemma UnreleasedIsASection()
    ensures UNRELEASED == SECTION + "Unreleased]"
  {
  }

  lemma HeaderLineIsLong(text: string)
    requires StartsWith(text, UNRELEASED)
    ensures LineEnd(text) >= |UNRELEASED|
  {
    LineEndStops(text);
    forall i | 0 <= i < |UNRELEASED| ensures text[i] != '\n' {
      assert text[..|UNRELEASED|][i] == text[i] && UNRELEASED[i] in UNRELEASED;
    }
  }

  /** Splitting the same header with another body: it works exactly when the body ends with its line. */
  lemma SplitOther(before: string, body: string, after: string, rest: string)
    requires EndsWithHeader(before, rest)
    requires body != "" ==> body[0] == '\n'
    requires body == "" ==> after == ""
    requires FindPrefix(body, SECTION, false) == None
    requires after != "" ==> StartsWith(after, SECTION)
    ensures SplitUnreleased(before + body + after) == Some((before, body, after)) <==> (after == "" || EndsLine(body))
  {
    Parts(before, body, after);
    HeaderIsKept(before, body + after, rest);
    SplitParts(before + body + after, before, body, after);
    SectionEndIs(body, after);
  }

  lemma HeaderIsKept(before: string, other: string, rest: string)
    requires EndsWithHeader(before, rest)
    requires other != "" ==> other[0] == '\n'
    ensures HeaderLineEnd(before + other) == Some(|before|)
  {
    var h := FindPrefix(before + rest, UNRELEASED, true).value;
    FindPrefixStable(before, rest, other, UNRELEASED, true);
    LineBehind(before, other, h);
  }

  /** The line that a text ends in, when the text behind it starts a new line. */
  lemma LineBehind(before: string, other: string, h: nat)
    requires h <= |before| && '\n' !in before[h..] && (other != "" ==> other[0] == '\n')
    ensures LineEnd((before + other)[h..]) == |before| - h
  {
    assert (before + other)[h..] == before[h..] + other;
    LineEndIs(before[h..] + other, |before| - h);
  }

  lemma SectionEndIs(body: string, after: string)
    requires FindPrefix(body, SECTION, false) == None
    requires after != "" ==> StartsWith(after, SECTION) && body != ""
    ensures SectionEnd(body + after) == |body| <==> after == "" || EndsLine(body)
  {
    if after == "" {
      assert body + after == body;
    } else if EndsLine(body) {
      SectionIsLine();
      FoundBehind(body, after, SECTION, false);
    } else if FindPrefix(body + after, SECTION, false).Some? {
      MatchStartsLine(body + after, SECTION, false);
    }
  }

  lemma SectionIsLine()
    ensures IsLine(SECTION)
  {
  }

  /** The second half of the split, once the header line is known. */
  lemma SplitParts(text: string, before: string, body: string, after: string)
    requires text == before + body + after
    requires HeaderLineEnd(text) == Some(|before|)
    ensures SplitUnreleased(text) == Some((before, body, after)) <==> SectionEnd(body + after) == |body|
  {
    var n := SectionEnd(body + after);
    Parts(before, body, after);
    Parts(before, body + after, []);
    Parts(body, after, []);
    Slices(text, |before|, n);
  }

  /* ---------- Sections opened by an entry ---------- */

  /** Some category has an entry with a line that opens a section. */
  predicate OpensSection(groups: seq<Group>) {
    exists i :: 0 <= i < |groups| && groups[i].entries != [] && !NoLineStartsWith(EntryLines(groups[i]), SECTION)
  }

  lemma NoLineInConcat(a: seq<string>, b: seq<string>, prefix: string)
    ensures NoLineStartsWith(a + b, prefix) <==> NoLineStartsWith(a, prefix) && NoLineStartsWith(b, prefix)
  {
    forall i | 0 <= i < |b| ensures (a + b)[|a| + i] == b[i] {
    }
    if NoLineStartsWith(a + b, prefix) {
      forall i | 0 <= i < |a| ensures !StartsWith(a[i], prefix) {
        assert (a + b)[i] == a[i];
      }
      forall i | 0 <= i < |b| ensures !StartsWith(b[i], prefix) {
        assert (a + b)[|a| + i] == b[i];
      }
    }
  }

  lemma NoSectionInserted(lines: seq<string>, at: nat, block: seq<string>)
    requires at <= |lines|
    ensures NoLineStartsWith(InsertLines(lines, at, block), SECTION) <==>
            NoLineStartsWith(lines, SECTION) && NoLineStartsWith(block, SECTION)
  {
    assert NoLineStartsWith([""], SECTION);
    assert lines == lines[..at] + lines[at..];
    NoLineInConcat(lines[..at], lines[at..], SECTION);
    NoLineInConcat([""], block, SECTION);
    NoLineInConcat(lines[..at], [""] + block, SECTION);
    NoLineInConcat(lines[..at] + ([""] + block), lines[at..], SECTION);
  }

  lemma NoSectionInGroup(group: Group)
    ensures NoLineStartsWith(GroupLines(group), SECTION) <==> NoLineStartsWith(EntryLines(group), SECTION)
  {
    assert (GROUP + group.header)[2] == '#' && SECTION[2] == ' ';
    assert NoLineStartsWith([GROUP + group.header, ""], SECTION);
    NoLineInConcat([GROUP + group.header, ""], EntryLines(group), SECTION);
  }

  lemma {:induction false} NoSectionInStack(groups: seq<Group>)
    ensures NoLineStartsWith(StackLines(groups), SECTION) <==>
            forall i :: 0 <= i < |groups| ==> NoLineStartsWith(EntryLines(groups[i]), SECTION)
  {
    if groups != [] {
      NoSectionInGroup(groups[0]);
      NoSectionInStack(groups[1..]);
      assert NoLineStartsWith([""], SECTION);
      NoLineInConcat([""], StackLines(groups[1..]), SECTION);
      NoLineInConcat(GroupLines(groups[0]), [""] + StackLines(groups[1..]), SECTION);
      assert forall i :: 1 <= i < |groups| ==> groups[i] == groups[1..][i - 1];
    }
  }

  /** Every entry is somewhere in the fold: in the body or in the stack of new groups. */
  lemma {:induction false} NoSectionInFold(body: string, groups: seq<Group>, upto: nat)
    requires HasWords(groups) && upto <= |groups| && NoLineStartsWith(Lines(body), SECTION)
    ensures && NoLineStartsWith(FoldLines(Lines(body), groups[..upto]), SECTION)
            && NoLineStartsWith(StackLines(NewGroups(body, groups[..upto])), SECTION)
            <==> !OpensSection(groups[..upto])
  {
    if upto == 0 {
      assert groups[..0] == [];
    } else {
      var i := upto - 1;
      var before, added := FoldLines(Lines(body), groups[..i]), NewGroups(body, groups[..i]);
      NoSectionInFold(body, groups, i);
      TakeOne(groups, i);
      NewGroupsStep(body, groups, i);
      OpensOneMore(groups[..i], groups[i]);
      if IsNew(body, groups, i) {
        NoSectionInStack(added);
        NoSectionInStack(added + [groups[i]]);
        assert (added + [groups[i]])[|added|] == groups[i];
        assert forall j :: 0 <= j < |added| ==> (added + [groups[i]])[j] == added[j];
      } else {
        assert added + [] == added;
        if groups[i].entries != [] {
          NoSectionInserted(before, Place(before, groups[i].header).value, EntryLines(groups[i]));
        }
      }
    }
  }

  lemma OpensOneMore(init: seq<Group>, group: Group)
    ensures OpensSection(init + [group]) <==>
            OpensSection(init) || (group.entries != [] && !NoLineStartsWith(EntryLines(group), SECTION))
  {
    var all := init + [group];
    assert all[|init|] == group;
    assert forall i :: 0 <= i < |init| ==> all[i] == init[i];
  }

  lemma {:induction false} NewGroupsHaveWords(body: string, groups: seq<Group>, upto: nat)
    requires HasWords(groups) && upto <= |groups|
    ensures HasWords(NewGroups(body, groups[..upto]))
  {
    if upto > 0 {
      NewGroupsHaveWords(body, groups, upto - 1);
      NewGroupsStep(body, groups, upto - 1);
    }
  }

  /** What is known of the folded body. */
  lemma FoldedShape(body: string, groups: seq<Group>)
    requires AreFiled(groups)
    requires body == "" || body[0] == '\n'
    requires FindPrefix(body, SECTION, false) == None
    ensures var folded := FoldBody(body, groups);
            && (FindPrefix(folded, SECTION, false) == None <==> !OpensSection(groups))
            && (folded == "" || folded[0] == '\n')
  {
    var added, lines := NewGroups(body, groups), FoldLines(Lines(body), groups);
    TakeAll(groups);
    FirstLineIsEmpty(body);
    NoSectionByLine(body);
    NewGroupsHaveWords(body, groups, |groups|);
    FoldBodyByLine(body, groups);
    FoldStartsEmpty(Lines(body), groups);
    FirstLineIsEmpty(FoldBody(body, groups));
    NoSectionByLine(FoldBody(body, groups));
    NoSectionInFold(body, groups, |groups|);
    NoLineInConcat(PreambleLines(added), lines, SECTION);
    if added != [] {
      assert NoLineStartsWith(["", ""], SECTION);
      NoLineInConcat(["", ""], StackLines(added), SECTION);
    }
  }

  lemma NoSectionByLine(text: string)
    requires Lines(text)[0] == ""
    ensures FindPrefix(text, SECTION, false) == None <==> NoLineStartsWith(Lines(text), SECTION)
  {
    UnlinesOfLines(text);
    SectionIsLine();
    FindPrefixByLine(Lines(text), SECTION, false);
    assert !StartsWith("", SECTION);
    assert Lines(text) == [""] + Lines(text)[1..];
  }

  lemma FirstLineIsEmpty(text: string)
    ensures Lines(text)[0] == "" <==> text == "" || text[0] == '\n'
    ensures text != "" && text[0] == '\n' ==> |Lines(text)| > 1
  {
  }

  lemma {:induction false} FoldStartsEmpty(lines: seq<string>, groups: seq<Group>)
    requires lines != [] && lines[0] == ""
    ensures |FoldLines(lines, groups)| >= |lines| && FoldLines(lines, groups)[0] == ""
  {
    if groups != [] {
      FoldStartsEmpty(lines, groups[..|groups| - 1]);
    }
  }

  /* ---------- The end of the folded section ---------- */

  /** A category has entries, and its header in the body is followed by nothing but white space. */
  predicate IsPutAtEnd(body: string, group: Group) {
    group.entries != [] && FindHeader(body, group.header, true) == Some(|body|)
  }

  /** That is so for some category when its turn comes. */
  predicate PutAtEndInTurn(body: string, groups: seq<Group>) {
    && groups != []
    && (|| PutAtEndInTurn(body, groups[..|groups| - 1])
        || IsPutAtEnd(FoldExisting(body, groups[..|groups| - 1]), groups[|groups| - 1]))
  }

  /** Entries are no end of a line. */
  lemma JoinedEnds(group: Group)
    requires IsFiled(group) && group.entries != []
    ensures Joined(group) != "" && Joined(group)[|Joined(group)| - 1] != '\n'
  {
    JoinedIsStripped(group.entries);
  }

  lemma EndAfterInsertion(body: string, at: nat, text: string)
    requires body != "" && at <= |body| && text != "" && text[|text| - 1] != '\n'
    ensures var after := Insert(body, Edit(at, text));
            after != "" && (EndsLine(after) <==> EndsLine(body) && at != |body|)
  {
    var after := Insert(body, Edit(at, text));
    if at == |body| {
      assert after[|after| - 1] == text[|text| - 1];
    } else {
      assert after[|after| - 1] == body[|body| - 1];
    }
  }

  /** The folded body ends with its line unless entries were put at its end. */
  lemma {:induction false} EndOfFoldExisting(body: string, groups: seq<Group>)
    requires AreFiled(groups) && EndsLine(body)
    ensures FoldExisting(body, groups) != ""
    ensures EndsLine(FoldExisting(body, groups)) <==> !PutAtEndInTurn(body, groups)
  {
    if groups != [] {
      var init, group := groups[..|groups| - 1], groups[|groups| - 1];
      EndOfFoldExisting(body, init);
      if EditFor(FoldExisting(body, init), group).Some? {
        JoinedEnds(group);
        EndAfterInsertion(FoldExisting(body, init), EditFor(FoldExisting(body, init), group).value.at,
          "\n\n" + Joined(group));
      }
    }
  }

  /* ---------- Splitting again ---------- */

  /** A section opened inside is where a search ends. */
  lemma SectionInside(body: string, after: string)
    requires FindPrefix(body, SECTION, false).Some?
    ensures SectionEnd(body + after) != |body|
  {
    MatchStartsLine(body, SECTION, false);
    assert body + "" == body;
    FindPrefixStable(body, "", after, SECTION, false);
  }

  /**
   Splitting the folded file finds the same outer parts around the folded body if and only if no
   entry has a line that opens a section, and nothing follows the section or no entries were put at
   its very end.
   */
  lemma SplitAgain(text: string, groups: seq<Group>)
    requires AreFiled(groups) && SplitUnreleased(text).Some?
    ensures var (before, body, after) := SplitUnreleased(text).value;
            SplitUnreleased(before + FoldBody(body, groups) + after) ==
              Some((before, FoldBody(body, groups), after)) <==>
            !OpensSection(groups) && (after == "" || !PutAtEndInTurn(body, groups))
  {
    var (before, body, after) := SplitUnreleased(text).value;
    var folded := FoldBody(body, groups);
    SplitShape(text);
    FoldedShape(body, groups);
    if after != "" {
      EndOfFoldExisting(body, groups);
      assert EndsLine(folded) <==> EndsLine(FoldExisting(body, groups));
    }
    if OpensSection(groups) {
      Parts(before, folded, after);
      HeaderIsKept(before, folded + after, body + after);
      SplitParts(before + folded + after, before, folded, after);
      SectionInside(folded, after);
    } else {
      SplitOther(before, folded, after, body + after);
    }
  }
}
