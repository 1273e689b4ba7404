/**
 Where the folded section ends, known from the body before the fold: if no entry has a line that is
 the header of another category, earlier categories do not change whether a later one is put at the end.
 */
module ChangelogEnd {
  import opened Wrappers
  import opened Sequences
  import opened Text
  import opened Changelog
  import opened ChangelogLayout
  import opened ChangelogTheorems
  import opened ChangelogSplit

  /** A category with entries whose header is followed by nothing but white space up to the end of the section. */
  predicate PutAtEnd(body: string, groups: seq<Group>) {
    exists i :: 0 <= i < |groups| && IsPutAtEnd(body, groups[i])
  }

  predicate AtEnd(lines: seq<string>, group: Group) {
    group.entries != [] && Place(lines, group.header) == Some(|lines|)
  }

  lemma AtEndByLine(body: string, group: Group)
    requires IsWord(group.header)
    ensures AtEnd(Lines(body), group) <==> IsPutAtEnd(body, group)
  {
    var lines := Lines(body);
    UnlinesOfLines(body);
    FindHeaderByLine(lines, group.header, true);
    if Place(lines, group.header).Some? {
      LengthIsAll(lines, Place(lines, group.header).value);
    }
  }

  lemma LengthIsAll(lines: seq<string>, m: nat)
    requires 0 < m <= |lines|
    ensures Length(lines, m) == |Unlines(lines)| <==> m == |lines|
  {
    if m == |lines| {
      assert lines[..m] == lines;
    } else {
      assert lines == lines[..m] + lines[m..];
      UnlinesConcat(lines[..m], lines[m..]);
    }
  }

  function Last(lines: seq<string>): string
    requires lines != []
  {
    lines[|lines| - 1]
  }

  /** An insertion that is not at the end does not change whether another category is. */
  lemma OtherEndsStay(lines: seq<string>, group: Group, other: Group)
    requires lines != [] && IsFiled(group) && IsFiled(other) && IsApart(group, other)
    requires !AtEnd(lines, group)
    ensures AtEnd(FoldLine(lines, group), other) <==> AtEnd(lines, other)
  {
    if group.entries != [] && other.entries != [] && Place(lines, group.header).Some? {
      var at, block := Place(lines, group.header).value, EntryLines(group);
      if Place(lines, other.header).None? {
        InsertionAddsNoHeader(lines, at, block, other.header);
      } else {
        PlacesAreApart(lines, group.header, other.header);
        EndMoves(lines, at, block, other.header);
      }
    }
  }

  lemma SameEnd(place: nat, moved: nat, count: nat, added: nat)
    requires place <= count && (moved == place + added || (moved == place && place < count))
    ensures moved == count + added <==> place == count
  {
  }

  lemma EndMoves(lines: seq<string>, at: nat, block: seq<string>, other: string)
    requires at < |lines| && HasNoHeader(block, other) && Place(lines, other).Some?
    requires at <= FirstHeader(lines, other, 0).value || Place(lines, other).value < at
    ensures Place(InsertLines(lines, at, block), other) == Some(|InsertLines(lines, at, block)|) <==>
            Place(lines, other) == Some(|lines|)
  {
    InsertedLength(lines, at, block);
    if at <= FirstHeader(lines, other, 0).value {
      PlaceMovesDown(lines, at, block, other);
    } else {
      PlaceStays(lines, at, block, other);
    }
    SameEnd(Place(lines, other).value, Place(InsertLines(lines, at, block), other).value, |lines|, |block| + 1);
  }

  lemma InsertedLength(lines: seq<string>, at: nat, block: seq<string>)
    requires at <= |lines|
    ensures |InsertLines(lines, at, block)| == |lines| + |block| + 1
  {
  }

  /** The blocks of two categories do not interleave. */
  lemma PlacesAreApart(lines: seq<string>, a: string, b: string)
    requires IsWord(a) && IsWord(b) && a != b
    requires Place(lines, a).Some? && Place(lines, b).Some?
    ensures Place(lines, a).value <= FirstHeader(lines, b, 0).value || Place(lines, b).value < Place(lines, a).value
  {
    var k, k' := FirstHeader(lines, a, 0).value, FirstHeader(lines, b, 0).value;
    HeaderIsNotBlank(lines[k], a);
    HeaderIsNotBlank(lines[k'], b);
    if k == k' {
      HeaderIsUnique(lines[k], a, b);
    }
  }

  /** Once the section ends with an entry, it keeps ending with one. */
  lemma EntryEndsStay(lines: seq<string>, group: Group)
    requires lines != [] && IsFiled(group)
    requires AtEnd(lines, group) || !IsBlank(Last(lines))
    ensures FoldLine(lines, group) != [] && !IsBlank(Last(FoldLine(lines, group)))
  {
    if group.entries != [] && Place(lines, group.header).Some? {
      var at, block := Place(lines, group.header).value, EntryLines(group);
      EntryEdges(group);
      InsertedAt(lines, at, block, |lines| + |block|);
    }
  }

  predicate SomeAtEnd(lines: seq<string>, groups: seq<Group>) {
    exists i :: 0 <= i < |groups| && AtEnd(lines, groups[i])
  }

  lemma {:induction false} EndOfFold(lines: seq<string>, groups: seq<Group>, upto: nat, j: nat)
    requires AllTame(groups) && upto <= |groups|
    requires lines != [] && Last(lines) == ""
    ensures FoldLines(lines, groups[..upto]) != []
    ensures SomeAtEnd(lines, groups[..upto]) ==> !IsBlank(Last(FoldLines(lines, groups[..upto])))
    ensures !SomeAtEnd(lines, groups[..upto]) ==> Last(FoldLines(lines, groups[..upto])) == ""
    ensures !SomeAtEnd(lines, groups[..upto]) && upto <= j < |groups| ==>
              (AtEnd(FoldLines(lines, groups[..upto]), groups[j]) <==> AtEnd(lines, groups[j]))
  {
    if upto > 0 {
      var init, group := groups[..upto - 1], groups[upto - 1];
      EndOfFold(lines, groups, upto - 1, j);
      EndOfFold(lines, groups, upto - 1, upto - 1);
      TakeOne(groups, upto - 1);
      SomeAtEndStep(lines, init, group);
      var before := FoldLines(lines, init);
      assert FoldLines(lines, groups[..upto]) == FoldLine(before, group);
      if SomeAtEnd(lines, groups[..upto]) {
        EntryEndsStay(before, group);
      } else {
        if upto <= j < |groups| {
          OtherEndsStay(before, group, groups[j]);
        }
        LastStays(before, group);
      }
    }
  }

  lemma LastStays(lines: seq<string>, group: Group)
    requires lines != [] && !AtEnd(lines, group)
    ensures FoldLine(lines, group) != [] && Last(FoldLine(lines, group)) == Last(lines)
  {
    if group.entries != [] && Place(lines, group.header).Some? {
      InsertedAt(lines, Place(lines, group.header).value, EntryLines(group), |lines| + |EntryLines(group)|);
    }
  }

  lemma SomeAtEndStep(lines: seq<string>, init: seq<Group>, group: Group)
    ensures SomeAtEnd(lines, init + [group]) <==> SomeAtEnd(lines, init) || AtEnd(lines, group)
  {
    var all := init + [group];
    if i :| 0 <= i < |init| && AtEnd(lines, init[i]) {
      assert AtEnd(lines, all[i]);
    }
    if AtEnd(lines, group) {
      assert AtEnd(lines, all[|init|]);
    }
  }

  lemma SomeAtEndByText(body: string, groups: seq<Group>)
    requires HasWords(groups)
    ensures SomeAtEnd(Lines(body), groups) <==> PutAtEnd(body, groups)
  {
    forall i | 0 <= i < |groups| ensures AtEnd(Lines(body), groups[i]) <==> IsPutAtEnd(body, groups[i]) {
      AtEndByLine(body, groups[i]);
    }
  }

  lemma EndsLineByLines(lines: seq<string>)
    requires lines != [] && AreLines(lines) && Unlines(lines) != ""
    ensures EndsLine(Unlines(lines)) <==> Last(lines) == ""
  {
    LinesOfUnlines(lines);
    EdgesOfLines(Unlines(lines));
  }

  lemma FoldedEnd(body: string, groups: seq<Group>)
    requires AllTame(groups) && EndsLine(body)
    ensures EndsLine(FoldExisting(body, groups)) <==> !PutAtEnd(body, groups)
  {
    TakeAll(groups);
    FoldByLine(body, groups);
    EndOfFoldExisting(body, groups);
    EndsLineByLines(FoldLines(Lines(body), groups));
    UnlinesOfLines(body);
    EndsLineByLines(Lines(body));
    EndOfFold(Lines(body), groups, |groups|, |groups|);
    SomeAtEndByText(body, groups);
  }

  /**
   For tame groups the end can be read off the body: the header of a category with entries is the
   last thing in it.
   */
  lemma EndIsKnownBefore(body: string, groups: seq<Group>)
    requires AllTame(groups) && EndsLine(body)
    ensures PutAtEndInTurn(body, groups) <==> PutAtEnd(body, groups)
  {
    FoldedEnd(body, groups);
    EndOfFoldExisting(body, groups);
  }

  /** A section that ends with the header of a category: its entries swallow the header of the next section. */
  lemma LastHeaderIsGlued(group: Group, after: string)
    requires IsFiled(group) && group.entries != [] && StartsWith(after, SECTION)
    ensures var body := "\n" + GROUP + group.header + "\n";
            && SplitUnreleased(UNRELEASED + body + after) == Some((UNRELEASED, body, after))
            && SplitUnreleased(UNRELEASED + FoldBody(body, [group]) + after) !=
              Some((UNRELEASED, FoldBody(body, [group]), after))
  {
    var body := "\n" + GROUP + group.header + "\n";
    var lines := ["", GROUP + group.header, ""];
    LinesOfHeader(group.header);
    assert IsHeaderLine(lines[1], group.header) by {
      assert (GROUP + group.header)[|GROUP + group.header|..] == "";
    }
    EmptyIsNoHeader(group.header);
    PlaceIs(lines, group.header, 1, 3);
    AtEndByLine(body, group);
    HeaderIsNotBlank(lines[1], group.header);
    NoSectionByLine(body);
    assert PutAtEnd(body, [group]) by { assert [group][0] == group; }
    assert UNRELEASED + (body + after) == UNRELEASED + body + after;
    assert (UNRELEASED + (body + after))[..|UNRELEASED|] == UNRELEASED;
    assert UNRELEASED[0..] == UNRELEASED && '\n' !in UNRELEASED;
    SplitOther(UNRELEASED, body, after, body + after);
    assert AllTame([group]);
    EndIsKnownBefore(body, [group]);
    SplitAgain(UNRELEASED + body + after, [group]);
  }

  lemma LinesOfHeader(header: string)
    requires IsWord(header)
    ensures Lines("\n" + GROUP + header + "\n") == ["", GROUP + header, ""]
  {
    WordIsLine(header);
    var lines := ["", GROUP + header, ""];
    assert lines[1..] == [GROUP + header, ""] && lines[1..][1..] == [""];
    assert Unlines([""]) == "";
    assert Unlines(lines[1..]) == GROUP + header + "\n" + "";
    assert Unlines(lines) == "" + "\n" + (GROUP + header + "\n" + "");
    assert "" + "\n" + (GROUP + header + "\n" + "") == "\n" + GROUP + header + "\n";
    LinesOfUnlines(lines);
  }

  /** A changelog whose split the fold breaks. */
  lemma GluedExample(group: Group, body: string, after: string)
    requires group == Group("Added", ["- x"]) && body == "\n### Added\n" && after == "## [1.0.0]"
    ensures IsFiled(group)
    ensures SplitUnreleased(UNRELEASED + body + after) == Some((UNRELEASED, body, after))
    ensures SplitUnreleased(UNRELEASED + FoldBody(body, [group]) + after) !=
            Some((UNRELEASED, FoldBody(body, [group]), after))
  {
    assert "\n" + GROUP + "Added" + "\n" == body;
    assert StartsWith(after, SECTION);
    LastHeaderIsGlued(group, after);
  }
}
